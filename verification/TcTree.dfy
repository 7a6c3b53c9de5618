/** The tail-compressed radix tree of tcradix.c, described node by node.

A linked node has a level and a prefix. Whether it is right depends only on its own fields, on the
positions of the nodes its slots point to, and on the map that the whole tree represents. */
module TcTree {
  import opened Digits

  /** A slot: NULL, a child node, or at level 0 a value. */
  datatype Cell = Empty | Sub(id: nat) | Val(v: int)

  /** `struct tcrnode`; a value of 0 is NULL. */
  datatype TNode = TNode(slot: seq<Cell>, onlyKey: Key, onlyVal: int, nchildren: nat)

  /** The level of a node and the slices above it; the others are zero. */
  datatype Pos = Pos(lev: nat, pre: Key)

  predicate IsZero(k: Key) {
    forall j :: 0 <= j < |k| ==> k[j] == 0
  }

  predicate IsTop(k: Key) {
    forall j :: 0 <= j < |k| ==> k[j] == 15
  }

  predicate GoodPos(p: Pos) {
    p.lev < 16 && Keyed(SZ, p.pre) && p.pre == Masked(p.pre, p.lev)
  }

  /** The key lies below a node at p. */
  predicate In(k: Key, p: Pos) {
    Agree(k, p.pre, p.lev)
  }

  /** q is p or below p. */
  predicate Inside(p: Pos, q: Pos) {
    q.lev <= p.lev && Agree(q.pre, p.pre, p.lev)
  }

  function ChildPos(p: Pos, i: int): Pos
    requires 0 < p.lev < |p.pre|
  {
    Pos(p.lev - 1, p.pre[p.lev := i])
  }

  /** The number of occupied slots. */
  function Count(s: seq<Cell>): nat {
    if s == [] then 0 else (if s[0] == Empty then 0 else 1) + Count(s[1..])
  }

  lemma {:induction false} CountSet(s: seq<Cell>, i: nat, c: Cell)
    requires i < |s|
    ensures Count(s[i := c]) == Count(s) - (if s[i] == Empty then 0 else 1) + (if c == Empty then 0 else 1)
    ensures s[i] != Empty ==> Count(s) > 0
  {
    if i == 0 {
      assert s[i := c][1..] == s[1..];
    } else {
      assert s[i := c][1..] == s[1..][i - 1 := c];
      CountSet(s[1..], i - 1, c);
    }
  }

  lemma {:induction false} CountZero(s: seq<Cell>)
    ensures Count(s) == 0 <==> forall i :: 0 <= i < |s| ==> s[i] == Empty
  {
    if s != [] {
      CountZero(s[1..]);
      assert forall i :: 0 < i < |s| ==> s[i] == s[1..][i - 1];
      assert forall i :: 0 <= i < |s| - 1 ==> s[1..][i] == s[i + 1];
    }
  }

  ghost predicate MapOk(m: map<Key, int>) {
    forall k :: k in m ==> Keyed(SZ, k) && m[k] != 0
  }

  /** Something is stored below p. */
  ghost predicate Occupied(m: map<Key, int>, p: Pos) {
    exists k :: k in m && In(k, p)
  }

  // ---------------------------------------------------------------------------------------
  // One node

  /** Slot i of an inner node points to a node at the right position. */
  predicate SlotFits(nodes: map<nat, TNode>, info: map<nat, Pos>, p: Pos, c: Cell, i: int)
    requires 0 < p.lev < |p.pre|
  {
    c == Empty || (c.Sub? && c.id in info && c.id in nodes && info[c.id] == ChildPos(p, i))
  }

  ghost predicate SlotsFit(nodes: map<nat, TNode>, info: map<nat, Pos>, id: nat)
    requires id in nodes && id in info
  {
    var nd, p := nodes[id], info[id];
    && |nd.slot| == 16 && nd.nchildren == Count(nd.slot) && Keyed(SZ, nd.onlyKey) && GoodPos(p)
    && (p.lev > 0 ==> forall i {:trigger SlotFits(nodes, info, p, nd.slot[i], i)} :: 0 <= i < 16 ==>
        SlotFits(nodes, info, p, nd.slot[i], i))
  }

  /** Level 0: the slots are the values. */
  ghost predicate BottomOk(nd: TNode, p: Pos, m: map<Key, int>)
    requires |nd.slot| == 16 && |p.pre| == 16
  {
    && (forall i :: 0 <= i < 16 ==> nd.slot[i] == if p.pre[0 := i] in m then Val(m[p.pre[0 := i]]) else Empty)
    && (!IsZero(nd.onlyKey) ==> nd.onlyKey in m && In(nd.onlyKey, p))
  }

  /** A node with a non-zero only_key represents exactly that entry. */
  ghost predicate OnlyOk(nd: TNode, p: Pos, m: map<Key, int>)
    requires |nd.slot| == 16 && p.lev < 16 && |nd.onlyKey| == 16
  {
    && nd.onlyKey in m && In(nd.onlyKey, p) && m[nd.onlyKey] == nd.onlyVal
    && (forall k :: k in m && In(k, p) ==> k == nd.onlyKey)
    && (forall i :: 0 <= i < 16 && i != nd.onlyKey[p.lev] ==> nd.slot[i] == Empty)
  }

  /** A node with only_key zero has a child for every entry. */
  ghost predicate WideOk(nd: TNode, p: Pos, m: map<Key, int>)
    requires |nd.slot| == 16 && p.lev < 16
  {
    forall k :: k in m && In(k, p) && |k| == 16 && 0 <= k[p.lev] < 16 ==> nd.slot[k[p.lev]] != Empty
  }

  ghost predicate NodeOk(nodes: map<nat, TNode>, info: map<nat, Pos>, m: map<Key, int>, id: nat)
    requires id in nodes && id in info
  {
    && SlotsFit(nodes, info, id)
    && (if info[id].lev == 0 then BottomOk(nodes[id], info[id], m)
        else if IsZero(nodes[id].onlyKey) then WideOk(nodes[id], info[id], m)
        else OnlyOk(nodes[id], info[id], m))
  }

  // ---------------------------------------------------------------------------------------
  // The net of positions

  /** b is the node above a. */
  predicate Above(info: map<nat, Pos>, b: nat, a: nat)
    requires a in info
  {
    b in info && info[b].lev == info[a].lev + 1 && Agree(info[a].pre, info[b].pre, info[b].lev)
  }

  /** A node whose parent is linked hangs in the parent's slot. */
  predicate Hangs(nodes: map<nat, TNode>, info: map<nat, Pos>, b: nat, a: nat)
    requires a in info && b in info && b in nodes
  {
    Above(info, b, a) && |info[a].pre| == 16 && |nodes[b].slot| == 16 && info[b].lev < 16
        && 0 <= info[a].pre[info[b].lev] < 16 ==>
      nodes[b].slot[info[a].pre[info[b].lev]] == Sub(a)
  }

  /** Positions are unique; every node but the tops has a parent, and hangs in it. */
  ghost predicate Net(nodes: map<nat, TNode>, info: map<nat, Pos>, tops: set<nat>) {
    && (forall a :: a in info ==> a in nodes && GoodPos(info[a]) && |nodes[a].slot| == 16)
    && (forall a, b {:trigger info[a], info[b]} :: a in info && b in info && info[a] == info[b] ==> a == b)
    && (forall a, b {:trigger Hangs(nodes, info, b, a)} :: a in info && b in info && a !in tops ==>
        Hangs(nodes, info, b, a))
    && (forall a {:trigger HasParent(info, a)} :: a in info && a !in tops ==> HasParent(info, a))
    && (forall t :: t in tops ==> t in info)
  }

  ghost predicate HasParent(info: map<nat, Pos>, a: nat)
    requires a in info
  {
    exists b :: Above(info, b, a)
  }

  /** All nodes at or below n are right for m; those strictly below are occupied. */
  ghost predicate RegionOk(nodes: map<nat, TNode>, info: map<nat, Pos>, m: map<Key, int>, n: nat)
    requires n in info && forall a :: a in info ==> a in nodes
  {
    && NodeOk(nodes, info, m, n)
    && PartsOk(nodes, info, m, n)
  }

  /** All nodes strictly below n are right for m and occupied. */
  ghost predicate PartsOk(nodes: map<nat, TNode>, info: map<nat, Pos>, m: map<Key, int>, n: nat)
    requires n in info && forall a :: a in info ==> a in nodes
  {
    forall x {:trigger PartOk(nodes, info, m, x)} :: x in info && x != n && Inside(info[n], info[x]) ==>
        PartOk(nodes, info, m, x)
  }

  ghost predicate PartOk(nodes: map<nat, TNode>, info: map<nat, Pos>, m: map<Key, int>, x: nat)
    requires x in info && x in nodes
  {
    NodeOk(nodes, info, m, x) && Occupied(m, info[x])
  }

  // ---------------------------------------------------------------------------------------
  // Geometry

  lemma ChildIn(p: Pos, k: Key)
    requires GoodPos(p) && p.lev > 0 && Keyed(SZ, k) && In(k, p)
    ensures GoodPos(ChildPos(p, k[p.lev])) && In(k, ChildPos(p, k[p.lev])) && Inside(p, ChildPos(p, k[p.lev]))
  {
    var q := ChildPos(p, k[p.lev]);
    forall j | 0 <= j < 16 ensures q.pre[j] == Masked(q.pre, q.lev)[j] {
      assert p.pre[j] == Masked(p.pre, p.lev)[j];
    }
  }

  lemma ChildGood(p: Pos, i: int)
    requires GoodPos(p) && p.lev > 0 && 0 <= i < 16
    ensures GoodPos(ChildPos(p, i)) && Inside(p, ChildPos(p, i))
  {
    var q := ChildPos(p, i);
    forall j | 0 <= j < 16 ensures q.pre[j] == Masked(q.pre, q.lev)[j] {
      assert p.pre[j] == Masked(p.pre, p.lev)[j];
    }
  }

  /** A node strictly below p is at or below the child of p that its prefix selects. */
  lemma InsideChild(p: Pos, q: Pos)
    requires GoodPos(p) && GoodPos(q) && Inside(p, q) && q.lev < p.lev
    ensures 0 <= q.pre[p.lev] < 16 && Inside(ChildPos(p, q.pre[p.lev]), q)
  {
  }

  /** Same level and inside means same position. */
  lemma InsideSame(p: Pos, q: Pos)
    requires GoodPos(p) && GoodPos(q) && Inside(p, q) && q.lev == p.lev
    ensures p == q
  {
    forall j | 0 <= j < 16 ensures p.pre[j] == q.pre[j] {
      assert p.pre[j] == Masked(p.pre, p.lev)[j] && q.pre[j] == Masked(q.pre, q.lev)[j];
    }
    assert p.pre == q.pre;
  }

  /** At level 0 a key below p is p's prefix with its last slice. */
  lemma BottomKey(p: Pos, k: Key)
    requires GoodPos(p) && p.lev == 0 && Keyed(SZ, k)
    ensures In(k, p) <==> k == p.pre[0 := k[0]]
  {
  }

  // ---------------------------------------------------------------------------------------
  // Frames

  /** m and m' have the same entries below p. */
  ghost predicate SameIn(m: map<Key, int>, m': map<Key, int>, p: Pos) {
    forall k :: Keyed(SZ, k) && In(k, p) ==> (k in m <==> k in m') && (k in m ==> m[k] == m'[k])
  }

  /** A node does not notice changes of the map elsewhere. */
  lemma MapFrame(nodes: map<nat, TNode>, info: map<nat, Pos>, m: map<Key, int>, m': map<Key, int>, id: nat)
    requires id in nodes && id in info && NodeOk(nodes, info, m, id) && SameIn(m, m', info[id]) && MapOk(m) && MapOk(m')
    ensures NodeOk(nodes, info, m', id)
    ensures Occupied(m, info[id]) ==> Occupied(m', info[id])
  {
    var p := info[id];
    if p.lev == 0 {
      forall i | 0 <= i < 16
        ensures nodes[id].slot[i] == if p.pre[0 := i] in m' then Val(m'[p.pre[0 := i]]) else Empty
      {
        BottomKey(p, p.pre[0 := i]);
      }
    }
  }

  /** A node that is not written stays right when positions are kept. */
  lemma NodeFrame(nodes: map<nat, TNode>, info: map<nat, Pos>, nodes': map<nat, TNode>, info': map<nat, Pos>,
                  m: map<Key, int>, id: nat)
    requires id in nodes && id in info && NodeOk(nodes, info, m, id)
    requires id in nodes' && id in info' && nodes'[id] == nodes[id] && info'[id] == info[id]
    requires forall c :: c in info && Sub(c) in nodes[id].slot ==> c in info' && info'[c] == info[c] && c in nodes'
    ensures NodeOk(nodes', info', m, id)
  {
    var p := info[id];
    if p.lev > 0 {
      forall i | 0 <= i < 16 ensures SlotFits(nodes', info', p, nodes'[id].slot[i], i) {
        assert SlotFits(nodes, info, p, nodes[id].slot[i], i);
      }
    }
  }

  /** The node at or above q, below p, that leads to k leads through p's child for k. */
  lemma InsideFor(p: Pos, q: Pos, k: Key)
    requires GoodPos(p) && GoodPos(q) && Inside(p, q) && q.lev < p.lev && Keyed(SZ, k) && In(k, q)
    ensures In(k, p) && Inside(ChildPos(p, k[p.lev]), q)
  {
  }

  lemma InsideTrans(p: Pos, q: Pos, r: Pos)
    requires GoodPos(p) && GoodPos(q) && GoodPos(r) && Inside(p, q) && Inside(q, r)
    ensures Inside(p, r)
  {
  }

  /** If nothing is at p, nothing is below p. */
  lemma {:induction false} NoneInside(nodes: map<nat, TNode>, info: map<nat, Pos>, tops: set<nat>, p: Pos, x: nat)
    requires Net(nodes, info, tops) && GoodPos(p) && x in info
    requires forall y :: y in info ==> info[y] != p
    requires forall t :: t in tops ==> !Inside(p, info[t])
    ensures !Inside(p, info[x])
    decreases 16 - info[x].lev
  {
    if Inside(p, info[x]) {
      assert HasParent(info, x);
      var b :| Above(info, b, x);
      if info[x].lev == p.lev {
        InsideSame(p, info[x]);
        assert false;
      }
      assert Inside(p, info[b]);
      NoneInside(nodes, info, tops, p, b);
    }
  }

  /** Slots that point to nodes are untouched. */
  lemma NetSame(nodes: map<nat, TNode>, nodes': map<nat, TNode>, info: map<nat, Pos>, tops: set<nat>)
    requires Net(nodes, info, tops)
    requires forall b :: b in info ==>
               b in nodes' && |nodes'[b].slot| == 16 && (info[b].lev > 0 ==> nodes'[b].slot == nodes[b].slot)
    ensures Net(nodes', info, tops)
  {
    forall a, b | a in info && b in info && a !in tops ensures Hangs(nodes', info, b, a) {
      assert Hangs(nodes, info, b, a);
    }
    assert forall a :: a in info && a !in tops ==> HasParent(info, a);
  }

  /** A new node at a free position, not yet linked. */
  lemma NetAdd(nodes: map<nat, TNode>, nodes': map<nat, TNode>, info: map<nat, Pos>, tops: set<nat>, c: nat, p: Pos)
    requires Net(nodes, info, tops) && c !in info && GoodPos(p)
    requires forall b :: b in info ==> b in nodes' && nodes'[b] == nodes[b]
    requires c in nodes' && |nodes'[c].slot| == 16
    requires forall x :: x in info ==> !Inside(p, info[x])
    ensures Net(nodes', info[c := p], tops + {c})
  {
    var info' := info[c := p];
    forall a, b | a in info' && b in info' && a !in tops + {c} ensures Hangs(nodes', info', b, a) {
      if b == c {
        assert !Inside(p, info[a]);
      } else {
        assert Hangs(nodes, info, b, a);
      }
    }
    forall a | a in info' && a !in tops + {c} ensures HasParent(info', a) {
      assert HasParent(info, a);
      var b :| Above(info, b, a);
      assert Above(info', b, a);
    }
    forall a | a in info ensures info[a] != p {
      assert !Inside(p, info[a]);
    }
  }

  /** Linking it. */
  lemma NetLink(nodes: map<nat, TNode>, nodes': map<nat, TNode>, info: map<nat, Pos>, tops: set<nat>, n: nat, c: nat,
                i: int)
    requires Net(nodes, info, tops + {c}) && n in info && c in info && c !in tops && info[n].lev > 0 && 0 <= i < 16
    requires info[c] == ChildPos(info[n], i) && nodes[n].slot[i] == Empty
    requires n in nodes' && nodes'[n].slot == nodes[n].slot[i := Sub(c)]
    requires forall b :: b in info && b != n ==> b in nodes' && nodes'[b] == nodes[b]
    ensures Net(nodes', info, tops)
  {
    forall a, b | a in info && b in info && a !in tops ensures Hangs(nodes', info, b, a) {
      if a == c {
        if Above(info, b, c) {
          assert Inside(info[n], info[b]);
          InsideSame(info[n], info[b]);
        }
      } else {
        assert Hangs(nodes, info, b, a);
      }
    }
    forall a | a in info && a !in tops ensures HasParent(info, a) {
      if a == c { assert Above(info, n, c); } else { assert a !in tops + {c}; }
    }
  }

  /** The nodes below n stay right if those below its child at key's slot do and the others are not written. */
  lemma PartsKept(nodes: map<nat, TNode>, info: map<nat, Pos>, nodes': map<nat, TNode>, info': map<nat, Pos>,
                  m: map<Key, int>, m': map<Key, int>, n: nat, key: Key)
    requires n in info && (forall a :: a in info ==> a in nodes) && (forall a :: a in info' ==> a in nodes')
    requires forall a :: a in info ==> GoodPos(info[a])
    requires forall a :: a in info' ==> GoodPos(info'[a])
    requires n in info' && info'[n] == info[n] && GoodPos(info[n]) && info[n].lev > 0
    requires Keyed(SZ, key) && In(key, info[n]) && MapOk(m) && MapOk(m')
    requires forall k :: k != key ==> (k in m <==> k in m') && (k in m ==> m[k] == m'[k])
    requires forall a, b {:trigger info'[a], info'[b]} :: a in info' && b in info' && info'[a] == info'[b] ==> a == b
    requires PartsOk(nodes, info, m, n)
    requires forall x :: x in info && !Inside(ChildPos(info[n], key[info[n].lev]), info[x]) ==>
               x in info' && info'[x] == info[x] && (x != n ==> nodes'[x] == nodes[x])
    requires forall x :: x in info' && !Inside(ChildPos(info[n], key[info[n].lev]), info'[x]) ==>
               x in info && info[x] == info'[x]
    requires forall x {:trigger PartOk(nodes', info', m', x)} ::
               x in info' && Inside(ChildPos(info[n], key[info[n].lev]), info'[x]) ==> PartOk(nodes', info', m', x)
    ensures PartsOk(nodes', info', m', n)
  {
    var p := info[n];
    var q := ChildPos(p, key[p.lev]);
    ChildIn(p, key);
    forall x | x in info' && x != n && Inside(p, info'[x]) ensures PartOk(nodes', info', m', x) {
      if !Inside(q, info'[x]) {
        PartKept(nodes, info, nodes', info', m, m', n, key, x);
      }
    }
  }

  lemma PartKept(nodes: map<nat, TNode>, info: map<nat, Pos>, nodes': map<nat, TNode>, info': map<nat, Pos>,
                 m: map<Key, int>, m': map<Key, int>, n: nat, key: Key, x: nat)
    requires n in info && (forall a :: a in info ==> a in nodes) && (forall a :: a in info' ==> a in nodes')
    requires forall a :: a in info ==> GoodPos(info[a])
    requires n in info' && info'[n] == info[n] && GoodPos(info[n]) && info[n].lev > 0
    requires Keyed(SZ, key) && In(key, info[n]) && MapOk(m) && MapOk(m')
    requires forall k :: k != key ==> (k in m <==> k in m') && (k in m ==> m[k] == m'[k])
    requires forall a, b {:trigger info'[a], info'[b]} :: a in info' && b in info' && info'[a] == info'[b] ==> a == b
    requires forall x :: x in info && !Inside(ChildPos(info[n], key[info[n].lev]), info[x]) ==>
               x in info' && info'[x] == info[x] && (x != n ==> nodes'[x] == nodes[x])
    requires x in info && x != n && Inside(info[n], info[x]) && !Inside(ChildPos(info[n], key[info[n].lev]), info[x])
    requires PartOk(nodes, info, m, x)
    ensures PartOk(nodes', info', m', x)
  {
    var p, q := info[n], info[x];
    if q.lev == p.lev {
      InsideSame(p, q);
      assert false;
    }
    if In(key, q) { InsideFor(p, q, key); assert false; }
    forall c | c in info && Sub(c) in nodes[x].slot ensures c in info' && info'[c] == info[c] && c in nodes' {
      SlotInside(nodes, info, x, c);
      if Inside(ChildPos(p, key[p.lev]), info[c]) {
        ChildIn(p, key);
        SlotIn(p, q, info[c], key);
      }
    }
    NodeFrame(nodes, info, nodes', info', m, x);
    MapFrame(nodes', info', m, m', x);
  }

  lemma SlotInside(nodes: map<nat, TNode>, info: map<nat, Pos>, x: nat, c: nat)
    requires x in info && x in nodes && SlotsFit(nodes, info, x) && c in info && Sub(c) in nodes[x].slot
    requires info[x].lev > 0
    ensures info[c].lev == info[x].lev - 1 && Inside(info[x], info[c])
  {
    var i :| 0 <= i < 16 && nodes[x].slot[i] == Sub(c);
    assert SlotFits(nodes, info, info[x], nodes[x].slot[i], i);
  }

  /** A child below p's child for key has its parent there too. */
  lemma SlotIn(p: Pos, q: Pos, r: Pos, key: Key)
    requires GoodPos(p) && GoodPos(q) && GoodPos(r) && p.lev > q.lev && r.lev == q.lev - 1 && Inside(q, r)
    requires Inside(p, q)
    requires Keyed(SZ, key) && In(key, p) && Inside(ChildPos(p, key[p.lev]), r)
    ensures Inside(ChildPos(p, key[p.lev]), q)
  {
  }

  /** From one state to the next only the node at p and nodes below it are written, and nodes are added only below. */
  ghost predicate Grew(nodes: map<nat, TNode>, info: map<nat, Pos>, nodes': map<nat, TNode>, info': map<nat, Pos>,
                       p: Pos) {
    && (forall x :: x in info ==> x in nodes && x in info' && info'[x] == info[x] && x in nodes')
    && (forall x :: x in info && !Inside(p, info[x]) ==> nodes'[x] == nodes[x])
    && (forall x :: x in info' && x !in info ==> Inside(p, info'[x]) && info'[x].lev < p.lev)
  }

  lemma SlotsKept(nodes: map<nat, TNode>, info: map<nat, Pos>, nodes': map<nat, TNode>, info': map<nat, Pos>, p: Pos,
                  n: nat)
    requires n in nodes && n in info && SlotsFit(nodes, info, n) && Grew(nodes, info, nodes', info', p)
    requires nodes'[n] == nodes[n]
    ensures SlotsFit(nodes', info', n)
  {
    if info[n].lev > 0 {
      forall i | 0 <= i < 16 ensures SlotFits(nodes', info', info[n], nodes'[n].slot[i], i) {
        assert SlotFits(nodes, info, info[n], nodes[n].slot[i], i);
      }
    }
  }

  /** Growth below a child is growth below its parent. */
  lemma GrewUp(nodes: map<nat, TNode>, info: map<nat, Pos>, nodes': map<nat, TNode>, info': map<nat, Pos>, p: Pos,
               q: Pos)
    requires Grew(nodes, info, nodes', info', q) && GoodPos(p) && GoodPos(q) && Inside(p, q)
    requires forall a :: a in info ==> GoodPos(info[a])
    requires forall a :: a in info' ==> GoodPos(info'[a])
    ensures Grew(nodes, info, nodes', info', p)
  {
  }

  /** The nodes below n after its child for key, at c, has grown right for m'. */
  lemma ChildGrew(nodes: map<nat, TNode>, info: map<nat, Pos>, nodes': map<nat, TNode>, info': map<nat, Pos>,
                  tops: set<nat>,
                  m: map<Key, int>, m': map<Key, int>, n: nat, c: nat, key: Key)
    requires n in info && (forall a :: a in info ==> a in nodes && GoodPos(info[a])) && Net(nodes', info', tops)
    requires info[n].lev > 0 && Keyed(SZ, key) && In(key, info[n]) && MapOk(m) && MapOk(m') && key in m'
    requires forall k :: k != key ==> (k in m <==> k in m') && (k in m ==> m[k] == m'[k])
    requires PartsOk(nodes, info, m, n)
    requires n in info' && info'[n] == info[n] && c in info' && info'[c] == ChildPos(info[n], key[info[n].lev])
    requires forall x :: x in info && !Inside(info'[c], info[x]) ==>
               x in info' && info'[x] == info[x] && (x != n ==> nodes'[x] == nodes[x])
    requires forall x :: x in info' && !Inside(info'[c], info'[x]) ==> x in info && info[x] == info'[x]
    requires RegionOk(nodes', info', m', c)
    ensures PartsOk(nodes', info', m', n)
  {
    var p := info[n];
    ChildIn(p, key);
    forall x | x in info' && Inside(info'[c], info'[x]) ensures PartOk(nodes', info', m', x) {
      if x == c { assert In(key, info'[c]); }
    }
    PartsKept(nodes, info, nodes', info', m, m', n, key);
  }

  /** The free child position of a node whose slot is empty. */
  lemma EmptySlot(nodes: map<nat, TNode>, info: map<nat, Pos>, tops: set<nat>, n: nat, i: int)
    requires Net(nodes, info, tops) && n in info && info[n].lev > 0 && 0 <= i < 16 && nodes[n].slot[i] == Empty
    requires forall t :: t in tops && t != n ==> !Inside(info[n], info[t])
    ensures forall x :: x in info ==> !Inside(ChildPos(info[n], i), info[x])
  {
    var q := ChildPos(info[n], i);
    ChildGood(info[n], i);
    forall y | y in info ensures info[y] != q {
      if info[y] == q {
        assert Inside(info[n], info[y]) && y != n;
        assert Hangs(nodes, info, n, y);
        assert Above(info, n, y);
      }
    }
    forall t | t in tops ensures !Inside(q, info[t]) {
    }
    forall x | x in info ensures !Inside(q, info[x]) {
      NoneInside(nodes, info, tops, q, x);
    }
  }

  /** Nodes are added at q and below, and no other is written. */
  ghost predicate Sprouted(nodes: map<nat, TNode>, info: map<nat, Pos>, nodes': map<nat, TNode>, info': map<nat, Pos>,
                           q: Pos) {
    && (forall x :: x in info ==>
        x in nodes && x in info' && info'[x] == info[x] && x in nodes' && nodes'[x] == nodes[x])
    && (forall x :: x in info' && x !in info ==> Inside(q, info'[x]))
  }

  lemma SproutMore(nodes: map<nat, TNode>, info: map<nat, Pos>, nodes1: map<nat, TNode>, info1: map<nat, Pos>,
                   nodes2: map<nat, TNode>, info2: map<nat, Pos>, q: Pos)
    requires Sprouted(nodes, info, nodes1, info1, q) && Grew(nodes1, info1, nodes2, info2, q)
    requires forall x :: x in info ==> !Inside(q, info[x])
    ensures Sprouted(nodes, info, nodes2, info2, q)
  {
  }

  /** The state after a sprout has been linked to n. */
  lemma SproutLinked(nodes: map<nat, TNode>, info: map<nat, Pos>, nodes1: map<nat, TNode>, nodes2: map<nat, TNode>,
                     info': map<nat, Pos>, n: nat, q: Pos)
    requires Sprouted(nodes, info, nodes1, info', q) && n in info && GoodPos(info[n]) && GoodPos(q)
    requires Inside(info[n], q) && q.lev < info[n].lev
    requires forall a :: a in info' ==> GoodPos(info'[a])
    requires forall x :: x in nodes1 <==> x in nodes2
    requires forall x :: x in nodes1 && x != n ==> nodes2[x] == nodes1[x]
    ensures Grew(nodes, info, nodes2, info', info[n])
  {
    forall x | x in info' && x !in info ensures Inside(info[n], info'[x]) && info'[x].lev < info[n].lev {
      InsideTrans(info[n], q, info'[x]);
    }
  }

  /** A slot of n takes a child. */
  lemma SlotSet(nodes: map<nat, TNode>, info: map<nat, Pos>, nodes1: map<nat, TNode>, nodes2: map<nat, TNode>,
                info': map<nat, Pos>, n: nat, i: int, c: nat, q: Pos)
    requires n in nodes && n in info && SlotsFit(nodes, info, n) && info[n].lev > 0 && 0 <= i < 16
    requires nodes[n].slot[i] == Empty
    requires Sprouted(nodes, info, nodes1, info', q) && c in info' && c in nodes1 && info'[c] == ChildPos(info[n], i)
    requires nodes2 == nodes1[n := nodes1[n].(slot := nodes[n].slot[i := Sub(c)], nchildren := nodes[n].nchildren + 1)]
    ensures SlotsFit(nodes2, info', n)
  {
    CountSet(nodes[n].slot, i, Sub(c));
    forall j | 0 <= j < 16 ensures SlotFits(nodes2, info', info[n], nodes2[n].slot[j], j) {
      assert SlotFits(nodes, info, info[n], nodes[n].slot[j], j);
    }
  }

  /** A new node without children is right if it holds key as its only entry, or if nothing is below it. */
  lemma NewInner(nodes: map<nat, TNode>, info: map<nat, Pos>, m: map<Key, int>, c: nat, key: Key)
    requires c in nodes && c in info && MapOk(m) && Keyed(SZ, key) && GoodPos(info[c]) && info[c].lev > 0
    requires In(key, info[c])
    requires forall k :: k in m && In(k, info[c]) ==> k == key
    requires |nodes[c].slot| == 16 && nodes[c].onlyKey == key && nodes[c].nchildren == 0
    requires forall i :: 0 <= i < 16 ==> nodes[c].slot[i] == Empty
    requires if IsZero(key) then key !in m else key in m && m[key] == nodes[c].onlyVal
    ensures NodeOk(nodes, info, m, c)
  {
    CountZero(nodes[c].slot);
    forall i | 0 <= i < 16 ensures SlotFits(nodes, info, info[c], nodes[c].slot[i], i) {}
  }

  /** Nothing lies strictly below a node just added. */
  lemma NewParts(nodes: map<nat, TNode>, nodes': map<nat, TNode>, info: map<nat, Pos>, info': map<nat, Pos>,
                 m: map<Key, int>, c: nat, q: Pos)
    requires Sprouted(nodes, info, nodes', info', q) && (forall a :: a in info' ==> a in nodes') && c in info'
    requires info' == info[c := q]
    requires forall x :: x in info ==> !Inside(q, info[x])
    ensures PartsOk(nodes', info', m, c)
  {
  }

  /** A new node at level 0 holds its one entry in its slot. */
  lemma NewBottom(nodes: map<nat, TNode>, info: map<nat, Pos>, m: map<Key, int>, c: nat, key: Key)
    requires c in nodes && c in info && MapOk(m) && key in m && GoodPos(info[c]) && info[c].lev == 0 && In(key, info[c])
    requires forall k :: k in m && In(k, info[c]) ==> k == key
    requires |nodes[c].slot| == 16 && nodes[c].onlyKey == key && nodes[c].nchildren == Count(nodes[c].slot)
    requires forall i :: 0 <= i < 16 ==> nodes[c].slot[i] == if i == key[0] then Val(m[key]) else Empty
    ensures NodeOk(nodes, info, m, c)
  {
    var p := info[c];
    BottomKey(p, key);
    forall i | 0 <= i < 16 ensures nodes[c].slot[i] == if p.pre[0 := i] in m then Val(m[p.pre[0 := i]]) else Empty {
      BottomKey(p, p.pre[0 := i]);
    }
  }

  /** Writing a node above c leaves the nodes at and below c right. */
  lemma RegionFrame(nodes: map<nat, TNode>, nodes': map<nat, TNode>, info: map<nat, Pos>, m: map<Key, int>, n: nat,
                    c: nat)
    requires c in info && (forall a :: a in info ==> a in nodes && a in nodes') && RegionOk(nodes, info, m, c)
    requires n in info && !Inside(info[c], info[n])
    requires forall x :: x in info && x != n ==> nodes'[x] == nodes[x]
    ensures RegionOk(nodes', info, m, c)
  {
    assert Inside(info[c], info[c]);
    NodeFrame(nodes, info, nodes', info, m, c);
    forall x | x in info && x != c && Inside(info[c], info[x]) ensures PartOk(nodes', info, m, x) {
      assert PartOk(nodes, info, m, x);
      NodeFrame(nodes, info, nodes', info, m, x);
    }
  }

  /** A value is stored in a slot at level 0. */
  lemma BottomSet(nodes: map<nat, TNode>, nodes': map<nat, TNode>, info: map<nat, Pos>, m: map<Key, int>, n: nat,
                  key: Key, value: int)
    requires n in info && n in nodes && n in nodes' && info[n].lev == 0 && MapOk(m) && Keyed(SZ, key)
    requires In(key, info[n]) && value != 0
    requires NodeOk(nodes, info, m, n)
    requires nodes'[n] == nodes[n].(slot := nodes[n].slot[key[0] := Val(value)],
                                    nchildren := nodes[n].nchildren + if nodes[n].slot[key[0]] == Empty then 1 else 0)
    ensures NodeOk(nodes', info, m[key := value], n)
  {
    var p := info[n];
    CountSet(nodes[n].slot, key[0], Val(value));
    BottomKey(p, key);
    var m' := m[key := value];
    forall i | 0 <= i < 16 ensures nodes'[n].slot[i] == if p.pre[0 := i] in m' then Val(m'[p.pre[0 := i]]) else Empty {
      assert p.pre[0 := i][0] == i;
    }
  }

  /** Nothing is strictly below level 0. */
  lemma BottomParts(nodes: map<nat, TNode>, info: map<nat, Pos>, tops: set<nat>, m: map<Key, int>, n: nat)
    requires Net(nodes, info, tops) && n in info && info[n].lev == 0
    ensures PartsOk(nodes, info, m, n)
  {
    forall x | x in info && x != n ensures !Inside(info[n], info[x]) {
      if Inside(info[n], info[x]) { InsideSame(info[n], info[x]); }
    }
  }

  /** What insert_child puts into a new node. */
  predicate FreshNode(nd: TNode, key: Key, value: int, lev: nat) {
    && |key| == 16 && 0 <= key[0] < 16 && |nd.slot| == 16 && nd.onlyKey == key && nd.onlyVal == value
    && nd.nchildren == (if lev == 0 then 1 else 0)
    && (forall i :: 0 <= i < 16 ==> nd.slot[i] == if lev == 0 && i == key[0] then Val(value) else Empty)
  }

  lemma FreshOnly(nd: TNode, key: Key, value: int, lev: nat)
    requires FreshNode(nd, key, value, lev)
    ensures nd.onlyKey == key && nd.onlyVal == value
  {
  }

  lemma FreshCount(nd: TNode, key: Key, value: int, lev: nat)
    requires FreshNode(nd, key, value, lev)
    ensures Count(nd.slot) == nd.nchildren
  {
    if lev == 0 {
      CountSet(nd.slot, key[0], Empty);
      CountZero(nd.slot[key[0] := Empty]);
    } else {
      CountZero(nd.slot);
    }
  }

  /** A new node at a free position: right for m with key stored, or for m without it when key is 0 and there are
      levels below. */
  lemma Sprout(nodes: map<nat, TNode>, nodes': map<nat, TNode>, info: map<nat, Pos>, info': map<nat, Pos>,
               tops: set<nat>, c: nat, q: Pos,
               key: Key, value: int, m: map<Key, int>)
    requires Net(nodes, info, tops) && c !in info && GoodPos(q) && info' == info[c := q]
    requires forall b :: b in info ==> b in nodes' && nodes'[b] == nodes[b]
    requires c in nodes' && FreshNode(nodes'[c], key, value, q.lev)
    requires forall x :: x in info ==> !Inside(q, info[x])
    requires Keyed(SZ, key) && In(key, q) && value != 0 && MapOk(m)
    requires forall k :: k in m && In(k, q) ==> k == key
    requires if q.lev > 0 && IsZero(key) then key !in m else key in m && m[key] == value
    ensures Net(nodes', info', tops + {c}) && Sprouted(nodes, info, nodes', info', q) && RegionOk(nodes', info', m, c)
  {
    hide Inside, In;
    NetAdd(nodes, nodes', info, tops, c, q);
    FreshCount(nodes'[c], key, value, q.lev);
    InsideSelf(q);
    SproutNode(nodes', info', m, c, key, value);
    NewParts(nodes, nodes', info, info', m, c, q);
  }

  lemma InsideSelf(q: Pos)
    ensures Inside(q, q)
  {
  }

  lemma SproutNode(nodes: map<nat, TNode>, info: map<nat, Pos>, m: map<Key, int>, c: nat, key: Key, value: int)
    requires c in nodes && c in info && MapOk(m) && Keyed(SZ, key) && GoodPos(info[c]) && In(key, info[c])
    requires forall k :: k in m && In(k, info[c]) ==> k == key
    requires FreshNode(nodes[c], key, value, info[c].lev)
    requires if info[c].lev > 0 && IsZero(key) then key !in m else key in m && m[key] == value
    ensures NodeOk(nodes, info, m, c)
  {
    FreshCount(nodes[c], key, value, info[c].lev);
    if info[c].lev == 0 {
      NewBottom(nodes, info, m, c, key);
    } else {
      NewInner(nodes, info, m, c, key);
    }
  }

  lemma NetBasics(nodes: map<nat, TNode>, info: map<nat, Pos>, tops: set<nat>)
    requires Net(nodes, info, tops)
    ensures forall a :: a in info ==> a in nodes && GoodPos(info[a]) && |nodes[a].slot| == 16
    ensures forall t :: t in tops ==> t in info
  {
  }

  /** A linked new child completes insert_child. */
  lemma Linked(nodes: map<nat, TNode>, info: map<nat, Pos>, nodes1: map<nat, TNode>, nodes2: map<nat, TNode>,
               info': map<nat, Pos>, tops: set<nat>,
               m: map<Key, int>, m': map<Key, int>, n: nat, c: nat, key: Key)
    requires Net(nodes, info, tops) && n in info && info[n].lev > 0 && Keyed(SZ, key) && In(key, info[n]) && MapOk(m)
    requires MapOk(m') && key in m'
    requires forall k :: k != key ==> (k in m <==> k in m') && (k in m ==> m[k] == m'[k])
    requires PartsOk(nodes, info, m, n) && SlotsFit(nodes, info, n) && nodes[n].slot[key[info[n].lev]] == Empty
    requires c !in info && c in info' && info'[c] == ChildPos(info[n], key[info[n].lev])
    requires Net(nodes1, info', tops + {c}) && Sprouted(nodes, info, nodes1, info', info'[c])
    requires RegionOk(nodes1, info', m', c)
    requires nodes2 == nodes1[n := nodes[n].(slot := nodes[n].slot[key[info[n].lev] := Sub(c)],
                 nchildren := nodes[n].nchildren + 1)]
    ensures Net(nodes2, info', tops) && Grew(nodes, info, nodes2, info', info[n])
    ensures SlotsFit(nodes2, info', n) && PartsOk(nodes2, info', m', n)
  {
    hide RegionOk, PartsOk, NodeOk, SlotsFit;
    var i := key[info[n].lev];
    ChildIn(info[n], key);
    NetLink(nodes1, nodes2, info', tops, n, c, i);
    LinkedParts(nodes, info, nodes1, nodes2, info', tops, m, m', n, c, key);
    SlotSet(nodes, info, nodes1, nodes2, info', n, i, c, info'[c]);
    SproutLinked(nodes, info, nodes1, nodes2, info', n, info'[c]);
  }

  lemma LinkedParts(nodes: map<nat, TNode>, info: map<nat, Pos>, nodes1: map<nat, TNode>, nodes2: map<nat, TNode>,
                    info': map<nat, Pos>, tops: set<nat>,
                    m: map<Key, int>, m': map<Key, int>, n: nat, c: nat, key: Key)
    requires Net(nodes, info, tops) && n in info && info[n].lev > 0 && Keyed(SZ, key) && In(key, info[n]) && MapOk(m)
    requires MapOk(m') && key in m'
    requires forall k :: k != key ==> (k in m <==> k in m') && (k in m ==> m[k] == m'[k])
    requires PartsOk(nodes, info, m, n) && Net(nodes2, info', tops)
    requires c !in info && c in info' && info'[c] == ChildPos(info[n], key[info[n].lev])
    requires Net(nodes1, info', tops + {c}) && Sprouted(nodes, info, nodes1, info', info'[c])
    requires RegionOk(nodes1, info', m', c)
    requires forall x :: x in info' && x != n ==> nodes2[x] == nodes1[x]
    ensures PartsOk(nodes2, info', m', n)
  {
    hide RegionOk, PartsOk, NodeOk;
    RegionFrame(nodes1, nodes2, info', m', n, c);
    ChildGrew(nodes, info, nodes2, info', tops, m, m', n, c, key);
  }

  lemma GrewBasics(nodes: map<nat, TNode>, info: map<nat, Pos>, nodes': map<nat, TNode>, info': map<nat, Pos>, p: Pos)
    requires Grew(nodes, info, nodes', info', p)
    ensures forall x :: x in info ==> x in nodes && x in info' && info'[x] == info[x] && x in nodes'
  {
  }

  lemma SproutBasics(nodes: map<nat, TNode>, info: map<nat, Pos>, nodes': map<nat, TNode>, info': map<nat, Pos>, q: Pos)
    requires Sprouted(nodes, info, nodes', info', q)
    ensures forall x :: x in info ==>
              x in nodes && x in info' && info'[x] == info[x] && x in nodes' && nodes'[x] == nodes[x]
  {
  }

  lemma NewTops(nodes: map<nat, TNode>, info: map<nat, Pos>, was: map<nat, Pos>, tops: set<nat>, c: nat)
    requires Net(nodes, info, tops + {c}) && c in info && info == was[c := info[c]] && c !in was
    requires forall x :: x in was ==> !Inside(info[c], was[x])
    ensures forall t :: t in tops + {c} && t != c ==> !Inside(info[c], info[t])
  {
    assert forall t :: t in tops ==> t in tops + {c};
  }

  /** The child of a node whose parts are right can be inserted into. */
  lemma ChildRegion(nodes: map<nat, TNode>, info: map<nat, Pos>, tops: set<nat>, m: map<Key, int>, n: nat, c: nat)
    requires Net(nodes, info, tops) && n in info && c in info && info[n].lev > 0 && PartsOk(nodes, info, m, n)
    requires info[c].lev == info[n].lev - 1 && Inside(info[n], info[c])
    requires forall t :: t in tops && t != n ==> !Inside(info[n], info[t])
    ensures RegionOk(nodes, info, m, c)
    ensures forall t :: t in tops ==> !Inside(info[c], info[t])
  {
    assert PartOk(nodes, info, m, c);
    forall t | t in tops ensures !Inside(info[c], info[t]) {
      if t != n && Inside(info[c], info[t]) { InsideTrans(info[n], info[c], info[t]); }
    }
    forall x | x in info && x != c && Inside(info[c], info[x]) ensures PartOk(nodes, info, m, x) {
      InsideTrans(info[n], info[c], info[x]);
    }
  }

  /** The child took the key. */
  lemma GrownChild(nodes: map<nat, TNode>, info: map<nat, Pos>, nodes': map<nat, TNode>, info': map<nat, Pos>,
                   tops: set<nat>,
                   m: map<Key, int>, m': map<Key, int>, n: nat, c: nat, key: Key)
    requires Net(nodes, info, tops) && n in info && info[n].lev > 0 && Keyed(SZ, key) && In(key, info[n]) && MapOk(m)
    requires MapOk(m') && key in m'
    requires forall k :: k != key ==> (k in m <==> k in m') && (k in m ==> m[k] == m'[k])
    requires PartsOk(nodes, info, m, n) && SlotsFit(nodes, info, n)
    requires c in info && info[c] == ChildPos(info[n], key[info[n].lev])
    requires Net(nodes', info', tops) && Grew(nodes, info, nodes', info', info[c]) && RegionOk(nodes', info', m', c)
    ensures Grew(nodes, info, nodes', info', info[n]) && nodes'[n] == nodes[n] && info'[n] == info[n]
    ensures SlotsFit(nodes', info', n) && PartsOk(nodes', info', m', n)
  {
    hide RegionOk, PartsOk, NodeOk;
    var p, q := info[n], info[c];
    ChildIn(p, key);
    SlotsKept(nodes, info, nodes', info', q, n);
    ChildGrew(nodes, info, nodes', info', tops, m, m', n, c, key);
    GrewUp(nodes, info, nodes', info', p, q);
  }

  lemma GrewTrans(nodes: map<nat, TNode>, info: map<nat, Pos>, nodes1: map<nat, TNode>, info1: map<nat, Pos>,
                  nodes2: map<nat, TNode>, info2: map<nat, Pos>, p: Pos)
    requires Grew(nodes, info, nodes1, info1, p) && Grew(nodes1, info1, nodes2, info2, p)
    ensures Grew(nodes, info, nodes2, info2, p)
  {
  }

  /** Writing only_key and only_val of n. */
  lemma OnlyWritten(nodes: map<nat, TNode>, nodes': map<nat, TNode>, info: map<nat, Pos>, tops: set<nat>,
                    m: map<Key, int>, n: nat, k: Key, v: int)
    requires Net(nodes, info, tops) && n in info && SlotsFit(nodes, info, n) && PartsOk(nodes, info, m, n)
    requires Keyed(SZ, k)
    requires nodes' == nodes[n := nodes[n].(onlyKey := k, onlyVal := v)]
    ensures Net(nodes', info, tops) && SlotsFit(nodes', info, n) && PartsOk(nodes', info, m, n)
    ensures Grew(nodes, info, nodes', info, info[n])
  {
    NetSame(nodes, nodes', info, tops);
    InsideSelf(info[n]);
    if info[n].lev > 0 {
      forall i | 0 <= i < 16 ensures SlotFits(nodes', info, info[n], nodes'[n].slot[i], i) {
        assert SlotFits(nodes, info, info[n], nodes[n].slot[i], i);
      }
    }
    forall x | x in info && x != n && Inside(info[n], info[x]) ensures PartOk(nodes', info, m, x) {
      assert PartOk(nodes, info, m, x);
      NodeFrame(nodes, info, nodes', info, m, x);
    }
  }

  /** Ready to take key: n represents at most this entry, or has a child for every entry. */
  ghost predicate Roomy(nd: TNode, p: Pos, m: map<Key, int>, key: Key, value: int) {
    && |nd.slot| == 16 && |key| == 16 && 0 < p.lev < 16 && |p.pre| == 16
    && (if IsZero(nd.onlyKey) then WideOk(nd, p, m)
        else && nd.onlyKey == key && nd.onlyVal == value && (forall k :: k in m && In(k, p) ==> k == key)
             && (forall i :: 0 <= i < 16 && i != key[p.lev] ==> nd.slot[i] == Empty))
  }

  lemma RoomyBelow(nd: TNode, p: Pos, m: map<Key, int>, key: Key, value: int)
    requires Roomy(nd, p, m, key, value) && MapOk(m) && Keyed(SZ, key) && In(key, p) && GoodPos(p)
    ensures nd.slot[key[p.lev]] == Empty ==> forall k :: k in m && In(k, ChildPos(p, key[p.lev])) ==> k == key
  {
    forall k | k in m && In(k, ChildPos(p, key[p.lev])) ensures In(k, p) && k[p.lev] == key[p.lev] {
    }
  }

  /** With its child in place, n is right for the map with key stored. */
  lemma RoomyDone(nd: TNode, nodes: map<nat, TNode>, info: map<nat, Pos>, m: map<Key, int>, n: nat, key: Key,
                  value: int)
    requires n in info && n in nodes && SlotsFit(nodes, info, n) && Keyed(SZ, key) && In(key, info[n]) && MapOk(m)
    requires Roomy(nd, info[n], m, key, value) && nodes[n].slot[key[info[n].lev]] != Empty
    requires nodes[n].onlyKey == nd.onlyKey && nodes[n].onlyVal == nd.onlyVal
    requires forall i :: 0 <= i < 16 && i != key[info[n].lev] ==> nodes[n].slot[i] == nd.slot[i]
    ensures NodeOk(nodes, info, m[key := value], n)
  {
  }

  /** Once the only entry has its child, only_key can be cleared. */
  lemma Materialised(nodes: map<nat, TNode>, info: map<nat, Pos>, nodes': map<nat, TNode>, info': map<nat, Pos>,
                     m: map<Key, int>, n: nat)
    requires n in info && n in nodes && NodeOk(nodes, info, m, n) && info[n].lev > 0 && MapOk(m)
    requires !IsZero(nodes[n].onlyKey)
    requires n in info' && n in nodes' && info'[n] == info[n] && SlotsFit(nodes', info', n) && IsZero(nodes'[n].onlyKey)
    requires nodes'[n].slot[nodes[n].onlyKey[info[n].lev]] != Empty
    ensures WideOk(nodes'[n], info[n], m)
  {
  }

  lemma Region(nodes: map<nat, TNode>, info: map<nat, Pos>, m: map<Key, int>, n: nat)
    requires n in info && (forall a :: a in info ==> a in nodes) && RegionOk(nodes, info, m, n)
    ensures NodeOk(nodes, info, m, n) && PartsOk(nodes, info, m, n) && SlotsFit(nodes, info, n)
    ensures Keyed(SZ, nodes[n].onlyKey)
  {
  }

  lemma RegionBack(nodes: map<nat, TNode>, info: map<nat, Pos>, m: map<Key, int>, n: nat)
    requires n in info && (forall a :: a in info ==> a in nodes) && NodeOk(nodes, info, m, n)
    requires PartsOk(nodes, info, m, n)
    ensures RegionOk(nodes, info, m, n)
  {
  }

  lemma InsertBottom(nodes: map<nat, TNode>, nodes': map<nat, TNode>, info: map<nat, Pos>, tops: set<nat>,
                     m: map<Key, int>, n: nat, key: Key, value: int)
    requires Net(nodes, info, tops) && n in info && info[n].lev == 0 && MapOk(m) && Keyed(SZ, key) && In(key, info[n])
    requires value != 0
    requires NodeOk(nodes, info, m, n)
    requires nodes' == nodes[n := nodes[n].(slot := nodes[n].slot[key[0] := Val(value)],
                                            nchildren := nodes[n].nchildren + if nodes[n].slot[key[0]] == Empty then 1
                                              else 0)]
    ensures Net(nodes', info, tops) && RegionOk(nodes', info, m[key := value], n)
    ensures Grew(nodes, info, nodes', info, info[n])
  {
    NetSame(nodes, nodes', info, tops);
    BottomParts(nodes', info, tops, m[key := value], n);
    BottomSet(nodes, nodes', info, m, n, key, value);
    InsideSelf(info[n]);
  }

  lemma GrewRefl(nodes: map<nat, TNode>, info: map<nat, Pos>, p: Pos)
    requires forall a :: a in info ==> a in nodes
    ensures Grew(nodes, info, nodes, info, p)
  {
  }

  lemma OnlyEntry(nodes: map<nat, TNode>, info: map<nat, Pos>, m: map<Key, int>, n: nat)
    requires n in info && n in nodes && NodeOk(nodes, info, m, n) && info[n].lev > 0 && MapOk(m)
    requires !IsZero(nodes[n].onlyKey)
    ensures nodes[n].onlyKey in m && m[nodes[n].onlyKey] == nodes[n].onlyVal && In(nodes[n].onlyKey, info[n])
    ensures forall k :: k in m && In(k, info[n]) ==> k == nodes[n].onlyKey
    ensures forall k :: k in m && In(k, ChildPos(info[n], nodes[n].onlyKey[info[n].lev])) ==> k == nodes[n].onlyKey
  {
    forall k | k in m && In(k, ChildPos(info[n], nodes[n].onlyKey[info[n].lev])) ensures In(k, info[n]) {}
  }

  // ---------------------------------------------------------------------------------------
  // Removal

  /** From one state to the next only the node at p and nodes below it are written, and nodes are dropped only below. */
  ghost predicate Shrunk(nodes: map<nat, TNode>, info: map<nat, Pos>, nodes': map<nat, TNode>, info': map<nat, Pos>,
                         p: Pos) {
    && (forall x :: x in info' ==> x in info && info'[x] == info[x] && x in nodes && x in nodes')
    && (forall x :: x in info && (!Inside(p, info[x]) || info[x] == p) ==> x in info')
    && (forall x :: x in info && !Inside(p, info[x]) ==> x in nodes && x in nodes' && nodes'[x] == nodes[x])
  }

  /** The root before the first insert: only_key is a sentinel, not an entry. */
  ghost predicate Blank(nodes: map<nat, TNode>, info: map<nat, Pos>, m: map<Key, int>, n: nat)
    requires n in nodes && n in info
  {
    && SlotsFit(nodes, info, n) && info[n].lev > 0 && !IsZero(nodes[n].onlyKey) && nodes[n].onlyVal == 0
    && (forall i :: 0 <= i < 16 ==> nodes[n].slot[i] == Empty)
    && !Occupied(m, info[n])
  }

  ghost predicate NodeOrBlank(nodes: map<nat, TNode>, info: map<nat, Pos>, m: map<Key, int>, n: nat)
    requires n in nodes && n in info
  {
    NodeOk(nodes, info, m, n) || Blank(nodes, info, m, n)
  }

  /** Above level 0 a node whose only_key is not the removed key needs no change of its own. */
  lemma NodeForgets(nodes: map<nat, TNode>, info: map<nat, Pos>, m: map<Key, int>, n: nat, key: Key)
    requires n in nodes && n in info && NodeOrBlank(nodes, info, m, n) && info[n].lev > 0 && MapOk(m)
    requires nodes[n].onlyKey != key || IsZero(key)
    ensures NodeOrBlank(nodes, info, m - {key}, n)
  {
    if NodeOk(nodes, info, m, n) {
      assert NodeOk(nodes, info, m - {key}, n);
    } else {
      assert !Occupied(m - {key}, info[n]);
    }
  }

  /** The removed key was the only entry. */
  lemma NodeCleared(nodes: map<nat, TNode>, nodes': map<nat, TNode>, info: map<nat, Pos>, m: map<Key, int>, n: nat,
                    key: Key, z: Key)
    requires n in nodes && n in info && NodeOrBlank(nodes, info, m, n) && info[n].lev > 0 && MapOk(m)
    requires nodes[n].onlyKey == key && !IsZero(key) && Keyed(SZ, z) && IsZero(z)
    requires nodes' == nodes[n := nodes[n].(onlyKey := z)] && SlotsFit(nodes', info, n)
    ensures NodeOk(nodes', info, m - {key}, n)
    ensures nodes[n].onlyVal == (if key in m && In(key, info[n]) then m[key] else 0)
  {
    if Blank(nodes, info, m, n) {
      assert !Occupied(m, info[n]);
    }
  }

  /** The nodes below n when its child for key is right for m without key. */
  lemma ChildShrunk(nodes: map<nat, TNode>, info: map<nat, Pos>, nodes': map<nat, TNode>, info': map<nat, Pos>,
                    tops: set<nat>,
                    m: map<Key, int>, n: nat, c: nat, key: Key)
    requires Net(nodes, info, tops) && Net(nodes', info', tops) && n in info && n in info' && c in info
    requires info[n].lev > 0 && Keyed(SZ, key) && In(key, info[n]) && MapOk(m)
    requires PartsOk(nodes, info, m, n) && SlotsFit(nodes, info, n) && nodes[n].slot[key[info[n].lev]] == Sub(c)
    requires Shrunk(nodes, info, nodes', info', info[c]) && c in info' && RegionOk(nodes', info', m - {key}, c)
    requires Occupied(m - {key}, info[c])
    ensures PartsOk(nodes', info', m - {key}, n)
  {
    var p := info[n];
    ChildIn(p, key);
    assert SlotFits(nodes, info, p, nodes[n].slot[key[p.lev]], key[p.lev]);
    forall x | x in info' && Inside(info[c], info'[x]) ensures PartOk(nodes', info', m - {key}, x) {
    }
    PartsKept(nodes, info, nodes', info', m, m - {key}, n, key);
  }

  /** The nodes below n when there is none at or below its child position for key. */
  lemma ChildAbsent(nodes: map<nat, TNode>, info: map<nat, Pos>, nodes': map<nat, TNode>, info': map<nat, Pos>,
                    tops: set<nat>,
                    m: map<Key, int>, n: nat, key: Key)
    requires Net(nodes, info, tops) && Net(nodes', info', tops) && n in info && n in info' && info'[n] == info[n]
    requires info[n].lev > 0 && Keyed(SZ, key) && In(key, info[n]) && MapOk(m)
    requires PartsOk(nodes, info, m, n)
    requires forall x :: x in info && !Inside(ChildPos(info[n], key[info[n].lev]), info[x]) ==>
               x in info' && info'[x] == info[x] && (x != n ==> nodes'[x] == nodes[x])
    requires forall x :: x in info' ==>
               x in info && info[x] == info'[x] && !Inside(ChildPos(info[n], key[info[n].lev]), info'[x])
    ensures PartsOk(nodes', info', m - {key}, n)
  {
    PartsKept(nodes, info, nodes', info', m, m - {key}, n, key);
  }

  /** A node that represents nothing has no children and no only entry, and nothing is below it. */
  lemma Emptied(nodes: map<nat, TNode>, info: map<nat, Pos>, m: map<Key, int>, c: nat)
    requires c in info && (forall a :: a in info ==> a in nodes && GoodPos(info[a])) && RegionOk(nodes, info, m, c)
    requires !Occupied(m, info[c]) && MapOk(m)
    ensures IsZero(nodes[c].onlyKey) && |nodes[c].onlyKey| == 16 && nodes[c].nchildren == 0
    ensures forall i :: 0 <= i < 16 ==> nodes[c].slot[i] == Empty
    ensures forall x :: x in info && x != c ==> !Inside(info[c], info[x])
  {
    forall x | x in info && x != c ensures !Inside(info[c], info[x]) {
      if Inside(info[c], info[x]) {
        assert PartOk(nodes, info, m, x);
        OccupiedUp(m, info[c], info[x]);
      }
    }
    var p := info[c];
    forall i | 0 <= i < 16 ensures nodes[c].slot[i] == Empty {
      if p.lev == 0 {
        BottomKey(p, p.pre[0 := i]);
        var k := p.pre[0 := i];
        assert In(k, p) && (k in m ==> Occupied(m, p));
      } else {
        ChildGood(p, i);
        assert SlotFits(nodes, info, p, nodes[c].slot[i], i);
      }
    }
    CountZero(nodes[c].slot);
  }

  lemma OccupiedUp(m: map<Key, int>, p: Pos, q: Pos)
    requires Occupied(m, q) && GoodPos(p) && GoodPos(q) && Inside(p, q)
    ensures Occupied(m, p)
  {
    var k :| k in m && In(k, q);
    assert In(k, p);
  }

  /** The net without a leaf of it. */
  lemma NetCut(nodes: map<nat, TNode>, nodes': map<nat, TNode>, info: map<nat, Pos>, tops: set<nat>, n: nat, c: nat,
               i: int)
    requires Net(nodes, info, tops) && n in info && c in info && c !in tops && info[n].lev > 0 && 0 <= i < 16
    requires info[c] == ChildPos(info[n], i)
    requires forall x :: x in info && x != c ==> !Inside(info[c], info[x])
    requires n in nodes' && nodes'[n].slot == nodes[n].slot[i := Empty]
    requires forall b :: b in info && b != n && b != c ==> b in nodes' && nodes'[b] == nodes[b]
    ensures Net(nodes', info - {c}, tops)
  {
    var info' := info - {c};
    forall a, b | a in info' && b in info' && a !in tops ensures Hangs(nodes', info', b, a) {
      assert Hangs(nodes, info, b, a);
      assert !Inside(info[c], info[a]);
      assert b == n && Above(info, n, a) ==> info[a].pre[info[n].lev] != i;
    }
    forall a | a in info' && a !in tops ensures HasParent(info', a) {
      assert HasParent(info, a);
      var b :| Above(info, b, a);
      assert !Inside(info[c], info[a]);
      assert Above(info', b, a);
    }
  }

  /** Whether n is left empty can be read off its counter and only_key. */
  lemma LeftEmpty(nodes: map<nat, TNode>, info: map<nat, Pos>, m: map<Key, int>, n: nat)
    requires n in info && (forall a :: a in info ==> a in nodes && GoodPos(info[a])) && RegionOk(nodes, info, m, n)
    requires MapOk(m) && info[n].lev > 0
    ensures nodes[n].nchildren == 0 && IsZero(nodes[n].onlyKey) <==> !Occupied(m, info[n])
  {
    if !Occupied(m, info[n]) {
      Emptied(nodes, info, m, n);
    } else {
      CountZero(nodes[n].slot);
      var k :| k in m && In(k, info[n]);
    }
  }

  /** A slot at level 0 is cleared, and only_key with it if it was this key. */
  lemma BottomCut(nodes: map<nat, TNode>, nodes': map<nat, TNode>, info: map<nat, Pos>, tops: set<nat>,
                  m: map<Key, int>, n: nat, key: Key, z: Key)
    requires Net(nodes, info, tops) && n in info && info[n].lev == 0 && MapOk(m) && Keyed(SZ, key) && In(key, info[n])
    requires NodeOk(nodes, info, m, n) && Keyed(SZ, z) && IsZero(z) && nodes[n].slot[key[0]] != Empty
    requires n in nodes'
    requires nodes' == nodes[n := nodes[n].(slot := nodes[n].slot[key[0] := Empty], nchildren := nodes'[n].nchildren,
                 onlyKey := nodes'[n].onlyKey)]
    requires nodes'[n].nchildren == nodes[n].nchildren - 1
    requires nodes'[n].onlyKey == if nodes[n].onlyKey == key && !IsZero(key) then z else nodes[n].onlyKey
    ensures Net(nodes', info, tops) && RegionOk(nodes', info, m - {key}, n)
    ensures Shrunk(nodes, info, nodes', info, info[n])
    ensures key in m && nodes[n].slot[key[0]] == Val(m[key])
    ensures nodes'[n].nchildren == 0 && IsZero(nodes'[n].onlyKey) <==> !Occupied(m - {key}, info[n])
  {
    var p, m' := info[n], m - {key};
    NetSame(nodes, nodes', info, tops);
    BottomParts(nodes', info, tops, m', n);
    CountSet(nodes[n].slot, key[0], Empty);
    BottomKey(p, key);
    InsideSelf(p);
    forall i | 0 <= i < 16 ensures nodes'[n].slot[i] == if p.pre[0 := i] in m' then Val(m'[p.pre[0 := i]]) else Empty {
      assert p.pre[0 := i][0] == i;
    }
    BottomCount(nodes'[n], p, m');
  }

  lemma BottomCount(nd: TNode, p: Pos, m: map<Key, int>)
    requires GoodPos(p) && p.lev == 0 && |nd.slot| == 16 && nd.nchildren == Count(nd.slot) && MapOk(m)
    requires BottomOk(nd, p, m)
    ensures nd.nchildren == 0 <==> !Occupied(m, p)
    ensures !Occupied(m, p) ==> IsZero(nd.onlyKey)
  {
    CountZero(nd.slot);
    if Occupied(m, p) {
      var k :| k in m && In(k, p);
      BottomKey(p, k);
      assert nd.slot[k[0]] != Empty;
    } else {
      forall i | 0 <= i < 16 ensures nd.slot[i] == Empty {
        BottomKey(p, p.pre[0 := i]);
        var k := p.pre[0 := i];
        assert In(k, p) && (k in m ==> Occupied(m, p));
      }
    }
  }

  /** The key is not there. */
  lemma BottomMiss(nodes: map<nat, TNode>, info: map<nat, Pos>, tops: set<nat>, m: map<Key, int>, n: nat, key: Key)
    requires Net(nodes, info, tops) && n in info && info[n].lev == 0 && MapOk(m) && Keyed(SZ, key) && In(key, info[n])
    requires NodeOk(nodes, info, m, n) && nodes[n].slot[key[0]] == Empty
    ensures nodes[n].onlyKey != key || IsZero(key)
    ensures key !in m && RegionOk(nodes, info, m - {key}, n) && m - {key} == m
  {
    BottomKey(info[n], key);
    assert m - {key} == m;
    BottomParts(nodes, info, tops, m, n);
  }

  lemma ShrunkRefl(nodes: map<nat, TNode>, info: map<nat, Pos>, p: Pos)
    requires forall a :: a in info ==> a in nodes
    ensures Shrunk(nodes, info, nodes, info, p)
  {
  }

  /** Dropping below a child is dropping below its parent. */
  lemma ShrunkUp(nodes: map<nat, TNode>, info: map<nat, Pos>, nodes1: map<nat, TNode>, nodes': map<nat, TNode>,
                 info': map<nat, Pos>, n: nat, q: Pos)
    requires n in info && n in nodes && (forall x :: x in info ==> GoodPos(info[x]) && x in nodes1)
    requires forall x :: x in info && x != n ==> x in nodes && nodes1[x] == nodes[x]
    requires forall a, b {:trigger info[a], info[b]} :: a in info && b in info && info[a] == info[b] ==> a == b
    requires Shrunk(nodes1, info, nodes', info', q) && GoodPos(q) && Inside(info[n], q) && q.lev < info[n].lev
    ensures Shrunk(nodes, info, nodes', info', info[n]) && n in info' && nodes'[n] == nodes1[n]
  {
    forall x | x in info && !Inside(info[n], info[x]) ensures !Inside(q, info[x]) {
      if Inside(q, info[x]) { InsideTrans(info[n], q, info[x]); }
    }
  }

  /** A write of n first does not show. */
  lemma ShrunkFrom(nodes: map<nat, TNode>, nodes1: map<nat, TNode>, info: map<nat, Pos>, nodes': map<nat, TNode>,
                   info': map<nat, Pos>, n: nat)
    requires n in info && Shrunk(nodes1, info, nodes', info', info[n])
    requires forall x :: x in info ==> x in nodes
    requires forall x :: x in info && x != n ==> x in nodes1 && nodes1[x] == nodes[x]
    ensures Shrunk(nodes, info, nodes', info', info[n])
  {
    InsideSelf(info[n]);
  }

  lemma ShrunkBasics(nodes: map<nat, TNode>, info: map<nat, Pos>, nodes': map<nat, TNode>, info': map<nat, Pos>, p: Pos)
    requires Shrunk(nodes, info, nodes', info', p)
    ensures forall x :: x in info' ==> x in info && info'[x] == info[x] && x in nodes && x in nodes'
    ensures forall x :: x in info && info[x] == p ==> x in info'
  {
  }

  /** The parent of a node below which nodes were dropped keeps its fields and its children. */
  lemma ParentKept(nodes: map<nat, TNode>, info: map<nat, Pos>, nodes': map<nat, TNode>, info': map<nat, Pos>,
                   tops: set<nat>,
                   m: map<Key, int>, n: nat, c: nat, i: int)
    requires Net(nodes, info, tops) && n in info && c in info && info[n].lev > 0 && 0 <= i < 16
    requires info[c] == ChildPos(info[n], i)
    requires Shrunk(nodes, info, nodes', info', info[c]) && NodeOrBlank(nodes, info, m, n)
    ensures n in info' && n in nodes' && nodes'[n] == nodes[n] && info'[n] == info[n] && c in info' && c in nodes'
    ensures info'[c] == info[c]
    ensures NodeOrBlank(nodes', info', m, n) && (NodeOk(nodes, info, m, n) ==> NodeOk(nodes', info', m, n))
    ensures Shrunk(nodes, info, nodes', info', info[n])
  {
    ChildGood(info[n], i);
    ShrunkUp(nodes, info, nodes, nodes', info', n, info[c]);
    forall d | d in info && Sub(d) in nodes[n].slot ensures d in info' && info'[d] == info[d] && d in nodes' {
      SlotInside(nodes, info, n, d);
      if Inside(info[c], info[d]) { InsideSame(info[c], info[d]); }
    }
    forall i | 0 <= i < 16 ensures SlotFits(nodes', info', info[n], nodes[n].slot[i], i) {
      assert SlotFits(nodes, info, info[n], nodes[n].slot[i], i);
      assert nodes[n].slot[i].Sub? ==> nodes[n].slot[i] in nodes[n].slot;
    }
  }

  /** The emptied child of n is unlinked. */
  lemma ChildCut(nodes: map<nat, TNode>, info: map<nat, Pos>, nodes': map<nat, TNode>, info': map<nat, Pos>,
                 tops: set<nat>, m: map<Key, int>, n: nat, c: nat, i: int)
    requires n in info && n in nodes && c in info && NodeOrBlank(nodes, info, m, n) && info[n].lev > 0 && 0 <= i < 16
    requires MapOk(m)
    requires info[c] == ChildPos(info[n], i) && nodes[n].slot[i] == Sub(c) && !Occupied(m, info[c]) && c != n
    requires info' == info - {c} && (forall x :: x in info' ==> x in nodes')
    requires Net(nodes, info, tops)
    requires nodes'[n] == nodes[n].(slot := nodes[n].slot[i := Empty], nchildren := nodes'[n].nchildren)
    requires nodes'[n].nchildren == Count(nodes'[n].slot)
    ensures NodeOk(nodes', info', m, n) && IsZero(nodes'[n].onlyKey)
  {
    var p := info[n];
    forall j | 0 <= j < 16 ensures SlotFits(nodes', info', p, nodes'[n].slot[j], j) {
      assert SlotFits(nodes, info, p, nodes[n].slot[j], j);
      assert p.pre[p.lev := j][p.lev] == j && p.pre[p.lev := i][p.lev] == i;
    }
    forall k | k in m && In(k, p) ensures k[p.lev] != i {
      ChildIn(p, k);
      assert !In(k, info[c]);
    }
  }

  /** After unlinking, the nodes below n. */
  lemma CutParts(nodes: map<nat, TNode>, info: map<nat, Pos>, nodes1: map<nat, TNode>, info1: map<nat, Pos>,
                 nodes': map<nat, TNode>, info': map<nat, Pos>, tops: set<nat>,
                 m: map<Key, int>, n: nat, c: nat, key: Key)
    requires Net(nodes, info, tops) && Net(nodes1, info1, tops) && Net(nodes', info', tops) && n in info && c in info
    requires c != n
    requires info[n].lev > 0 && Keyed(SZ, key) && In(key, info[n]) && MapOk(m) && PartsOk(nodes, info, m, n)
    requires info[c] == ChildPos(info[n], key[info[n].lev]) && Shrunk(nodes, info, nodes1, info1, info[c])
    requires forall x :: x in info1 && x != c ==> !Inside(info[c], info1[x])
    requires info' == info1 - {c} && forall x :: x in info' && x != n ==> nodes'[x] == nodes1[x]
    ensures n in info' && PartsOk(nodes', info', m - {key}, n) && Shrunk(nodes, info, nodes', info', info[n])
  {
    hide PartsOk;
    var p := info[n];
    ChildGood(p, key[p.lev]);
    ShrunkUp(nodes, info, nodes, nodes1, info1, n, info[c]);
    InsideSelf(info[c]);
    ChildAbsent(nodes, info, nodes', info', tops, m, n, key);
    CutShrunk(nodes, info, nodes1, info1, nodes', info', n, c);
  }

  lemma CutShrunk(nodes: map<nat, TNode>, info: map<nat, Pos>, nodes1: map<nat, TNode>, info1: map<nat, Pos>,
                  nodes': map<nat, TNode>, info': map<nat, Pos>, n: nat, c: nat)
    requires n in info && c in info && n != c && Inside(info[n], info[c]) && info[c] != info[n]
    requires Shrunk(nodes, info, nodes1, info1, info[n]) && info' == info1 - {c}
    requires forall x :: x in info' ==> x in nodes' && (x != n ==> nodes'[x] == nodes1[x])
    ensures Shrunk(nodes, info, nodes', info', info[n])
  {
    InsideSelf(info[n]);
  }

  lemma BottomVal(nodes: map<nat, TNode>, info: map<nat, Pos>, m: map<Key, int>, n: nat, key: Key)
    requires n in nodes && n in info && info[n].lev == 0 && NodeOk(nodes, info, m, n) && Keyed(SZ, key)
    requires nodes[n].slot[key[0]] != Empty
    ensures nodes[n].slot[key[0]].Val? && nodes[n].nchildren > 0
  {
    CountSet(nodes[n].slot, key[0], Empty);
  }

  /** After the start of nremove, above level 0. */
  lemma OnlyTaken(nodes: map<nat, TNode>, nodes': map<nat, TNode>, info: map<nat, Pos>, tops: set<nat>,
                  m: map<Key, int>, n: nat, key: Key, z: Key)
    requires Net(nodes, info, tops) && n in info && NodeOrBlank(nodes, info, m, n) && PartsOk(nodes, info, m, n)
    requires info[n].lev > 0 && MapOk(m)
    requires Keyed(SZ, key) && In(key, info[n]) && Keyed(SZ, z) && IsZero(z)
    requires nodes' == if nodes[n].onlyKey == key && !IsZero(key) then nodes[n := nodes[n].(onlyKey := z)] else nodes
    ensures Net(nodes', info, tops) && PartsOk(nodes', info, m, n) && NodeOrBlank(nodes', info, m - {key}, n)
    ensures Occupied(m, info[n]) || NodeOk(nodes, info, m, n) ==> NodeOk(nodes', info, m - {key}, n)
    ensures nodes[n].onlyKey == key && !IsZero(key) ==> nodes[n].onlyVal == if key in m then m[key] else 0
    ensures |nodes[n].slot| == 16
    ensures (nodes[n].slot[key[info[n].lev]] == Empty && key in m ==> nodes[n].onlyKey == key && !IsZero(key))
    ensures !IsZero(nodes'[n].onlyKey) ==> nodes' == nodes
  {
    if nodes[n].onlyKey == key && !IsZero(key) {
      OnlyWritten(nodes, nodes', info, tops, m, n, z, nodes[n].onlyVal);
      NodeCleared(nodes, nodes', info, m, n, key, z);
    } else {
      NodeForgets(nodes, info, m, n, key);
      if NodeOk(nodes, info, m, n) { assert NodeOk(nodes', info, m - {key}, n); }
    }
    assert NodeOk(nodes, info, m, n) || !Occupied(m, info[n]);
  }

  /** The child that nremove descends to, if there is one. */
  lemma BelowSlot(nodes: map<nat, TNode>, info: map<nat, Pos>, tops: set<nat>, m: map<Key, int>, m': map<Key, int>,
                  n: nat, i: int)
    requires Net(nodes, info, tops) && n in info && info[n].lev > 0 && PartsOk(nodes, info, m, n) && 0 <= i < 16
    requires NodeOrBlank(nodes, info, m', n)
    requires forall t :: t in tops && t != n ==> !Inside(info[n], info[t])
    ensures nodes[n].slot[i] != Empty ==>
              var c := nodes[n].slot[i];
              && c.Sub? && c.id in info && c.id in nodes && c.id != n && info[c.id] == ChildPos(info[n], i)
              && NodeOrBlank(nodes, info, m, c.id) && NodeOk(nodes, info, m, c.id) && PartsOk(nodes, info, m, c.id)
              && Occupied(m, info[c.id])
              && (forall t :: t in tops ==> !Inside(info[c.id], info[t])) && c.id !in tops
  {
    assert SlotFits(nodes, info, info[n], nodes[n].slot[i], i);
    if nodes[n].slot[i] != Empty {
      var c := nodes[n].slot[i].id;
      ChildGood(info[n], i);
      assert PartOk(nodes, info, m, c);
      ChildRegion(nodes, info, tops, m, n, c);
      InsideSelf(info[c]);
    }
  }

  lemma SlotCounted(nodes: map<nat, TNode>, info: map<nat, Pos>, m: map<Key, int>, n: nat)
    requires n in info && n in nodes && NodeOrBlank(nodes, info, m, n)
    ensures nodes[n].nchildren == Count(nodes[n].slot)
  {
  }

  /** The child is still occupied. */
  lemma ChildStays(nodes: map<nat, TNode>, info: map<nat, Pos>, nodes': map<nat, TNode>, info': map<nat, Pos>,
                   tops: set<nat>,
                   m: map<Key, int>, n: nat, c: nat, key: Key)
    requires Net(nodes, info, tops) && Net(nodes', info', tops) && n in info && n in info' && c in info
    requires info[n].lev > 0 && Keyed(SZ, key) && In(key, info[n]) && MapOk(m) && NodeOrBlank(nodes, info, m - {key}, n)
    requires PartsOk(nodes, info, m, n) && nodes[n].slot[key[info[n].lev]] == Sub(c)
    requires Shrunk(nodes, info, nodes', info', info[c]) && c in info' && NodeOk(nodes', info', m - {key}, c)
    requires PartsOk(nodes', info', m - {key}, c)
    requires Occupied(m - {key}, info[c])
    ensures PartsOk(nodes', info', m - {key}, n) && Occupied(m - {key}, info[n])
  {
    ChildShrunk(nodes, info, nodes', info', tops, m, n, c, key);
    assert SlotFits(nodes, info, info[n], nodes[n].slot[key[info[n].lev]], key[info[n].lev]);
    ChildIn(info[n], key);
    OccupiedUp(m - {key}, info[n], info[c]);
  }

  lemma NowEmpty(nodes: map<nat, TNode>, info: map<nat, Pos>, m: map<Key, int>, n: nat)
    requires n in info && (forall a :: a in info ==> a in nodes && GoodPos(info[a])) && PartsOk(nodes, info, m, n)
    requires NodeOrBlank(nodes, info, m, n)
    requires MapOk(m) && info[n].lev > 0
    ensures NodeOk(nodes, info, m, n) ==>
              (nodes[n].nchildren == 0 && IsZero(nodes[n].onlyKey) <==> !Occupied(m, info[n]))
    ensures NodeOk(nodes, info, m, n) ==> NodeOrBlank(nodes, info, m, n)
  {
    if NodeOk(nodes, info, m, n) {
      LeftEmpty(nodes, info, m, n);
    }
  }

  lemma NotBlank(nodes: map<nat, TNode>, info: map<nat, Pos>, m: map<Key, int>, n: nat)
    requires n in nodes && n in info && info[n].lev == 0
    ensures NodeOrBlank(nodes, info, m, n) <==> NodeOk(nodes, info, m, n)
  {
  }

  // ---------------------------------------------------------------------------------------
  // The whole tree

  function Root(): (p: Pos)
    ensures GoodPos(p) && p.lev == 15
    ensures forall k :: Keyed(SZ, k) ==> In(k, p)
  {
    var z: Key := seq(16, _ => 0);
    assert z == Masked(z, 15);
    Pos(15, z)
  }

  /** Before the first insert the root is blank; after it, an only entry at the root has its child. */
  ghost predicate RootOk(nodes: map<nat, TNode>, info: map<nat, Pos>, m: map<Key, int>)
    requires 0 in nodes && 0 in info && info[0].lev < 16
  {
    var nd := nodes[0];
    || (Blank(nodes, info, m, 0) && IsTop(nd.onlyKey))
    || (NodeOk(nodes, info, m, 0) && (!IsZero(nd.onlyKey) ==> nd.slot[nd.onlyKey[info[0].lev]] != Empty))
  }

  /** The tree represents m. */
  ghost predicate Whole(nodes: map<nat, TNode>, info: map<nat, Pos>, m: map<Key, int>) {
    && Net(nodes, info, {0}) && 0 in info && info[0] == Root() && MapOk(m)
    && RootOk(nodes, info, m) && PartsOk(nodes, info, m, 0)
  }

  lemma AllInRoot(q: Pos)
    requires GoodPos(q)
    ensures Inside(Root(), q)
  {
  }

  /** The condition that tcradix_insert tests holds exactly before the first insert. */
  lemma BlankTest(nodes: map<nat, TNode>, info: map<nat, Pos>, m: map<Key, int>)
    requires Whole(nodes, info, m)
    ensures IsTop(nodes[0].onlyKey) && nodes[0].nchildren == 0 <==> Blank(nodes, info, m, 0) && IsTop(nodes[0].onlyKey)
    ensures Blank(nodes, info, m, 0) ==> m == map[]
    ensures !(Blank(nodes, info, m, 0) && IsTop(nodes[0].onlyKey)) ==> RegionOk(nodes, info, m, 0)
  {
    CountZero(nodes[0].slot);
    if Blank(nodes, info, m, 0) {
      assert forall k :: k in m ==> In(k, Root());
      assert forall k :: k !in m;
    } else {
      var k := nodes[0].onlyKey;
      assert IsTop(k) ==> k[0] == 15 && !IsZero(k);
      assert IsTop(k) ==> nodes[0].slot[k[15]] != Empty;
    }
  }

  /** The first insert: the root holds the entry as its only one, or is an empty wide node if the key is 0. */
  lemma FirstInsert(nodes: map<nat, TNode>, nodes': map<nat, TNode>, info: map<nat, Pos>, m: map<Key, int>, key: Key,
                    value: int)
    requires Whole(nodes, info, m) && Blank(nodes, info, m, 0) && m == map[] && Keyed(SZ, key) && value != 0
    requires nodes' == nodes[0 := nodes[0].(onlyKey := key, onlyVal := value)]
    ensures Net(nodes', info, {0})
    ensures RegionOk(nodes', info, if IsZero(key) then map[] else map[key := value], 0)
  {
    OnlyWritten(nodes, nodes', info, {0}, m, 0, key, value);
    forall x | x in info && x != 0 ensures !Inside(info[0], info[x]) {
      assert !PartOk(nodes, info, m, x);
    }
    assert In(key, Root());
    CountZero(nodes[0].slot);
  }

  lemma InsertDone(nodes: map<nat, TNode>, info: map<nat, Pos>, m: map<Key, int>, key: Key)
    requires Net(nodes, info, {0}) && 0 in info && info[0] == Root() && MapOk(m) && RegionOk(nodes, info, m, 0)
    requires key in m && nodes[0].slot[key[15]] != Empty
    ensures Whole(nodes, info, m)
  {
    assert In(key, Root());
  }
}
