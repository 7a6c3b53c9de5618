/** What a walk down the tree of tcradix.c finds. */
module TcLook {
  import opened Digits
  import opened TcTree

  /** The value of key in m, 0 standing for NULL. */
  function ValueOf(m: map<Key, int>, key: Key): int {
    if key in m then m[key] else 0
  }

  /** The GETL steps from node n at level lev downwards. */
  function Look(nodes: map<nat, TNode>, n: nat, lev: nat, key: Key): int
    decreases lev
  {
    if n !in nodes || |nodes[n].slot| != 16 || lev >= |key| || !(0 <= key[lev] < 16) then 0
    else if lev > 0 && !IsZero(nodes[n].onlyKey) then (if nodes[n].onlyKey == key then nodes[n].onlyVal else 0)
    else match nodes[n].slot[key[lev]]
      case Empty => 0
      case Val(v) => if lev == 0 then v else 0
      case Sub(c) => if lev == 0 then 0 else Look(nodes, c, lev - 1, key)
  }

  lemma NodeAt(nodes: map<nat, TNode>, info: map<nat, Pos>, m: map<Key, int>, n: nat)
    requires Whole(nodes, info, m) && n in info
    ensures NodeOrBlank(nodes, info, m, n)
    ensures n != 0 ==> PartOk(nodes, info, m, n)
    ensures Blank(nodes, info, m, n) && !NodeOk(nodes, info, m, n) ==> n == 0 && m == map[]
  {
    AllInRoot(info[n]);
    if n != 0 { assert PartOk(nodes, info, m, n); }
    BlankTest(nodes, info, m);
  }

  /** One GETL step at a linked node, for a key below it. */
  lemma WalkStep(nodes: map<nat, TNode>, info: map<nat, Pos>, m: map<Key, int>, n: nat, key: Key)
    requires Whole(nodes, info, m) && n in info && Keyed(SZ, key) && In(key, info[n])
    ensures |nodes[n].slot| == 16 && info[n].lev < 16
    ensures info[n].lev > 0 && !IsZero(nodes[n].onlyKey) ==>
              ValueOf(m, key) == if nodes[n].onlyKey == key then nodes[n].onlyVal else 0
    ensures !(info[n].lev > 0 && !IsZero(nodes[n].onlyKey)) ==>
              match nodes[n].slot[key[info[n].lev]]
              case Empty => key !in m
              case Val(v) => info[n].lev == 0 && key in m && v == m[key]
              case Sub(c) => info[n].lev > 0 && c in info && c in nodes && info[c].lev == info[n].lev - 1 && In(key,
                  info[c])
  {
    NodeAt(nodes, info, m, n);
    var p := info[n];
    if p.lev > 0 {
      ChildIn(p, key);
      assert SlotFits(nodes, info, p, nodes[n].slot[key[p.lev]], key[p.lev]);
    } else {
      BottomKey(p, key);
    }
  }

  /** A walk from any linked node finds the map's value for every key below that node. */
  lemma {:induction false} LookRight(nodes: map<nat, TNode>, info: map<nat, Pos>, m: map<Key, int>, n: nat, key: Key)
    requires Whole(nodes, info, m) && n in info && Keyed(SZ, key) && In(key, info[n])
    ensures Look(nodes, n, info[n].lev, key) == ValueOf(m, key)
    decreases if n in info then info[n].lev else 0
  {
    hide Whole, In;
    Linked0(nodes, info, m, n);
    WalkStep(nodes, info, m, n, key);
    var lev := info[n].lev;
    if lev == 0 || IsZero(nodes[n].onlyKey) {
      match nodes[n].slot[key[lev]]
      case Sub(c) => LookRight(nodes, info, m, c, key);
      case _ =>
    }
  }

  lemma Linked0(nodes: map<nat, TNode>, info: map<nat, Pos>, m: map<Key, int>, n: nat)
    requires Whole(nodes, info, m) && n in info
    ensures n in nodes
  {
  }

  /** The node itself: its only entry is in the map and it has at most one child, in that key's slot. */
  lemma CacheNode(nodes: map<nat, TNode>, info: map<nat, Pos>, m: map<Key, int>, n: nat)
    requires Whole(nodes, info, m) && n in info && info[n].lev > 0 && !IsZero(nodes[n].onlyKey)
    requires n == 0 ==> !Blank(nodes, info, m, 0)
    ensures n in nodes && Keyed(SZ, nodes[n].onlyKey) && |nodes[n].slot| == 16 && info[n].lev < 16
    ensures NodeOk(nodes, info, m, n) && OnlyOk(nodes[n], info[n], m) && nodes[n].nchildren <= 1
    ensures nodes[n].onlyVal != 0
    ensures var nd, p := nodes[n], info[n];
            && (forall i :: 0 <= i < 16 && nd.slot[i] != Empty ==> i == nd.onlyKey[p.lev] && nd.slot[i].Sub?)
            && (nd.nchildren == 1 ==> nd.slot[nd.onlyKey[p.lev]] != Empty)
  {
    hide RootOk;
    NodeAt(nodes, info, m, n);
    var nd, i := nodes[n], nodes[n].onlyKey[info[n].lev];
    CountSet(nd.slot, i, Empty);
    CountZero(nd.slot[i := Empty]);
    assert SlotFits(nodes, info, info[n], nd.slot[i], i);
  }

  /** What a walk from any linked node below p finds for a key there, if onlyKey is the only entry below p. */
  lemma CacheWalk(nodes: map<nat, TNode>, info: map<nat, Pos>, m: map<Key, int>, x: nat, p: Pos, onlyKey: Key, k: Key)
    requires Whole(nodes, info, m) && x in info && Keyed(SZ, k) && In(k, info[x]) && In(k, p)
    requires onlyKey in m && forall k' :: k' in m && In(k', p) ==> k' == onlyKey
    ensures Look(nodes, x, info[x].lev, k) == if k == onlyKey then m[onlyKey] else 0
  {
    hide Whole;
    LookRight(nodes, info, m, x, k);
  }

  /** A non-zero only_key above level 0 is exactly what the node represents; there is at most one child, in that
      key's slot, and it represents the same entry. */
  lemma CacheAgreement(nodes: map<nat, TNode>, info: map<nat, Pos>, m: map<Key, int>, n: nat)
    requires Whole(nodes, info, m) && n in info && info[n].lev > 0 && !IsZero(nodes[n].onlyKey)
    requires n == 0 ==> !Blank(nodes, info, m, 0)
    ensures var nd, p := nodes[n], info[n];
            && nd.onlyKey in m && nd.onlyVal == m[nd.onlyKey] != 0 && nd.nchildren <= 1
            && (forall k :: Keyed(SZ, k) && In(k, p) ==>
                Look(nodes, n, p.lev, k) == if k == nd.onlyKey then nd.onlyVal else 0)
            && (forall i :: 0 <= i < 16 && nd.slot[i] != Empty ==> i == nd.onlyKey[p.lev] && nd.slot[i].Sub?)
            && (forall k :: nd.nchildren == 1 && Keyed(SZ, k) && In(k, ChildPos(p, nd.onlyKey[p.lev])) ==>
                  var c := nd.slot[nd.onlyKey[p.lev]];
                  c.Sub? && Look(nodes, c.id, p.lev - 1, k) == if k == nd.onlyKey then nd.onlyVal else 0)
  {
    hide Whole, NodeOk, Look;
    CacheNode(nodes, info, m, n);
    var nd, p := nodes[n], info[n];
    var i := nd.onlyKey[p.lev];
    forall k | Keyed(SZ, k) && In(k, p)
      ensures Look(nodes, n, p.lev, k) == if k == nd.onlyKey then nd.onlyVal else 0
    {
      CacheWalk(nodes, info, m, n, p, nd.onlyKey, k);
    }
    if nd.slot[i] != Empty {
      CacheSlot(nodes, info, m, n, i);
      forall k | Keyed(SZ, k) && In(k, ChildPos(p, i))
        ensures Look(nodes, nd.slot[i].id, p.lev - 1, k) == if k == nd.onlyKey then nd.onlyVal else 0
      {
        assert In(k, p);
        CacheWalk(nodes, info, m, nd.slot[i].id, p, nd.onlyKey, k);
      }
    }
  }

  lemma CacheSlot(nodes: map<nat, TNode>, info: map<nat, Pos>, m: map<Key, int>, n: nat, i: int)
    requires Whole(nodes, info, m) && n in info && n in nodes && NodeOk(nodes, info, m, n) && info[n].lev > 0
    requires 0 <= i < 16 && nodes[n].slot[i].Sub?
    ensures nodes[n].slot[i].id in info && info[nodes[n].slot[i].id] == ChildPos(info[n], i)
    ensures MapOk(m)
  {
    assert SlotFits(nodes, info, info[n], nodes[n].slot[i], i);
  }

  /** Counters are exact, and every node but the root represents something and is not empty. */
  lemma Bookkeeping(nodes: map<nat, TNode>, info: map<nat, Pos>, m: map<Key, int>, n: nat)
    requires Whole(nodes, info, m) && n in info
    ensures nodes[n].nchildren == Count(nodes[n].slot)
    ensures n != 0 ==>
              Occupied(m, info[n]) && (nodes[n].nchildren > 0 || (info[n].lev > 0 && !IsZero(nodes[n].onlyKey)))
  {
    NodeAt(nodes, info, m, n);
    if n != 0 {
      var k :| k in m && In(k, info[n]);
      CountZero(nodes[n].slot);
      if info[n].lev == 0 {
        BottomKey(info[n], k);
        assert nodes[n].slot[k[0]] != Empty;
      }
    }
  }

  lemma AllKeys(nodes: map<nat, TNode>, info: map<nat, Pos>, m: map<Key, int>, key: Key)
    requires Whole(nodes, info, m) && Keyed(SZ, key)
    ensures 0 in info && 0 in nodes && info[0].lev == 15 && In(key, info[0])
  {
  }

  // ---------------------------------------------------------------------------------------
  // Teardown

  /** What teardown relies on at a node. */
  ghost predicate Shaped(nodes: map<nat, TNode>, info: map<nat, Pos>, x: nat) {
    && x in nodes && x in info && SlotsFit(nodes, info, x)
    && (info[x].lev > 0 && !IsZero(nodes[x].onlyKey) ==>
        forall i :: 0 <= i < 16 && i != nodes[x].onlyKey[info[x].lev] ==> nodes[x].slot[i] == Empty)
  }

  lemma ShapedBasics(nodes: map<nat, TNode>, info: map<nat, Pos>, x: nat)
    requires Shaped(nodes, info, x)
    ensures |nodes[x].slot| == 16 && Keyed(SZ, nodes[x].onlyKey)
  {
  }

  lemma ShapedAll(nodes: map<nat, TNode>, info: map<nat, Pos>, m: map<Key, int>, x: nat)
    requires Whole(nodes, info, m) && x in info
    ensures Shaped(nodes, info, x)
  {
    NodeAt(nodes, info, m, x);
  }

  /** x is below one of the first i slots of the node at p. */
  predicate Torn(info: map<nat, Pos>, p: Pos, x: nat, i: int)
    requires x in info
  {
    Inside(p, info[x]) && info[x].lev < p.lev < |info[x].pre| && info[x].pre[p.lev] < i
  }

  lemma TornNext(info: map<nat, Pos>, p: Pos, i: int)
    requires GoodPos(p) && p.lev > 0 && 0 <= i < 16 && forall x :: x in info ==> GoodPos(info[x])
    ensures forall x :: x in info ==>
              (Torn(info, p, x, i + 1) <==> Torn(info, p, x, i) || Inside(ChildPos(p, i), info[x]))
    ensures forall x :: x in info && Inside(ChildPos(p, i), info[x]) ==>
              !Torn(info, p, x, i) && Inside(p, info[x]) && info[x] != p
  {
    ChildGood(p, i);
  }

  lemma TornNone(info: map<nat, Pos>, p: Pos)
    requires forall x :: x in info ==> GoodPos(info[x])
    ensures forall x :: x in info ==> !Torn(info, p, x, 0)
  {
  }

  lemma TornAll(nodes: map<nat, TNode>, info: map<nat, Pos>, tops: set<nat>, n: nat)
    requires Net(nodes, info, tops) && n in info
    ensures forall x :: x in info ==> (Inside(info[n], info[x]) <==> x == n || Torn(info, info[n], x, 16))
  {
    InsideSelf(info[n]);
    forall x | x in info && Inside(info[n], info[x]) && info[x].lev == info[n].lev ensures x == n {
      InsideSame(info[n], info[x]);
    }
  }

  lemma TornBottom(nodes: map<nat, TNode>, info: map<nat, Pos>, tops: set<nat>, n: nat)
    requires Net(nodes, info, tops) && n in info && info[n].lev == 0
    ensures forall x :: x in info ==> (Inside(info[n], info[x]) <==> x == n)
  {
    TornAll(nodes, info, tops, n);
  }

  /** One slot is enough at a compressed node. */
  lemma TornOnly(nodes: map<nat, TNode>, info: map<nat, Pos>, tops: set<nat>, n: nat)
    requires Net(nodes, info, tops) && n in info && info[n].lev > 0 && Shaped(nodes, info, n)
    requires !IsZero(nodes[n].onlyKey)
    requires forall t :: t in tops && t != n ==> !Inside(info[n], info[t])
    ensures var q := ChildPos(info[n], nodes[n].onlyKey[info[n].lev]);
            forall x :: x in info ==> (Inside(info[n], info[x]) <==> x == n || Inside(q, info[x]))
  {
    TornAll(nodes, info, tops, n);
    var p := info[n];
    var i := nodes[n].onlyKey[p.lev];
    ChildGood(p, i);
    forall x | x in info && Torn(info, p, x, 16) ensures Inside(ChildPos(p, i), info[x]) {
      InsideChild(p, info[x]);
      var j := info[x].pre[p.lev];
      if j != i { EmptySlot(nodes, info, tops, n, j); }
    }
  }

  /** The child to tear down with its own subtree, or none. */
  lemma TearReady(nodes: map<nat, TNode>, info: map<nat, Pos>, tops: set<nat>, n: nat, i: int)
    requires Net(nodes, info, tops) && n in info && info[n].lev > 0 && Shaped(nodes, info, n) && 0 <= i < 16
    requires forall t :: t in tops && t != n ==> !Inside(info[n], info[t])
    ensures nodes[n].slot[i] == Empty ==> forall x :: x in info ==> !Inside(ChildPos(info[n], i), info[x])
    ensures nodes[n].slot[i] != Empty ==>
              nodes[n].slot[i].Sub? && nodes[n].slot[i].id in info && info[nodes[n].slot[i].id] == ChildPos(info[n], i)
    ensures nodes[n].slot[i] != Empty ==> forall t :: t in tops ==> !Inside(ChildPos(info[n], i), info[t])
  {
    assert SlotFits(nodes, info, info[n], nodes[n].slot[i], i);
    if nodes[n].slot[i] == Empty {
      EmptySlot(nodes, info, tops, n, i);
    } else {
      ChildGood(info[n], i);
      forall t | t in tops ensures !Inside(ChildPos(info[n], i), info[t]) {
        if t != n && Inside(ChildPos(info[n], i), info[t]) { InsideTrans(info[n], ChildPos(info[n], i), info[t]); }
      }
    }
  }
}
