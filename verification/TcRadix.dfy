/** tcradix.c, in one thread and with allocation that does not fail. */
module TcRadix {
  import opened Digits
  import opened TcTree
  import opened TcLook
  import TcSeqlock

  /** A zeroed node. */
  predicate Clean(nd: TNode) {
    |nd.slot| == 16 && (forall i :: 0 <= i < 16 ==> nd.slot[i] == Empty)
    && |nd.onlyKey| == 16 && IsZero(nd.onlyKey) && nd.onlyVal == 0 && nd.nchildren == 0
  }

  /** Element i of the free list is zeroed but for its link in slot 0. */
  ghost predicate PoolLink(nodes: map<nat, TNode>, pool: seq<nat>, i: int)
    requires 0 <= i < |pool|
  {
    && pool[i] in nodes && |nodes[pool[i]].slot| == 16
    && nodes[pool[i]].slot[0] == (if i + 1 < |pool| then Sub(pool[i + 1]) else Empty)
    && Clean(nodes[pool[i]].(slot := nodes[pool[i]].slot[0 := Empty]))
  }

  /** The free list, and that every node is linked, pooled or in hand, and only one of these. */
  ghost predicate PoolOk(nodes: map<nat, TNode>, deleted: Cell, info: map<nat, Pos>, pool: seq<nat>, hand: set<nat>) {
    && deleted == (if pool == [] then Empty else Sub(pool[0]))
    && (forall i {:trigger PoolLink(nodes, pool, i)} :: 0 <= i < |pool| ==> PoolLink(nodes, pool, i))
    && (forall i, j :: 0 <= i < j < |pool| ==> pool[i] != pool[j])
    && (forall x :: x in nodes <==> x in info || x in pool || x in hand)
    && (forall x :: x in pool ==> x !in info && x !in hand)
    && (forall x :: x in hand ==> x !in info)
  }

  lemma {:induction false} SomeBound(s: set<nat>) returns (b: nat)
    ensures forall x :: x in s ==> x < b
  {
    if s == {} {
      b := 0;
    } else {
      var x :| x in s;
      var c := SomeBound(s - {x});
      b := if c <= x then x + 1 else c;
      forall y | y in s ensures y < b {
        if y != x { assert y in s - {x}; }
      }
    }
  }

  /** A linked node is written. */
  lemma Written(nodes: map<nat, TNode>, nodes': map<nat, TNode>, deleted: Cell, info: map<nat, Pos>, pool: seq<nat>,
                n: nat)
    requires PoolOk(nodes, deleted, info, pool, {}) && n in info
    requires forall x :: x in nodes <==> x in nodes'
    requires forall x :: x in nodes && x != n ==> nodes'[x] == nodes[x]
    ensures PoolOk(nodes', deleted, info, pool, {})
  {
    forall i | 0 <= i < |pool| ensures PoolLink(nodes', pool, i) { assert PoolLink(nodes, pool, i); }
  }

  /** The node in hand is written. */
  lemma HandWritten(nodes: map<nat, TNode>, nodes': map<nat, TNode>, deleted: Cell, info: map<nat, Pos>, pool: seq<nat>,
                    c: nat)
    requires PoolOk(nodes, deleted, info, pool, {c})
    requires forall x :: x in nodes <==> x in nodes'
    requires forall x :: x in nodes && x != c ==> nodes'[x] == nodes[x]
    ensures PoolOk(nodes', deleted, info, pool, {c})
  {
    forall i | 0 <= i < |pool| ensures PoolLink(nodes', pool, i) { assert PoolLink(nodes, pool, i); }
  }

  /** The node in hand gets a position. */
  lemma Adopted(nodes: map<nat, TNode>, nodes': map<nat, TNode>, deleted: Cell, info: map<nat, Pos>,
                info': map<nat, Pos>, pool: seq<nat>, c: nat)
    requires PoolOk(nodes, deleted, info, pool, {c})
    requires forall x :: x in nodes <==> x in nodes'
    requires forall x :: x in nodes && x != c ==> nodes'[x] == nodes[x]
    requires forall x :: x in info' <==> x in info || x == c
    ensures PoolOk(nodes', deleted, info', pool, {})
  {
    forall i | 0 <= i < |pool| ensures PoolLink(nodes', pool, i) { assert PoolLink(nodes, pool, i); }
  }

  /** An unlinked empty child heads the free list. */
  lemma Pushed(nodes: map<nat, TNode>, nodes': map<nat, TNode>, deleted: Cell, info: map<nat, Pos>, pool: seq<nat>,
               n: nat, c: nat)
    requires PoolOk(nodes, deleted, info, pool, {}) && n in info && c in info && c != n
    requires forall x :: x in nodes <==> x in nodes'
    requires forall x :: x in nodes && x != n && x != c ==> nodes'[x] == nodes[x]
    requires c in nodes' && |nodes'[c].slot| == 16 && nodes'[c].slot[0] == deleted
    requires Clean(nodes'[c].(slot := nodes'[c].slot[0 := Empty]))
    ensures PoolOk(nodes', Sub(c), info - {c}, [c] + pool, {})
  {
    var pool' := [c] + pool;
    assert PoolLink(nodes', pool', 0);
    forall i | 0 < i < |pool'| ensures PoolLink(nodes', pool', i) {
      assert pool'[i] == pool[i - 1] && PoolLink(nodes, pool, i - 1);
    }
  }

  class TcRadix {
    /** Node 0 is the root, which is part of `struct tcrhead`. */
    var nodes: map<nat, TNode>
    var deleted: Cell
    /** write_status: odd while a writer is at work. */
    var status: nat
    ghost var info: map<nat, Pos>
    ghost var pool: seq<nat>
    /** The map that the tree represents. */
    ghost var m: map<Key, int>
    /** The run of the seqlock system so far. */
    ghost var acts: seq<TcSeqlock.Action>

    ghost predicate Stocked(hand: set<nat>)
      reads this
    {
      PoolOk(nodes, deleted, info, pool, hand)
    }

    /** The fields are those of the run's last state. */
    ghost predicate Follows()
      reads this
    {
      TcSeqlock.Run(acts).nodes == nodes && TcSeqlock.Run(acts).status == status
    }

    /** Inside a writer's section. */
    ghost predicate Writing()
      reads this
    {
      Follows() && status % 2 == 1
    }

    /** Since `was`, the run has only stored into nodes. */
    ghost predicate Stored(was: seq<TcSeqlock.Action>)
      reads this
    {
      TcSeqlock.Run(acts) == TcSeqlock.Run(was).(nodes := nodes)
    }

    /** Since `was`, the run has gone through one section of the writer, which ended with the map m. */
    ghost predicate Section(was: seq<TcSeqlock.Action>)
      reads this
    {
      var s := TcSeqlock.Run(was);
      TcSeqlock.Run(acts) == s.(nodes := nodes, status := s.status + 2, info := info, maps := s.maps + [m])
    }

    /** A store into a node is a step of the seqlock system. */
    method Store(id: nat, nd: TNode)
      requires Writing()
      modifies this`nodes, this`acts
      ensures nodes == old(nodes)[id := nd] && Writing() && Stored(old(acts))
    {
      nodes := nodes[id := nd];
      TcSeqlock.Then(acts, TcSeqlock.StoreNode(id, nd));
      acts := acts + [TcSeqlock.StoreNode(id, nd)];
    }

    /** write_poke on entry. */
    method Enter()
      requires Follows() && status % 2 == 0
      modifies this`status, this`acts
      ensures status == old(status) + 1 && Writing()
      ensures TcSeqlock.Run(acts) == TcSeqlock.Run(old(acts)).(status := status)
    {
      hide TcSeqlock.Run, Whole;
      status := status + 1;
      TcSeqlock.Then(acts, TcSeqlock.Enter);
      acts := acts + [TcSeqlock.Enter];
    }

    /** write_poke on leaving: the tree represents the map with op applied. */
    method Leave(ghost op: TcSeqlock.Op)
      requires Writing() && TcSeqlock.Run(acts).maps != []
      requires Whole(nodes, info, TcSeqlock.Apply(TcSeqlock.Last(TcSeqlock.Run(acts)), op))
      modifies this`status, this`acts
      ensures status == old(status) + 1 && Follows()
      ensures var s, s' := TcSeqlock.Run(old(acts)), TcSeqlock.Run(acts);
              s' == s.(status := status, info := info, maps := s.maps + [TcSeqlock.Apply(TcSeqlock.Last(s), op)])
    {
      hide Whole;
      status := status + 1;
      TcSeqlock.Then(acts, TcSeqlock.Leave(op, info));
      acts := acts + [TcSeqlock.Leave(op, info)];
    }

    /** alloc_node: from the pool, else zeroed memory. */
    method AllocNode() returns (id: nat)
      requires Writing() && Stocked({})
      modifies this`nodes, this`deleted, this`pool, this`acts
      ensures Writing() && Stored(old(acts))
      ensures Stocked({id}) && id in nodes && Clean(nodes[id])
      ensures forall x :: x in old(nodes) && x != id ==> x in nodes && nodes[x] == old(nodes)[x]
      ensures forall x :: x in nodes ==> x in old(nodes) || x == id
      ensures id !in info
      ensures old(deleted).Sub? ==> id == old(deleted).id && nodes.Keys == old(nodes).Keys
      ensures !old(deleted).Sub? ==> id !in old(nodes)
    {
      hide TcSeqlock.Run;
      if deleted.Sub? {
        var n := deleted.id;
        assert PoolLink(nodes, pool, 0);
        deleted := nodes[n].slot[0];
        Store(n, nodes[n].(slot := nodes[n].slot[0 := Empty]));
        ghost var p := pool;
        pool := pool[1..];
        forall i | 0 <= i < |pool| ensures PoolLink(nodes, pool, i) { assert PoolLink(old(nodes), p, i + 1); }
        assert p == [n] + pool;
        id := n;
      } else {
        ghost var b := SomeBound(nodes.Keys);
        assert b !in nodes;
        id :| id !in nodes;
        Store(id, TNode(seq(16, _ => Empty), seq(16, _ => 0), 0, 0));
      }
    }

    /** A node from alloc_node with the first stores of insert_child. */
    method FilledNode(lev: nat, key: Key, value: int) returns (c: nat)
      requires Writing() && Stocked({}) && lev > 0 && Keyed(SZ, key)
      modifies this`nodes, this`deleted, this`pool, this`acts
      ensures Writing() && Stored(old(acts))
      ensures Stocked({c}) && c in nodes && c !in info && FreshNode(nodes[c], key, value, lev - 1)
      ensures forall x :: x in info && x in old(nodes) ==> x in nodes && nodes[x] == old(nodes)[x]
    {
      hide PoolOk, PoolLink, TcSeqlock.Run;
      c := AllocNode();
      ghost var nodes1 := nodes;
      Store(c, nodes[c].(onlyKey := key));
      Store(c, nodes[c].(onlyVal := value));
      Store(c, nodes[c].(nchildren := if lev == 1 then 1 else 0));
      if lev == 1 {
        Store(c, nodes[c].(slot := nodes[c].slot[key[0] := Val(value)]));
      }
      HandWritten(nodes1, nodes, deleted, info, pool, c);
    }

    /** The new child of insert_child, filled but not linked. It is compressed, with no node below it, unless its key
        is 0. */
    method NewChild(lev: nat, key: Key, value: int, ghost q: Pos, ghost m: map<Key, int>,
                    ghost tops: set<nat>) returns (c: nat)
      requires Writing() && Stocked({}) && Net(nodes, info, tops)
      requires lev > 0 && GoodPos(q) && q.lev == lev - 1 && Keyed(SZ, key) && In(key, q) && value != 0 && MapOk(m)
      requires forall x :: x in info ==> !Inside(q, info[x])
      requires forall k :: k in m && In(k, q) ==> k == key
      modifies this`nodes, this`deleted, this`info, this`pool, this`acts
      decreases lev, 0
      ensures Writing() && Stored(old(acts))
      ensures Stocked({}) && Net(nodes, info, tops + {c}) && Sprouted(old(nodes), old(info), nodes, info, q)
      ensures c !in old(info) && c in info && info[c] == q && RegionOk(nodes, info, m[key := value], c)
      ensures !(lev > 1 && IsZero(key)) ==>
                info == old(info)[c := q] && c in nodes && nodes[c].onlyKey == key && nodes[c].onlyVal == value
    {
      hide RegionOk, Net, PoolOk, Inside, Sprouted, Grew, PoolLink, FreshNode, TcSeqlock.Run;
      NetBasics(nodes, info, tops);
      c := FilledNode(lev, key, value);
      FreshOnly(nodes[c], key, value, lev - 1);
      ghost var nodes1 := nodes;
      info := info[c := q];
      Adopted(nodes1, nodes, deleted, old(info), info, pool, c);
      ghost var zero := lev > 1 && IsZero(key);
      ghost var m1 := if zero then m - {key} else m[key := value];
      Sprout(old(nodes), nodes, old(info), info, tops, c, q, key, value, m1);
      if lev > 1 && IsZero(key) {
        ghost var nodes2, info2 := nodes, info;
        NewTops(nodes, info, old(info), tops, c);
        InsertAt(c, lev - 1, key, value, m1, tops + {c});
        assert m1[key := value] == m[key := value];
        SproutMore(old(nodes), old(info), nodes2, info2, nodes, info, q);
        GrewBasics(nodes2, info2, nodes, info, q);
      }
    }

    /** insert_child: the child for key takes it, or a new child does. */
    method InsertChild(n: nat, lev: nat, key: Key, value: int, ghost m: map<Key, int>, ghost tops: set<nat>)
      requires Writing() && Stocked({}) && Net(nodes, info, tops)
      requires n in info && info[n].lev == lev && lev > 0 && Keyed(SZ, key) && In(key, info[n]) && value != 0
      requires MapOk(m)
      requires SlotsFit(nodes, info, n) && PartsOk(nodes, info, m, n)
      requires forall t :: t in tops && t != n ==> !Inside(info[n], info[t])
      requires nodes[n].slot[key[lev]] == Empty ==>
                 forall k :: k in m && In(k, ChildPos(info[n], key[lev])) ==> k == key
      modifies this`nodes, this`deleted, this`info, this`pool, this`acts
      decreases lev, 1
      ensures Writing() && Stored(old(acts))
      ensures Stocked({}) && Net(nodes, info, tops) && Grew(old(nodes), old(info), nodes, info, old(info[n]))
      ensures SlotsFit(nodes, info, n) && PartsOk(nodes, info, m[key := value], n)
      ensures nodes[n].slot[key[lev]] != Empty
      ensures forall i :: 0 <= i < 16 && i != key[lev] ==> nodes[n].slot[i] == old(nodes[n].slot[i])
      ensures nodes[n].onlyKey == old(nodes[n].onlyKey) && nodes[n].onlyVal == old(nodes[n].onlyVal)
    {
      hide RegionOk, Net, PoolOk, Inside, Sprouted, Grew, PoolLink, In, NodeOk, TcSeqlock.Run;
      NetBasics(nodes, info, tops);
      ghost var p := info[n];
      ghost var q := ChildPos(p, key[lev]);
      ghost var m' := m[key := value];
      ChildIn(p, key);
      assert SlotFits(nodes, info, p, nodes[n].slot[key[lev]], key[lev]);
      if nodes[n].slot[key[lev]] != Empty {
        var c := nodes[n].slot[key[lev]].id;
        ChildRegion(nodes, info, tops, m, n, c);
        InsertAt(c, lev - 1, key, value, m, tops);
        GrownChild(old(nodes), old(info), nodes, info, tops, m, m', n, c, key);
        return;
      }
      EmptySlot(nodes, info, tops, n, key[lev]);
      var c := NewChild(lev, key, value, q, m, tops);
      SproutBasics(old(nodes), old(info), nodes, info, q);
      ghost var nodes1 := nodes;
      Store(n, nodes[n].(slot := nodes[n].slot[key[lev] := Sub(c)]));
      Store(n, nodes[n].(nchildren := nodes[n].nchildren + 1));
      Linked(old(nodes), old(info), nodes1, nodes, info, tops, m, m', n, c, key);
      Written(nodes1, nodes, deleted, info, pool, n);
    }

    /** insert: at level 0 into the slot, above it into a child, after materialising another only entry. */
    method InsertAt(n: nat, lev: nat, key: Key, value: int, ghost m: map<Key, int>, ghost tops: set<nat>)
      requires Writing() && Stocked({}) && Net(nodes, info, tops)
      requires n in info && info[n].lev == lev && Keyed(SZ, key) && In(key, info[n]) && value != 0 && MapOk(m)
      requires RegionOk(nodes, info, m, n)
      requires forall t :: t in tops && t != n ==> !Inside(info[n], info[t])
      modifies this`nodes, this`deleted, this`info, this`pool, this`acts
      decreases lev, 3
      ensures Writing() && Stored(old(acts))
      ensures Stocked({}) && Net(nodes, info, tops) && Grew(old(nodes), old(info), nodes, info, old(info[n]))
      ensures RegionOk(nodes, info, m[key := value], n)
      ensures lev > 0 ==> nodes[n].slot[key[lev]] != Empty
    {
      hide RegionOk, Net, PoolOk, Inside, Grew, PoolLink, In, Occupied, SlotsFit, PartsOk, TcSeqlock.Run;
      NetBasics(nodes, info, tops);
      Region(nodes, info, m, n);
      ghost var p := info[n];
      if lev == 0 {
        if nodes[n].slot[key[0]] == Empty {
          Store(n, nodes[n].(nchildren := nodes[n].nchildren + 1));
        }
        Store(n, nodes[n].(slot := nodes[n].slot[key[0] := Val(value)]));
        InsertBottom(old(nodes), nodes, info, tops, m, n, key, value);
        Written(old(nodes), nodes, deleted, info, pool, n);
        return;
      }
      MakeRoom(n, lev, key, value, m, tops);
      NetBasics(nodes, info, tops);
      ghost var nd, nodes1, info1 := nodes[n], nodes, info;
      RoomyBelow(nd, p, m, key, value);
      InsertChild(n, lev, key, value, m, tops);
      GrewTrans(old(nodes), old(info), nodes1, info1, nodes, info, p);
      GrewBasics(nodes1, info1, nodes, info, p);
      NetBasics(nodes, info, tops);
      RoomyDone(nd, nodes, info, m, n, key, value);
      RegionBack(nodes, info, m[key := value], n);
    }

    /** insert before it descends: the only entry is updated, or gets a child of its own. */
    method MakeRoom(n: nat, lev: nat, key: Key, value: int, ghost m: map<Key, int>, ghost tops: set<nat>)
      requires Writing() && Stocked({}) && Net(nodes, info, tops)
      requires n in info && info[n].lev == lev && lev > 0 && Keyed(SZ, key) && In(key, info[n]) && value != 0
      requires MapOk(m)
      requires RegionOk(nodes, info, m, n)
      requires forall t :: t in tops && t != n ==> !Inside(info[n], info[t])
      modifies this`nodes, this`deleted, this`info, this`pool, this`acts
      decreases lev, 2
      ensures Writing() && Stored(old(acts))
      ensures Stocked({}) && Net(nodes, info, tops) && Grew(old(nodes), old(info), nodes, info, old(info[n]))
      ensures n in info && info[n] == old(info[n]) && SlotsFit(nodes, info, n) && PartsOk(nodes, info, m, n)
      ensures Roomy(nodes[n], info[n], m, key, value)
      ensures !IsZero(key) && old(nodes[n].onlyKey) == key ==> nodes[n] == old(nodes[n]).(onlyVal := value)
      ensures !IsZero(key) && old(nodes[n].onlyKey) == key ==> info == old(info)
      ensures forall t :: t in tops && t != n ==> !Inside(info[n], info[t])
    {
      hide RegionOk, Net, PoolOk, Inside, Grew, PoolLink, In, Occupied, SlotsFit, PartsOk, TcSeqlock.Run;
      NetBasics(nodes, info, tops);
      Region(nodes, info, m, n);
      ghost var p := info[n];
      if IsZero(nodes[n].onlyKey) {
        GrewRefl(nodes, info, p);
        return;
      }
      OnlyEntry(nodes, info, m, n);
      if nodes[n].onlyKey == key {
        Store(n, nodes[n].(onlyVal := value));
        OnlyWritten(old(nodes), nodes, info, tops, m, n, key, value);
        Written(old(nodes), nodes, deleted, info, pool, n);
      } else {
        var k, v := nodes[n].onlyKey, nodes[n].onlyVal;
        InsertChild(n, lev, k, v, m, tops);
        assert m[k := v] == m;
        GrewBasics(old(nodes), old(info), nodes, info, p);
        ghost var nodes1 := nodes;
        Store(n, nodes[n].(onlyKey := seq(16, _ => 0)));
        OnlyWritten(nodes1, nodes, info, tops, m, n, nodes[n].onlyKey, nodes[n].onlyVal);
        Written(nodes1, nodes, deleted, info, pool, n);
        GrewTrans(old(nodes), old(info), nodes1, info, nodes, info, p);
        Materialised(old(nodes), old(info), nodes, info, m, n);
      }
    }

    /** An empty node heads the free list. */
    method Shelve(c: nat)
      requires Writing() && c in nodes && |nodes[c].slot| == 16
      modifies this`nodes, this`deleted, this`acts
      ensures Writing() && Stored(old(acts)) && deleted == Sub(c)
      ensures nodes == old(nodes)[c := old(nodes[c]).(onlyVal := 0, slot := old(nodes[c].slot)[0 := old(deleted)])]
    {
      hide TcSeqlock.Run;
      Store(c, nodes[c].(onlyVal := 0));
      Store(c, nodes[c].(slot := nodes[c].slot[0 := deleted]));
      deleted := Sub(c);
    }

    /** The stores that unlink child c from slot i of n. */
    method Detach(n: nat, i: nat, c: nat)
      requires Writing() && n in nodes && c in nodes && c != n && i < 16 && |nodes[n].slot| == 16
      requires |nodes[c].slot| == 16
      requires nodes[n].nchildren > 0
      modifies this`nodes, this`deleted, this`acts
      ensures Writing() && Stored(old(acts)) && deleted == Sub(c)
      ensures n in nodes && c in nodes && (forall x :: x in nodes <==> x in old(nodes))
      ensures nodes[n] == old(nodes[n]).(slot := old(nodes[n].slot)[i := Empty],
                  nchildren := old(nodes[n].nchildren) - 1)
      ensures nodes[c] == old(nodes[c]).(onlyVal := 0, slot := old(nodes[c].slot)[0 := old(deleted)])
      ensures forall x :: x in nodes && x != n && x != c ==> nodes[x] == old(nodes)[x]
    {
      hide TcSeqlock.Run;
      Store(n, nodes[n].(slot := nodes[n].slot[i := Empty]));
      Shelve(c);
      Store(n, nodes[n].(nchildren := nodes[n].nchildren - 1));
    }

    /** An empty child is unlinked and goes to the free list. */
    method Unlink(n: nat, i: nat, c: nat, ghost tops: set<nat>)
      requires Writing() && Stocked({}) && Net(nodes, info, tops) && n in info && c in info && c != n && c !in tops
      requires info[n].lev > 0 && i < 16
      requires info[c] == ChildPos(info[n], i) && nodes[n].slot[i] == Sub(c)
      requires nodes[n].nchildren == Count(nodes[n].slot)
      requires IsZero(nodes[c].onlyKey) && |nodes[c].onlyKey| == 16 && nodes[c].nchildren == 0
      requires forall j :: 0 <= j < 16 ==> nodes[c].slot[j] == Empty
      requires forall x :: x in info && x != c ==> !Inside(info[c], info[x])
      modifies this`nodes, this`deleted, this`info, this`pool, this`acts
      ensures Writing() && Stored(old(acts))
      ensures Stocked({}) && Net(nodes, info, tops) && info == old(info) - {c}
      ensures nodes[n] == old(nodes[n].(slot := nodes[n].slot[i := Empty])).(nchildren := nodes[n].nchildren)
      ensures nodes[n].nchildren == old(nodes[n].nchildren) - 1 == Count(nodes[n].slot)
      ensures forall x :: x in info && x != n ==> nodes[x] == old(nodes)[x]
    {
      hide Net, PoolOk, PoolLink, TcSeqlock.Run;
      NetBasics(nodes, info, tops);
      CountSet(nodes[n].slot, i, Empty);
      Detach(n, i, c);
      NetCut(old(nodes), nodes, info, tops, n, c, i);
      Pushed(old(nodes), nodes, old(deleted), info, pool, n, c);
      info := info - {c};
      pool := [c] + pool;
    }

    /** nremove: `was` is what the caller has in *value; gone when n is left empty. */
    method RemoveAt(n: nat, lev: nat, key: Key, was: int, ghost m: map<Key, int>,
                    ghost tops: set<nat>) returns (gone: bool, value: int)
      requires Writing() && Stocked({}) && Net(nodes, info, tops)
      requires n in info && info[n].lev == lev && Keyed(SZ, key) && In(key, info[n]) && MapOk(m)
      requires NodeOrBlank(nodes, info, m, n) && PartsOk(nodes, info, m, n)
      requires forall t :: t in tops && t != n ==> !Inside(info[n], info[t])
      requires was == 0 || (key in m && was == m[key])
      modifies this`nodes, this`deleted, this`info, this`pool, this`acts
      decreases lev, 1
      ensures Writing() && Stored(old(acts))
      ensures Stocked({}) && Net(nodes, info, tops) && Shrunk(old(nodes), old(info), nodes, info, old(info[n]))
      ensures n in info
      ensures PartsOk(nodes, info, m - {key}, n)
      ensures old(NodeOk(nodes, info, m, n)) ==> NodeOk(nodes, info, m - {key}, n)
      ensures NodeOrBlank(nodes, info, m - {key}, n)
      ensures value == if key in m then m[key] else 0
      ensures Occupied(m, info[n]) ==> (gone <==> !Occupied(m - {key}, info[n]))
      ensures lev > 0 && !IsZero(nodes[n].onlyKey) ==> nodes[n] == old(nodes[n])
    {
      hide Net, PoolOk, PoolLink, PartsOk, Inside, In, Occupied, Shrunk, NodeOrBlank, NodeOk, TcSeqlock.Run;
      NetBasics(nodes, info, tops);
      value := TakeOnly(n, key, was);
      if lev == 0 {
        NotBlank(old(nodes), info, m, n);
        gone, value := RemoveBottom(n, key, value, old(nodes), m, tops);
        NetBasics(nodes, info, tops);
        NotBlank(nodes, info, m - {key}, n);
      } else {
        OnlyTaken(old(nodes), nodes, info, tops, m, n, key, seq(16, _ => 0));
        ghost var nodes1 := nodes;
        gone, value := RemoveBelow(n, lev, key, value, m, tops);
        ShrunkFrom(old(nodes), nodes1, old(info), nodes, info, n);
      }
    }

    /** The start of nremove. */
    method TakeOnly(n: nat, key: Key, was: int) returns (value: int)
      requires Writing() && Stocked({}) && n in info && n in nodes
      modifies this`nodes, this`acts
      ensures Writing() && Stored(old(acts))
      ensures Stocked({})
      ensures old(nodes[n]).onlyKey == key && !IsZero(key) ==>
                nodes == old(nodes)[n := old(nodes[n]).(onlyKey := seq(16, _ => 0))] && value == old(nodes[n]).onlyVal
      ensures !(old(nodes[n]).onlyKey == key && !IsZero(key)) ==> nodes == old(nodes) && value == was
    {
      hide TcSeqlock.Run;
      value := was;
      if nodes[n].onlyKey == key && !IsZero(key) {
        value := nodes[n].onlyVal;
        Store(n, nodes[n].(onlyKey := seq(16, _ => 0)));
        Written(old(nodes), nodes, deleted, info, pool, n);
      }
    }

    /** nremove at level 0, where `first` is the state before its start. */
    method RemoveBottom(n: nat, key: Key, was: int, ghost first: map<nat, TNode>, ghost m: map<Key, int>,
                        ghost tops: set<nat>) returns (gone: bool, value: int)
      requires Writing() && Stocked({}) && Net(first, info, tops) && n in info && info[n].lev == 0 && Keyed(SZ, key)
      requires In(key, info[n]) && MapOk(m)
      requires NodeOk(first, info, m, n) && n in nodes
      requires nodes == if first[n].onlyKey == key && !IsZero(key)
                        then first[n := first[n].(onlyKey := seq(16, _ => 0))] else first
      requires (first[n].onlyKey == key && !IsZero(key)) || was == 0 || (key in m && was == m[key])
      modifies this`nodes, this`acts
      ensures Writing() && Stored(old(acts))
      ensures Stocked({}) && Net(nodes, info, tops) && Shrunk(first, info, nodes, info, info[n])
      ensures NodeOk(nodes, info, m - {key}, n) && PartsOk(nodes, info, m - {key}, n)
      ensures value == if key in m then m[key] else 0
      ensures Occupied(m, info[n]) ==> (gone <==> !Occupied(m - {key}, info[n]))
    {
      hide Net, PoolOk, PoolLink, PartsOk, Inside, In, Occupied, Shrunk, RegionOk, NodeOk, TcSeqlock.Run;
      NetBasics(first, info, tops);
      value := was;
      if nodes[n].slot[key[0]] != Empty {
        BottomVal(first, info, m, n, key);
        value := nodes[n].slot[key[0]].v;
        Store(n, nodes[n].(slot := nodes[n].slot[key[0] := Empty]));
        Store(n, nodes[n].(nchildren := nodes[n].nchildren - 1));
        gone := nodes[n].nchildren == 0 && IsZero(nodes[n].onlyKey);
        BottomCut(first, nodes, info, tops, m, n, key, seq(16, _ => 0));
        Written(old(nodes), nodes, deleted, info, pool, n);
      } else {
        gone := false;
        BottomMiss(first, info, tops, m, n, key);
        ShrunkRefl(nodes, info, info[n]);
      }
      Region(nodes, info, m - {key}, n);
    }

    /** nremove above level 0. */
    method RemoveBelow(n: nat, lev: nat, key: Key, was: int, ghost m: map<Key, int>,
                       ghost tops: set<nat>) returns (gone: bool, value: int)
      requires Writing() && Stocked({}) && Net(nodes, info, tops)
      requires n in info && info[n].lev == lev && lev > 0 && Keyed(SZ, key) && In(key, info[n]) && MapOk(m)
      requires NodeOrBlank(nodes, info, m - {key}, n) && PartsOk(nodes, info, m, n)
      requires Occupied(m, info[n]) ==> NodeOk(nodes, info, m - {key}, n)
      requires forall t :: t in tops && t != n ==> !Inside(info[n], info[t])
      requires was == 0 || (key in m && was == m[key])
      requires nodes[n].slot[key[lev]] == Empty && key in m ==> was == m[key]
      modifies this`nodes, this`deleted, this`info, this`pool, this`acts
      decreases lev, 0
      ensures Writing() && Stored(old(acts))
      ensures Stocked({}) && Net(nodes, info, tops) && Shrunk(old(nodes), old(info), nodes, info, old(info[n]))
      ensures n in info
      ensures PartsOk(nodes, info, m - {key}, n) && NodeOrBlank(nodes, info, m - {key}, n)
      ensures old(NodeOk(nodes, info, m - {key}, n)) ==> NodeOk(nodes, info, m - {key}, n)
      ensures value == if key in m then m[key] else 0
      ensures Occupied(m, info[n]) ==> (gone <==> !Occupied(m - {key}, info[n]))
      ensures !IsZero(nodes[n].onlyKey) ==> nodes[n] == old(nodes[n])
    {
      hide Net, PoolOk, PoolLink, PartsOk, Inside, In, Occupied, Shrunk, NodeOrBlank, NodeOk, RegionOk, TcSeqlock.Run;
      NetBasics(nodes, info, tops);
      ghost var p, m' := info[n], m - {key};
      value := was;
      var i := key[lev];
      ChildIn(p, key);
      BelowSlot(nodes, info, tops, m, m', n, i);
      if nodes[n].slot[i] != Empty {
        var c := nodes[n].slot[i].id;
        gone, value := RemoveAt(c, lev - 1, key, value, m, tops);
        ghost var nodes1, info1 := nodes, info;
        ParentKept(old(nodes), old(info), nodes1, info1, tops, m', n, c, i);
        NetBasics(nodes, info, tops);
        if !gone {
          ChildStays(old(nodes), old(info), nodes, info, tops, m, n, c, key);
          return;
        }
        RegionBack(nodes, info, m', c);
        Emptied(nodes, info, m', c);
        SlotCounted(nodes, info, m', n);
        Unlink(n, i, c, tops);
        NetBasics(nodes, info, tops);
        ChildCut(nodes1, info1, nodes, info, tops, m', n, c, i);
        CutParts(old(nodes), old(info), nodes1, info1, nodes, info, tops, m, n, c, key);
      } else {
        EmptySlot(nodes, info, tops, n, i);
        ChildAbsent(nodes, info, nodes, info, tops, m, n, key);
        ShrunkRefl(nodes, info, p);
      }
      gone := nodes[n].nchildren == 0 && IsZero(nodes[n].onlyKey);
      NowEmpty(nodes, info, m', n);
    }

    ghost predicate Valid()
      reads this
    {
      && Stocked({}) && Whole(nodes, info, m)
      && status % 2 == 0 && Follows() && TcSeqlock.Run(acts).maps != [] && TcSeqlock.Last(TcSeqlock.Run(acts)) == m
    }

    /** tcradix_new. */
    constructor ()
      ensures Valid() && m == map[]
    {
      nodes := TcSeqlock.Init().nodes;
      deleted := Empty;
      status := 0;
      info := map[0 := Root()];
      pool := [];
      m := map[];
      acts := [];
      new;
      CountZero(nodes[0].slot);
      assert forall i :: 0 <= i < 16 ==> SlotFits(nodes, info, info[0], nodes[0].slot[i], i);
      assert nodes[0].onlyKey[0] == 15;
    }

    /** The start of tcradix_insert: before the first insert, the root takes the entry. */
    method TakeFirst(key: Key, value: int) returns (ghost m0: map<Key, int>)
      requires Writing() && Stocked({}) && Whole(nodes, info, m) && Keyed(SZ, key) && value != 0
      modifies this`nodes, this`acts
      ensures Writing() && Stored(old(acts))
      ensures Stocked({}) && Net(nodes, info, {0}) && MapOk(m0) && m0[key := value] == m[key := value]
      ensures RegionOk(nodes, info, m0, 0)
    {
      hide PoolOk, PoolLink, Net, PartsOk, NodeOk, RegionOk, Blank, RootOk, Inside, Grew, TcSeqlock.Run;
      NetBasics(nodes, info, {0});
      m0 := m;
      BlankTest(nodes, info, m);
      if IsTop(nodes[0].onlyKey) && nodes[0].nchildren == 0 {
        Store(0, nodes[0].(onlyVal := value));
        Store(0, nodes[0].(onlyKey := key));
        FirstInsert(old(nodes), nodes, info, m, key, value);
        Written(old(nodes), nodes, deleted, info, pool, 0);
        m0 := if IsZero(key) then map[] else map[key := value];
      }
    }

    /** tcradix_insert: overwrites; a NULL value is not stored. */
    method Insert(key: Key, value: int)
      requires Valid() && Keyed(SZ, key)
      modifies this
      ensures Valid() && m == if value == 0 then old(m) else old(m)[key := value]
      ensures status == old(status) + if value == 0 then 0 else 2
      ensures if value == 0 then acts == old(acts) else Section(old(acts))
    {
      hide PoolOk, PoolLink, Net, PartsOk, NodeOk, RegionOk, Blank, RootOk, Inside, Grew, TcSeqlock.Run;
      if value == 0 {
        return;
      }
      Enter();
      ghost var m0 := TakeFirst(key, value);
      ghost var nodes1 := nodes;
      InsertAt(0, 15, key, value, m0, {0});
      m := m[key := value];
      GrewBasics(nodes1, old(info), nodes, info, Root());
      NetBasics(nodes, info, {0});
      InsertDone(nodes, info, m, key);
      Leave(TcSeqlock.Ins(key, value));
    }

    /** tcradix_remove: returns the value, or NULL. */
    method Remove(key: Key) returns (value: int)
      requires Valid() && Keyed(SZ, key)
      modifies this
      ensures Valid() && m == old(m) - {key}
      ensures value == ValueOf(old(m), key) && status == old(status) + 2 && Section(old(acts))
    {
      hide PoolOk, PoolLink, Net, PartsOk, NodeOk, RegionOk, Inside, Shrunk, TcSeqlock.Run;
      Enter();
      NetBasics(nodes, info, {0});
      BlankTest(nodes, info, m);
      var gone;
      gone, value := RemoveAt(0, 15, key, 0, m, {0});
      m := m - {key};
      ShrunkBasics(old(nodes), old(info), nodes, info, Root());
      Leave(TcSeqlock.Rem(key));
    }

    /** tcradix_get without a concurrent writer. */
    method Get(key: Key) returns (value: int)
      requires Valid() && Keyed(SZ, key)
      ensures value == ValueOf(m, key)
    {
      hide PoolOk, In, TcSeqlock.Run;
      AllKeys(nodes, info, m, key);
      var n, lev := 0, 15;
      while true
        invariant n in info && info[n].lev == lev && In(key, info[n]) && Whole(nodes, info, m)
        decreases lev
      {
        hide Whole, TcSeqlock.Run;
        Linked0(nodes, info, m, n);
        WalkStep(nodes, info, m, n, key);
        if lev > 0 && !IsZero(nodes[n].onlyKey) {
          return if nodes[n].onlyKey == key then nodes[n].onlyVal else 0;
        }
        match nodes[n].slot[key[lev]]
        case Empty => return 0;
        case Val(v) => return v;
        case Sub(c) => n, lev := c, lev - 1;
      }
    }

    method Free(id: nat)
      requires id in nodes
      modifies this`nodes
      ensures nodes == old(nodes) - {id}
    {
      nodes := nodes - {id};
    }

    /** teardown: frees exactly the nodes at and below n, each while it is still allocated. */
    method Teardown(n: nat, lev: nat, ghost whole: map<nat, TNode>, ghost tops: set<nat>)
      requires Net(whole, info, tops) && n in info && info[n].lev == lev
      requires forall x :: x in info ==> Shaped(whole, info, x)
      requires forall x :: x in info && Inside(info[n], info[x]) ==> x in nodes && nodes[x] == whole[x]
      requires forall t :: t in tops && t != n ==> !Inside(info[n], info[t])
      modifies this`nodes
      decreases lev, 1
      ensures forall x :: x in nodes <==> x in old(nodes) && !(x in info && Inside(info[n], info[x]))
      ensures forall x :: x in nodes ==> nodes[x] == old(nodes)[x]
    {
      hide Net, Inside, SlotsFit;
      NetBasics(whole, info, tops);
      InsideSelf(info[n]);
      ShapedBasics(whole, info, n);
      ghost var p := info[n];
      var nd := nodes[n];
      if lev > 0 {
        if !IsZero(nd.onlyKey) {
          var i := nd.onlyKey[lev];
          TornNext(info, p, i);
          TearChild(n, lev, i, whole, tops);
          TornOnly(whole, info, tops, n);
        } else {
          var i := 0;
          TornNone(info, p);
          while i < 16
            invariant 0 <= i <= 16
            invariant forall x :: x in nodes <==> x in old(nodes) && !(x in info && Torn(info, p, x, i))
            invariant forall x :: x in nodes ==> nodes[x] == old(nodes)[x]
          {
            TornNext(info, p, i);
            TearChild(n, lev, i, whole, tops);
            i := i + 1;
          }
          TornAll(whole, info, tops, n);
        }
      } else {
        TornBottom(whole, info, tops, n);
      }
      Free(n);
    }

    /** teardown of one slot of n, if there is a child. */
    method TearChild(n: nat, lev: nat, i: nat, ghost whole: map<nat, TNode>, ghost tops: set<nat>)
      requires Net(whole, info, tops) && n in info && info[n].lev == lev && lev > 0 && i < 16
      requires forall x :: x in info ==> Shaped(whole, info, x)
      requires n in nodes && nodes[n] == whole[n]
      requires forall x :: x in info && Inside(ChildPos(info[n], i), info[x]) ==> x in nodes && nodes[x] == whole[x]
      requires forall t :: t in tops && t != n ==> !Inside(info[n], info[t])
      modifies this`nodes
      decreases lev, 0
      ensures forall x :: x in nodes <==> x in old(nodes) && !(x in info && Inside(ChildPos(info[n], i), info[x]))
      ensures forall x :: x in nodes ==> nodes[x] == old(nodes)[x]
    {
      hide Net, Inside, SlotsFit;
      TearReady(whole, info, tops, n, i);
      ShapedBasics(whole, info, n);
      if nodes[n].slot[i] != Empty {
        Teardown(nodes[n].slot[i].id, lev - 1, whole, tops);
      }
    }

    /** The free list is freed. */
    method DeletePool()
      requires Stocked({})
      modifies this`nodes
      ensures forall x :: x in nodes <==> x in info
      ensures forall x :: x in nodes ==> x in old(nodes) && nodes[x] == old(nodes)[x]
    {
      hide Clean;
      var c := deleted;
      ghost var i := 0;
      while c.Sub?
        invariant 0 <= i <= |pool| && c == (if i == |pool| then Empty else Sub(pool[i]))
        invariant forall x :: x in nodes <==> x in old(nodes) && x !in pool[..i]
        invariant forall x :: x in nodes ==> nodes[x] == old(nodes)[x]
        decreases |pool| - i
      {
        assert PoolLink(old(nodes), pool, i);
        var next := nodes[c.id].slot[0];
        Free(c.id);
        assert pool[..i + 1] == pool[..i] + [pool[i]];
        i, c := i + 1, next;
      }
      assert pool[..i] == pool;
    }

    /** tcradix_delete: the free list, then the tree; nothing is left. */
    method Delete()
      requires Valid()
      modifies this
      ensures nodes == map[]
    {
      hide Net, PartsOk, RootOk, PoolOk, Inside, Shaped;
      NetBasics(nodes, info, {0});
      forall x | x in info ensures Shaped(nodes, info, x) { ShapedAll(nodes, info, m, x); }
      forall x | x in info ensures Inside(Root(), info[x]) { AllInRoot(info[x]); }
      DeletePool();
      Teardown(0, 15, old(nodes), {0});
    }
  }
}
