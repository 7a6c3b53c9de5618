/** critnib_delete: every object is given to free() exactly once, and none is read afterwards. */
module CritnibDelete {
  import opened Digits
  import opened RadixTree
  import opened RadixParts
  import opened CritnibModel
  import opened CritnibInv
  import opened CritnibShape

  /** The memory of a critnib that is being torn down. */
  class Heap {
    var nodes: map<nat, Node>
    var leaves: map<nat, Leaf>

    constructor (ns: map<nat, Node>, ls: map<nat, Leaf>)
      ensures nodes == ns && leaves == ls
    {
      nodes, leaves := ns, ls;
    }

    /** What of m is not yet freed, unchanged. */
    ghost predicate Left(m: Mem, freed: set<Ptr>)
      reads this
    {
      && (forall n :: n in nodes <==> n in m.nodes && Inner(n) !in freed)
      && (forall l :: l in leaves <==> l in m.leaves && Tagged(l) !in freed)
      && (forall n :: n in nodes ==> nodes[n] == m.nodes[n])
      && (forall l :: l in leaves ==> leaves[l] == m.leaves[l])
    }

    /** Free: the object must be there, and is gone afterwards. NULL is ignored. */
    method Free(p: Ptr)
      requires p.Inner? ==> p.id in nodes
      requires p.Tagged? ==> p.id in leaves
      modifies this
      ensures forall m, freed :: old(Left(m, freed)) ==> Left(m, freed + {p})
    {
      match p
      case Null =>
      case Inner(n) => nodes := nodes - {n};
      case Tagged(l) => leaves := leaves - {l};
    }

    /** critnib.c:234-235: one slot of a node. */
    method DeleteChild(n: nat, i: nat, ghost m: Mem, ghost up: map<Ptr, Place>, ghost freed: set<Ptr>,
                       ghost f: set<Ptr>)
      returns (ghost f': set<Ptr>)
      requires Linked(SZ, m, up) && Inner(n) in up && i < 16 && Left(m, f) && n in nodes
      requires Subtree(m, up, Inner(n)) !! freed && forall q :: q in f <==> q in freed || BeforeSlot(m, up, n, i, q)
      modifies this
      ensures Left(m, f') && forall q :: q in f' <==> q in freed || BeforeSlot(m, up, n, i + 1, q)
      decreases Rank(m, Inner(n)), 0
    {
      NextPart(SZ, m, up, n, i);
      var c := nodes[n].child[i];
      hide Linked, Subtree, BeforeSlot;
      f' := f;
      if c != Null {
        DeleteNode(c, m, up, f);
        f' := f + Subtree(m, up, c);
      }
    }

    /** delete_node: critnib.c:229-242 */
    method DeleteNode(p: Ptr, ghost m: Mem, ghost up: map<Ptr, Place>, ghost freed: set<Ptr>)
      requires Linked(SZ, m, up) && p in up && Left(m, freed) && Subtree(m, up, p) !! freed
      modifies this
      ensures Left(m, freed + Subtree(m, up, p))
      decreases Rank(m, p), 1
    {
      hide Linked;
      PartsAlloc(m, up);
      ghost var f := freed;
      if p.Tagged? {
        f := FreeMore(p, m, freed);
        assert Subtree(m, up, p) == {p};
        return;
      }
      hide Subtree, BeforeSlot, Left;
      var n := p.id;
      AllParts(SZ, m, up, n);
      var i := 0;
      while i < 16
        invariant 0 <= i <= 16 && Left(m, f)
        invariant forall q :: q in f <==> q in freed || BeforeSlot(m, up, n, i, q)
      {
        StillThere(m, f, n);
        f := DeleteChild(n, i, m, up, freed, f);
        i := i + 1;
      }
      f := FreeMore(p, m, f);
      assert f == freed + Subtree(m, up, p);
    }

    /** What is not freed is still there. */
    lemma StillThere(m: Mem, f: set<Ptr>, n: nat)
      requires Left(m, f) && n in m.nodes && Inner(n) !in f
      ensures n in nodes
    {
    }

    /** critnib.c:255-259: the free list of nodes. */
    method DeleteNodePool(head: Ptr, ghost m: Mem, ghost pool: seq<nat>,
                          ghost freed: set<Ptr>) returns (ghost f: set<Ptr>)
      requires ChainN(m, head, pool) && Distinct(pool) && Left(m, freed)
      requires forall q :: q in freed && q.Inner? ==> q.id !in pool
      modifies this
      ensures Left(m, f) && forall q :: q in f <==> q in freed || (q.Inner? && q.id in pool)
    {
      var x := head;
      ghost var i := 0;
      f := freed;
      while x != Null
        invariant 0 <= i <= |pool| && Left(m, f)
        invariant x == if i < |pool| then Inner(pool[i]) else Null
        invariant forall q :: q in f <==> q in freed || (q.Inner? && q.id in pool[..i])
        decreases |pool| - i
      {
        assert LinkN(m, pool, i);
        assert pool[..i + 1] == pool[..i] + [pool[i]] && pool[i] !in pool[..i];
        var next := nodes[x.id].child[0];
        Free(x);
        f := f + {x};
        x := next;
        i := i + 1;
      }
      assert pool[..i] == pool;
    }

    /** critnib.c:261-265: the free list of leaves. */
    method DeleteLeafPool(head: Word, ghost m: Mem, ghost pool: seq<nat>,
                          ghost freed: set<Ptr>) returns (ghost f: set<Ptr>)
      requires ChainL(m, head, pool) && Distinct(pool) && Left(m, freed)
      requires forall q :: q in freed && q.Tagged? ==> q.id !in pool
      modifies this
      ensures Left(m, f) && forall q :: q in f <==> q in freed || (q.Tagged? && q.id in pool)
    {
      var x := head;
      ghost var i := 0;
      f := freed;
      while x.Link?
        invariant 0 <= i <= |pool| && Left(m, f)
        invariant x == if i < |pool| then Link(pool[i]) else Nil
        invariant forall q :: q in f <==> q in freed || (q.Tagged? && q.id in pool[..i])
        decreases |pool| - i
      {
        assert LinkL(m, pool, i);
        assert pool[..i + 1] == pool[..i] + [pool[i]] && pool[i] !in pool[..i];
        var next := leaves[x.id].value;
        Free(Tagged(x.id));
        f := f + {Tagged(x.id)};
        x := next;
        i := i + 1;
      }
      assert pool[..i] == pool;
    }

    /** critnib.c:267-270: the rings. */
    method DeleteRings(pn: seq<Ptr>, pl: seq<Ptr>, ghost m: Mem, ghost freed: set<Ptr>) returns (ghost f: set<Ptr>)
      requires Left(m, freed) && RingsReady(pn, pl, m, freed)
      modifies this
      ensures |pn| == 16 && |pl| == 16 && Left(m, f) && freed <= f
      ensures forall i :: 0 <= i < 16 ==> pn[i] in f && pl[i] in f
    {
      f := freed;
      var i := 0;
      while i < 16
        invariant 0 <= i <= 16 && Left(m, f) && freed <= f
        invariant forall q :: q in f ==> q in freed || q in pn[..i] || q in pl[..i]
        invariant forall j :: 0 <= j < i ==> pn[j] in f && pl[j] in f
      {
        hide Left;
        RingFresh(pn, pl, m, freed, f, i);
        f := FreeMore(pn[i], m, f);
        f := FreeMore(pl[i], m, f);
        i := i + 1;
      }
    }

    /** Free of an object of m that is not freed yet, or of NULL. */
    method FreeMore(p: Ptr, ghost m: Mem, ghost freed: set<Ptr>) returns (ghost f: set<Ptr>)
      requires Left(m, freed) && Alloc(m, p) && (p != Null ==> p !in freed)
      modifies this
      ensures f == freed + {p} && Left(m, f)
    {
      Free(p);
      f := freed + {p};
    }

    lemma StartLeft(m: Mem)
      requires nodes == m.nodes && leaves == m.leaves
      ensures Left(m, {})
    {
    }

    lemma AllFreed(m: Mem, f: set<Ptr>)
      requires Left(m, f) && forall q :: q != Null && Alloc(m, q) ==> q in f
      ensures nodes == map[] && leaves == map[]
    {
      forall n ensures n !in nodes { assert Alloc(m, Inner(n)) ==> Inner(n) in f; }
      forall l ensures l !in leaves { assert Alloc(m, Tagged(l)) ==> Tagged(l) in f; }
    }

    /** critnib.c:250-251 */
    method DeleteTree(root: Ptr, ghost s: Sys)
      requires root == s.st.mem.root && Core(s) && Left(s.st.mem, {})
      modifies this
      ensures Left(s.st.mem, s.b.up.Keys)
    {
      hide Core;
      CoreParts(s);
      WholeTree(s);
      if root != Null {
        DeleteNode(root, s.st.mem, s.b.up, {});
        assert {} + s.b.up.Keys == s.b.up.Keys;
      } else {
        assert s.b.up.Keys == {};
      }
    }

    /** critnib.c:255-265 */
    method DeletePools(st: Store, ghost s: Sys) returns (ghost f: set<Ptr>)
      requires st == s.st && Core(s) && Left(s.st.mem, s.b.up.Keys)
      modifies this
      ensures Left(s.st.mem, f) && forall q :: q in f <==> q in s.b.up || InPool(s.b, q)
    {
      hide Core, Linked;
      CoreParts(s);
      PoolsApart(s);
      f := s.b.up.Keys;
      f := DeleteNodePool(st.deletedNode, s.st.mem, s.b.nodePool, f);
      f := DeleteLeafPool(st.deletedLeaf, s.st.mem, s.b.leafPool, f);
    }

    /** critnib_delete: critnib.c:248-273. Nothing is left, so every object was freed, and none twice. */
    method Delete(st: Store, ghost s: Sys)
      requires st == s.st && Core(s) && s.w.Idle? && nodes == st.mem.nodes && leaves == st.mem.leaves
      modifies this
      ensures nodes == map[] && leaves == map[]
    {
      hide Core, Linked, RingsReady, InPool, Chains, Distinct, Left;
      StartLeft(s.st.mem);
      DeleteTree(st.mem.root, s);
      ghost var f := DeletePools(st, s);
      CoreParts(s);
      RingsApart(s, f);
      f := DeleteRings(st.pendNodes, st.pendLeaves, s.st.mem, f);
      NothingLeft(s, f);
      AllFreed(s.st.mem, f);
    }
  }

  lemma PartsAlloc(m: Mem, up: map<Ptr, Place>)
    requires Linked(SZ, m, up)
    ensures forall q :: q in up ==> q != Null && Alloc(m, q)
  {
  }

  /** The entries of ring slot i are not freed yet. */
  lemma RingFresh(pn: seq<Ptr>, pl: seq<Ptr>, m: Mem, freed: set<Ptr>, f: set<Ptr>, i: nat)
    requires RingsReady(pn, pl, m, freed) && i < 16
    requires forall q :: q in f ==> q in freed || q in pn[..i] || q in pl[..i]
    ensures Alloc(m, pn[i]) && Alloc(m, pl[i])
    ensures pn[i] != Null ==> pn[i] !in f
    ensures pl[i] != Null ==> pl[i] !in f + {pn[i]}
  {
  }

  lemma NothingLeft(s: Sys, f: set<Ptr>)
    requires Core(s) && s.w.Idle? && |s.st.pendNodes| == 16 && |s.st.pendLeaves| == 16
    requires forall q :: q in s.b.up || InPool(s.b, q) ==> q in f
    requires forall i :: 0 <= i < 16 ==> s.st.pendNodes[i] in f && s.st.pendLeaves[i] in f
    ensures forall q :: q != Null && Alloc(s.st.mem, q) ==> q in f
  {
    forall q | q != Null && Alloc(s.st.mem, q) ensures q in f {
      Everything(s, q);
    }
  }

  lemma CoreParts(s: Sys)
    requires Core(s)
    ensures Linked(SZ, s.st.mem, s.b.up) && Chains(s.st, s.b) && Distinct(s.b.nodePool) && Distinct(s.b.leafPool)
    ensures |s.st.pendNodes| == 16 && |s.st.pendLeaves| == 16
  {
  }

  /** Everything linked is below the root. */
  lemma WholeTree(s: Sys)
    requires Core(s) && Linked(SZ, s.st.mem, s.b.up)
    ensures s.st.mem.root == Null ==> s.b.up.Keys == {}
    ensures s.st.mem.root != Null ==> s.b.up.Keys == Subtree(s.st.mem, s.b.up, s.st.mem.root)
  {
    if s.st.mem.root == Null {
      NoRootNothing(SZ, s.st.mem, s.b.up);
    } else {
      forall q | q in s.b.up ensures q in Subtree(s.st.mem, s.b.up, s.st.mem.root) {
        RootLeads(SZ, s.st.mem, s.b.up, q);
        LeadsUnder(SZ, s.st.mem, s.b.up, s.st.mem.root, Label(s.st.mem, q), q);
      }
    }
  }

  /** Pooled objects are not in the tree. */
  lemma PoolsApart(s: Sys)
    requires Core(s)
    ensures forall q :: q in s.b.up ==> !InPool(s.b, q)
  {
    forall q | q in s.b.up ensures !InPool(s.b, q) {
      assert Homes(s.b, Hand(s.w), q) <= 1;
    }
  }

  /** What waits in the rings is not freed yet, and waits in one slot only. */
  ghost predicate RingsReady(pn: seq<Ptr>, pl: seq<Ptr>, m: Mem, freed: set<Ptr>) {
    && |pn| == 16 && |pl| == 16
    && (forall i :: 0 <= i < 16 ==> !pn[i].Tagged? && !pl[i].Inner? && Alloc(m, pn[i]) && Alloc(m, pl[i]))
    && (forall i :: 0 <= i < 16 ==> (pn[i] != Null ==> pn[i] !in freed) && (pl[i] != Null ==> pl[i] !in freed))
    && (forall i, j :: 0 <= i < j < 16 ==> (pn[i] != Null ==> pn[i] != pn[j]) && (pl[i] != Null ==> pl[i] != pl[j]))
  }

  lemma RingsApart(s: Sys, f: set<Ptr>)
    requires Core(s) && |s.st.pendNodes| == 16 && |s.st.pendLeaves| == 16
    requires forall q :: q in f <==> q in s.b.up || InPool(s.b, q)
    ensures RingsReady(s.st.pendNodes, s.st.pendLeaves, s.st.mem, f)
  {
    var pn, pl := s.st.pendNodes, s.st.pendLeaves;
    forall i | 0 <= i < 16
      ensures !pn[i].Tagged? && !pl[i].Inner? && Alloc(s.st.mem, pn[i]) && Alloc(s.st.mem, pl[i])
      ensures (pn[i] != Null ==> pn[i] !in f) && (pl[i] != Null ==> pl[i] !in f)
    {
      assert RingSlot(s.st, s.b, i);
      assert Homes(s.b, Hand(s.w), pn[i]) <= 1 && Homes(s.b, Hand(s.w), pl[i]) <= 1;
    }
    forall i, j | 0 <= i < j < 16
      ensures (pn[i] != Null ==> pn[i] != pn[j]) && (pl[i] != Null ==> pl[i] != pl[j])
    {
      assert RingSlot(s.st, s.b, i) && RingSlot(s.st, s.b, j);
    }
  }

  /** Tree, free lists and rings are everything. */
  lemma Everything(s: Sys, q: Ptr)
    requires Core(s) && s.w.Idle? && q != Null && Alloc(s.st.mem, q)
    ensures q in s.b.up || InPool(s.b, q) || q in s.st.pendNodes || q in s.st.pendLeaves
  {
    assert Homes(s.b, Hand(s.w), q) == 1;
    if q in s.b.limbo { assert Waits(s.st, s.b, s.w, q); }
  }
}
