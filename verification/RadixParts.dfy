/** Children, subtrees and free lists. */
module RadixParts {
  import opened Digits
  import opened RadixTree

  lemma ChildLinked(z: Size, m: Mem, up: map<Ptr, Place>, n: nat, i: int)
    requires Linked(z, m, up) && Inner(n) in up && 0 <= i < z.a
    ensures GoodNode(z, m.nodes[n])
    ensures var c := m.nodes[n].child[i];
            Alloc(m, c) && Rank(m, c) <= m.nodes[n].sh && (c != Null ==> c in up && Fits(m, c, m.nodes[n], i))
  {
    assert ObjOk(z, m, up, Inner(n));
    assert SlotOk(m, up, n, i);
  }

  lemma GoodLinked(z: Size, m: Mem, up: map<Ptr, Place>, n: nat)
    requires Linked(z, m, up) && Inner(n) in up
    ensures GoodNode(z, m.nodes[n])
  {
    assert ObjOk(z, m, up, Inner(n));
  }

  /** p and everything below it. */
  ghost function Subtree(m: Mem, up: map<Ptr, Place>, p: Ptr): set<Ptr>
    requires p != Null && Alloc(m, p) && forall q :: q in up ==> q != Null && Alloc(m, q)
  {
    set q | q in up && (q == p || Under(m, p, q))
  }

  /** An object strictly below n is in the subtree of exactly one child. */
  lemma SlotOfPart(z: Size, m: Mem, up: map<Ptr, Place>, n: nat, q: Ptr)
    requires Linked(z, m, up) && Inner(n) in up && q in Subtree(m, up, Inner(n)) && q != Inner(n)
    ensures GoodNode(z, m.nodes[n]) && |Label(m, q)| == z.d && 0 <= Label(m, q)[m.nodes[n].sh] < z.a
    ensures var c := m.nodes[n].child[Label(m, q)[m.nodes[n].sh]]; c != Null && c in up && q in Subtree(m, up, c)
  {
    assert ObjOk(z, m, up, q);
    GoodLinked(z, m, up, n);
    var i := Label(m, q)[m.nodes[n].sh];
    ChildLinked(z, m, up, n, i);
    OnPath(z, m, up, Inner(n), q);
    LeadsUnder(z, m, up, m.nodes[n].child[i], Label(m, q), q);
  }

  lemma PartOfSlot(z: Size, m: Mem, up: map<Ptr, Place>, n: nat, i: nat, q: Ptr)
    requires Linked(z, m, up) && Inner(n) in up && i < z.a && GoodNode(z, m.nodes[n]) && m.nodes[n].child[i] != Null
    requires m.nodes[n].child[i] in up && q in Subtree(m, up, m.nodes[n].child[i])
    ensures q in Subtree(m, up, Inner(n)) && q != Inner(n) && |Label(m, q)| == z.d && Label(m, q)[m.nodes[n].sh] == i
  {
    ChildLinked(z, m, up, n, i);
    assert ObjOk(z, m, up, q);
  }

  /** Before slot i: the subtrees of the first i children. */
  ghost predicate BeforeSlot(m: Mem, up: map<Ptr, Place>, n: nat, i: int, q: Ptr)
    requires Inner(n) in up && forall q :: q in up ==> q != Null && Alloc(m, q)
  {
    q in Subtree(m, up, Inner(n)) && q != Inner(n) && m.nodes[n].sh < |Label(m, q)| && Label(m, q)[m.nodes[n].sh] < i
  }

  /** Slot by slot, the parts of a node add up. */
  lemma NextPart(z: Size, m: Mem, up: map<Ptr, Place>, n: nat, i: nat)
    requires Linked(z, m, up) && Inner(n) in up && i < z.a
    ensures GoodNode(z, m.nodes[n]) && (forall q :: q in up ==> q != Null && Alloc(m, q))
    ensures var c := m.nodes[n].child[i];
            && (c != Null ==> c in up && Rank(m, c) < Rank(m, Inner(n)))
            && (forall q :: BeforeSlot(m, up, n, i + 1, q) <==>
                  BeforeSlot(m, up, n, i, q) || (c != Null && q in Subtree(m, up, c)))
            && (forall q :: c != Null && q in Subtree(m, up, c) ==> !BeforeSlot(m, up, n, i, q))
            && (forall q :: c != Null && q in Subtree(m, up, c) ==> q in Subtree(m, up, Inner(n)))
  {
    ChildLinked(z, m, up, n, i);
    var c := m.nodes[n].child[i];
    forall q | BeforeSlot(m, up, n, i + 1, q) && !BeforeSlot(m, up, n, i, q)
      ensures c != Null && q in Subtree(m, up, c)
    {
      SlotOfPart(z, m, up, n, q);
    }
    forall q | c != Null && q in Subtree(m, up, c)
      ensures BeforeSlot(m, up, n, i + 1, q) && !BeforeSlot(m, up, n, i, q) && q in Subtree(m, up, Inner(n)) {
      PartOfSlot(z, m, up, n, i, q);
    }
  }

  /** A node and its parts are its subtree. */
  lemma AllParts(z: Size, m: Mem, up: map<Ptr, Place>, n: nat)
    requires Linked(z, m, up) && Inner(n) in up
    ensures forall q :: q in up ==> q != Null && Alloc(m, q)
    ensures forall q :: !BeforeSlot(m, up, n, 0, q)
    ensures forall q :: q in Subtree(m, up, Inner(n)) <==> q == Inner(n) || BeforeSlot(m, up, n, z.a, q)
    ensures forall i :: !BeforeSlot(m, up, n, i, Inner(n))
  {
    forall q | q in Subtree(m, up, Inner(n)) && q != Inner(n)
      ensures BeforeSlot(m, up, n, z.a, q) && !BeforeSlot(m, up, n, 0, q)
    {
      SlotOfPart(z, m, up, n, q);
    }
  }

  /** Under every linked object there is a leaf that it leads to by the leaf's own key. */
  lemma {:induction false} SomeLeaf(z: Size, m: Mem, up: map<Ptr, Place>, p: Ptr) returns (l: nat)
    requires Linked(z, m, up) && p in up && Bushy(m, up, Null)
    ensures Tagged(l) in up && Leads(m, p, m.leaves[l].key, Tagged(l)) && (p == Tagged(l) || Under(m, p, Tagged(l)))
    decreases Rank(m, p)
  {
    if p.Tagged? {
      l := p.id;
    } else {
      assert TwoChildren(m.nodes[p.id]);
      var i: nat, j: nat :| i < j < |m.nodes[p.id].child| && m.nodes[p.id].child[i] != Null;
      GoodLinked(z, m, up, p.id);
      ChildLinked(z, m, up, p.id, i);
      l := SomeLeaf(z, m, up, m.nodes[p.id].child[i]);
      OnPath(z, m, up, p, Tagged(l));
    }
  }

  // ---------------------------------------------------------------------------------------
  // Free lists of leaves

  /** Element i of the free list of leaves links to the next one through its value. */
  ghost predicate LinkL(mem: Mem, pool: seq<nat>, i: int)
    requires 0 <= i < |pool|
  {
    && pool[i] in mem.leaves
    && mem.leaves[pool[i]].value == (if i + 1 < |pool| then Link(pool[i + 1]) else Nil)
  }

  ghost predicate ChainL(mem: Mem, head: Word, pool: seq<nat>) {
    && head == (if pool == [] then Nil else Link(pool[0]))
    && forall i {:trigger LinkL(mem, pool, i)} :: 0 <= i < |pool| ==> LinkL(mem, pool, i)
  }

  ghost predicate Distinct(s: seq<nat>) {
    forall i, j :: 0 <= i < j < |s| ==> s[i] != s[j]
  }
}
