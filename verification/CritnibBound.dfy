/** How much memory a critnib can hold: counting linked and waiting objects. */
module CritnibBound {
  import opened Digits
  import opened RadixTree
  import opened CritnibModel
  import opened CritnibInv

  /** A set that maps one-to-one into another is no larger. */
  lemma {:induction false} Injection<A, B>(xs: set<A>, ys: set<B>, f: map<A, B>)
    requires xs <= f.Keys && forall x :: x in xs ==> f[x] in ys
    requires forall x, x' :: x in xs && x' in xs && f[x] == f[x'] ==> x == x'
    ensures |xs| <= |ys|
  {
    if xs != {} {
      var x :| x in xs;
      Injection(xs - {x}, ys - {f[x]}, f);
    }
  }

  lemma SixteenSlots(xs: set<nat>, f: map<nat, int>)
    requires xs <= f.Keys && forall x :: x in xs ==> 0 <= f[x] < 16
    requires forall x, x' :: x in xs && x' in xs && f[x] == f[x'] ==> x == x'
    ensures |xs| <= 16
  {
    var ys := {0, 1, 2, 3, 4, 5, 6, 7, 8, 9, 10, 11, 12, 13, 14, 15};
    Injection(xs, ys, f);
  }

  /** Linked leaves are the keys. */
  lemma LinkedLeaves(m: Mem, up: map<Ptr, Place>, at: map<Key, nat>, xs: set<Ptr>)
    requires (forall l :: Tagged(l) in up ==> l in m.leaves) && Indexed(m, up, at)
    requires forall p :: p in xs ==> p.Tagged? && p in up
    ensures |xs| <= |at|
  {
    var f := map p | p in xs :: m.leaves[p.id].key;
    Injection(xs, at.Keys, f);
  }

  /** The child of n that `side` selects among two, and the place it is held at. */
  ghost function Edge(m: Mem, p: Ptr, side: bool): Place
    requires p.Inner? && p.id in m.nodes && TwoChildren(m.nodes[p.id])
  {
    var t := Twins(m.nodes[p.id]);
    Slot(p.id, if side then t.1 else t.0)
  }

  ghost predicate EndOf(m: Mem, place: Place, side: bool) {
    && place.Slot? && place.n in m.nodes && TwoChildren(m.nodes[place.n])
    && place == Edge(m, Inner(place.n), side)
  }

  lemma OneSide(m: Mem, place: Place)
    requires EndOf(m, place, false)
    ensures !EndOf(m, place, true)
  {
  }

  /** Two edges leave every linked node, and every edge but the one to the root ends in another object. */
  lemma TwoEdges(z: Size, m: Mem, up: map<Ptr, Place>, ns: set<Ptr>, side: bool) returns (xs: set<Ptr>)
    requires Linked(z, m, up) && Bushy(m, up, Null) && forall p :: p in ns ==> p.Inner? && p in up
    ensures |ns| <= |xs|
    ensures forall x :: x in xs ==> x in up && EndOf(m, up[x], side)
  {
    forall p | p in ns ensures p.id in m.nodes && TwoChildren(m.nodes[p.id]) {}
    var f := map p | p in ns :: m.nodes[p.id].child[Edge(m, p, side).i];
    forall p | p in ns ensures f[p] in up && up[f[p]] == Edge(m, p, side) {
      ChildrenOf(z, m, up, p.id, Edge(m, p, side).i);
    }
    xs := set p | p in ns :: f[p];
    Injection(ns, xs, f);
  }

  lemma EdgeCount(z: Size, m: Mem, up: map<Ptr, Place>, ns: set<Ptr>)
    requires Linked(z, m, up) && Bushy(m, up, Null) && m.root != Null && forall p :: p in ns ==> p.Inner? && p in up
    ensures 2 * |ns| < |up.Keys|
  {
    var xs := TwoEdges(z, m, up, ns, false);
    var ys := TwoEdges(z, m, up, ns, true);
    forall x | x in xs ensures x !in ys { OneSide(m, up[x]); }
    assert |xs + ys| == |xs| + |ys|;
    SubsetSize(xs + ys, up.Keys - {m.root});
  }

  /** Every linked node has two children of its own, so there are fewer nodes than keys. */
  lemma FewerNodes(z: Size, m: Mem, up: map<Ptr, Place>, at: map<Key, nat>, ns: set<Ptr>)
    requires Tree(z, m, up, at, Null) && m.root != Null
    requires ns == set p | p in up && p.Inner?
    ensures |ns| < |at|
  {
    EdgeCount(z, m, up, ns);
    var ls := set p | p in up && p.Tagged?;
    LinkedLeaves(m, up, at, ls);
    Kinds(z, m, up, ns, ls);
    assert |ns + ls| == |ns| + |ls|;
  }

  lemma Kinds(z: Size, m: Mem, up: map<Ptr, Place>, ns: set<Ptr>, ls: set<Ptr>)
    requires Linked(z, m, up)
    requires (ns == set p | p in up && p.Inner?) && (ls == set p | p in up && p.Tagged?)
    ensures up.Keys == ns + ls
  {
  }

  lemma {:induction false} SubsetSize<A>(xs: set<A>, ys: set<A>)
    requires xs <= ys
    ensures |xs| <= |ys|
  {
    Injection(xs, ys, map x | x in xs :: x);
  }

  /** Two occupied slots of a node. */
  ghost function Twins(nd: Node): (r: (nat, nat))
    requires TwoChildren(nd)
    ensures r.0 < r.1 < |nd.child| && nd.child[r.0] != Null && nd.child[r.1] != Null
  {
    var i: nat, j: nat :| i < j < |nd.child| && nd.child[i] != Null && nd.child[j] != Null;
    (i, j)
  }

  lemma ChildrenOf(z: Size, m: Mem, up: map<Ptr, Place>, n: nat, i: nat)
    requires Linked(z, m, up) && Inner(n) in up && i < |m.nodes[n].child| && m.nodes[n].child[i] != Null
    ensures m.nodes[n].child[i] in up && up[m.nodes[n].child[i]] == Slot(n, i)
  {
    assert ObjOk(z, m, up, Inner(n));
    assert SlotOk(m, up, n, i);
  }

  lemma WaitingLeaves(st: Store, b: Book, w: Writer, xs: set<nat>)
    requires Ring(st, b, w) && !w.RemTidy? && forall l :: l in xs ==> Tagged(l) in b.limbo
    ensures |xs| <= LIFE
  {
    forall l | l in xs ensures Waits(st, b, w, Tagged(l)) {}
    SixteenSlots(xs, map l | l in xs :: b.limbo[Tagged(l)].rem % LIFE);
  }

  lemma WaitingNodes(st: Store, b: Book, w: Writer, xs: set<nat>)
    requires Ring(st, b, w) && !w.RemTidy? && forall n :: n in xs ==> Inner(n) in b.limbo
    ensures |xs| <= LIFE
  {
    forall n | n in xs ensures Waits(st, b, w, Inner(n)) {}
    SixteenSlots(xs, map n | n in xs :: b.limbo[Inner(n)].rem % LIFE);
  }

  /** With an empty pool all leaves are linked or waiting. */
  lemma LeafBound(st: Store, b: Book, w: Writer)
    requires Tree(SZ, st.mem, b.up, b.at, Null) && Owned(st.mem, b, Hand(w)) && Ring(st, b, w)
    requires b.leafPool == [] && w.Idle?
    ensures |st.mem.leaves| <= |b.at| + LIFE
  {
    var live := set l | l in st.mem.leaves && Tagged(l) in b.up;
    var wait := set l | l in st.mem.leaves && Tagged(l) in b.limbo;
    forall l | l in st.mem.leaves ensures l in live + wait {
      assert Homes(b, Hand(w), Tagged(l)) == 1;
    }
    Injection(live, b.at.Keys, map l | l in live :: st.mem.leaves[l].key);
    WaitingLeaves(st, b, w, wait);
    SumSize(st.mem.leaves.Keys, live, wait);
  }

  lemma NodeBound(st: Store, b: Book, w: Writer)
    requires Tree(SZ, st.mem, b.up, b.at, Null) && Owned(st.mem, b, Hand(w)) && Ring(st, b, w)
    requires b.nodePool == [] && w.InsDive? && st.mem.root != Null
    ensures |st.mem.nodes| < |b.at| + LIFE
  {
    var live := set n | n in st.mem.nodes && Inner(n) in b.up;
    var wait := set n | n in st.mem.nodes && Inner(n) in b.limbo;
    forall n | n in st.mem.nodes ensures n in live + wait {
      assert Homes(b, Hand(w), Inner(n)) == 1;
    }
    var ns := set p | p in b.up && p.Inner?;
    FewerNodes(SZ, st.mem, b.up, b.at, ns);
    Injection(live, ns, map n | n in live :: Inner(n));
    WaitingNodes(st, b, w, wait);
    SumSize(st.mem.nodes.Keys, live, wait);
  }

  lemma SumSize(zs: set<nat>, xs: set<nat>, ys: set<nat>)
    requires zs <= xs + ys
    ensures |zs| <= |xs| + |ys|
  {
    SubsetSize(zs, xs + ys);
    assert |xs + ys| == |xs| + |ys - xs|;
    SubsetSize(ys - xs, ys);
  }
}
