/** History independence: the shape of the tree is a function of the key set. */
module CritnibShape {
  import opened Digits
  import opened RadixTree
  import opened RadixParts

  /** A tree without addresses and values. */
  datatype Shape = Void | LeafShape(key: Key) | NodeShape(sh: nat, path: Key, kids: seq<Shape>)

  ghost function ShapeOf(z: Size, m: Mem, up: map<Ptr, Place>, p: Ptr): Shape
    requires Linked(z, m, up) && (p == Null || p in up)
    decreases if p == Null then 0 else Rank(m, p)
  {
    match p
    case Null => Void
    case Tagged(l) => LeafShape(m.leaves[l].key)
    case Inner(n) =>
      GoodLinked(z, m, up, n);
      NodeShape(m.nodes[n].sh, m.nodes[n].path, seq(z.a, i requires 0 <= i < z.a =>
        ChildLinked(z, m, up, n, i);
        ShapeOf(z, m, up, m.nodes[n].child[i])))
  }

  /** The stored keys below p. */
  ghost function Below(m: Mem, at: map<Key, nat>, p: Ptr): set<Key>
    requires Alloc(m, p)
  {
    set k | k in at && p != Null && Covers(m, p, k)
  }

  /** Something is stored below every linked object. */
  lemma {:induction false} SomeKey(z: Size, m: Mem, up: map<Ptr, Place>, at: map<Key, nat>, p: Ptr) returns (k: Key)
    requires Tree(z, m, up, at, Null) && p in up
    ensures k in Below(m, at, p)
    decreases Rank(m, p)
  {
    if p.Tagged? {
      k := m.leaves[p.id].key;
    } else {
      assert TwoChildren(m.nodes[p.id]);
      var i, j :| 0 <= i < j < |m.nodes[p.id].child| && m.nodes[p.id].child[i] != Null
          && m.nodes[p.id].child[j] != Null;
      k := KeyInSlot(z, m, up, at, p.id, i);
    }
  }

  /** A key below slot i of node n has digit i there. */
  lemma {:induction false} KeyInSlot(z: Size, m: Mem, up: map<Ptr, Place>, at: map<Key, nat>, n: nat,
                                     i: nat) returns (k: Key)
    requires Tree(z, m, up, at, Null) && Inner(n) in up && i < |m.nodes[n].child| && m.nodes[n].child[i] != Null
    ensures k in Below(m, at, Inner(n)) && m.nodes[n].sh < |k| && k[m.nodes[n].sh] == i
    decreases Rank(m, Inner(n)), 0
  {
    assert ObjOk(z, m, up, Inner(n));
    ChildLinked(z, m, up, n, i);
    k := SomeKey(z, m, up, at, m.nodes[n].child[i]);
    InSlot(z, m, up, at, n, i, k);
  }

  lemma InSlot(z: Size, m: Mem, up: map<Ptr, Place>, at: map<Key, nat>, n: nat, i: nat, k: Key)
    requires Linked(z, m, up) && Inner(n) in up && i < z.a && GoodNode(z, m.nodes[n]) && m.nodes[n].child[i] != Null
    requires Alloc(m, m.nodes[n].child[i]) && k in Below(m, at, m.nodes[n].child[i])
    ensures k in Below(m, at, Inner(n)) && m.nodes[n].sh < |k| && k[m.nodes[n].sh] == i
  {
    ChildLinked(z, m, up, n, i);
  }

  /** The keys below slot i are the keys below the node with digit i. */
  lemma SlotKeys(z: Size, m: Mem, up: map<Ptr, Place>, at: map<Key, nat>, n: nat, i: nat, k: Key)
    requires Linked(z, m, up) && Indexed(m, up, at) && Inner(n) in up && i < z.a
    requires k in Below(m, at, Inner(n)) && m.nodes[n].sh < |k| && k[m.nodes[n].sh] == i
    ensures GoodNode(z, m.nodes[n]) && Alloc(m, m.nodes[n].child[i]) && k in Below(m, at, m.nodes[n].child[i])
  {
    ChildLinked(z, m, up, n, i);
    var c := m.nodes[n].child[i];
    OnPath(z, m, up, Inner(n), Tagged(at[k]));
    LeadsUnder(z, m, up, c, k, Tagged(at[k]));
  }

  /** A memory with its places and its index. */
  datatype Grown = Grown(m: Mem, up: map<Ptr, Place>, at: map<Key, nat>)

  ghost predicate Sound(z: Size, g: Grown) {
    Tree(z, g.m, g.up, g.at, Null)
  }

  ghost predicate At(g: Grown, p: Ptr) {
    p == Null || p in g.up
  }

  ghost predicate Alike(z: Size, g: Grown, h: Grown, p: Ptr, q: Ptr) {
    && Sound(z, g) && Sound(z, h) && At(g, p) && At(h, q)
    && Below(g.m, g.at, p) == Below(h.m, h.at, q)
  }

  /** Nothing is stored only below NULL. */
  lemma BothNull(z: Size, g: Grown, h: Grown, p: Ptr, q: Ptr)
    requires Alike(z, g, h, p, q)
    ensures p == Null <==> q == Null
  {
    if p != Null { var k := SomeKey(z, g.m, g.up, g.at, p); }
    if q != Null { var k := SomeKey(z, h.m, h.up, h.at, q); }
  }

  /** A node has two keys below it that part at its digit. */
  lemma Parting(z: Size, g: Grown, n: nat) returns (k: Key, k': Key)
    requires Sound(z, g) && Inner(n) in g.up
    ensures k in Below(g.m, g.at, Inner(n)) && k' in Below(g.m, g.at, Inner(n))
    ensures GoodNode(z, g.m.nodes[n]) && |k| == |k'| == z.d && k[g.m.nodes[n].sh] != k'[g.m.nodes[n].sh]
  {
    assert TwoChildren(g.m.nodes[n]);
    GoodLinked(z, g.m, g.up, n);
    var i: nat, j: nat :| i < j < |g.m.nodes[n].child| && g.m.nodes[n].child[i] != Null
        && g.m.nodes[n].child[j] != Null;
    k := KeyInSlot(z, g.m, g.up, g.at, n, i);
    k' := KeyInSlot(z, g.m, g.up, g.at, n, j);
  }

  /** One key below means a leaf. */
  lemma SameKind(z: Size, g: Grown, h: Grown, p: Ptr, q: Ptr)
    requires Alike(z, g, h, p, q) && p.Tagged?
    ensures q.Tagged? && h.m.leaves[q.id].key == g.m.leaves[p.id].key
  {
    BothNull(z, g, h, p, q);
    var key := g.m.leaves[p.id].key;
    assert key in Below(g.m, g.at, p);
    if q.Inner? {
      var k, k' := Parting(z, h, q.id);
    }
  }

  /** The digit of a node is the highest at which keys below it differ. */
  lemma DigitAtMost(z: Size, g: Grown, h: Grown, n: nat, n': nat)
    requires Alike(z, g, h, Inner(n), Inner(n'))
    ensures g.m.nodes[n].sh <= h.m.nodes[n'].sh
  {
    var k, k' := Parting(z, g, n);
    assert k in Below(h.m, h.at, Inner(n')) && k' in Below(h.m, h.at, Inner(n'));
  }

  lemma SamePath(z: Size, g: Grown, h: Grown, n: nat, n': nat)
    requires Alike(z, g, h, Inner(n), Inner(n')) && g.m.nodes[n].sh == h.m.nodes[n'].sh
    ensures g.m.nodes[n].path == h.m.nodes[n'].path
  {
    var k, k' := Parting(z, g, n);
    assert k in Below(h.m, h.at, Inner(n'));
    GoodLinked(z, h.m, h.up, n');
    var a, b, sh := g.m.nodes[n].path, h.m.nodes[n'].path, g.m.nodes[n].sh;
    assert Masked(a, sh) == Masked(b, sh);
  }

  lemma SameKids(z: Size, g: Grown, h: Grown, n: nat, n': nat, i: nat)
    requires Alike(z, g, h, Inner(n), Inner(n')) && g.m.nodes[n].sh == h.m.nodes[n'].sh && i < z.a
    ensures GoodNode(z, g.m.nodes[n]) && GoodNode(z, h.m.nodes[n'])
    ensures Alike(z, g, h, g.m.nodes[n].child[i], h.m.nodes[n'].child[i])
    ensures Rank(g.m, g.m.nodes[n].child[i]) <= g.m.nodes[n].sh
  {
    ChildLinked(z, g.m, g.up, n, i);
    ChildLinked(z, h.m, h.up, n', i);
    var c, c' := g.m.nodes[n].child[i], h.m.nodes[n'].child[i];
    forall k | k in Below(g.m, g.at, c) ensures k in Below(h.m, h.at, c') {
      InSlot(z, g.m, g.up, g.at, n, i, k);
      SlotKeys(z, h.m, h.up, h.at, n', i, k);
    }
    forall k | k in Below(h.m, h.at, c') ensures k in Below(g.m, g.at, c) {
      InSlot(z, h.m, h.up, h.at, n', i, k);
      SlotKeys(z, g.m, g.up, g.at, n, i, k);
    }
  }

  /** Trees with the same keys below have the same shape. */
  lemma {:induction false} SameShape(z: Size, g: Grown, h: Grown, p: Ptr, q: Ptr)
    requires Alike(z, g, h, p, q)
    ensures ShapeOf(z, g.m, g.up, p) == ShapeOf(z, h.m, h.up, q)
    decreases if p == Null then 0 else Rank(g.m, p)
  {
    BothNull(z, g, h, p, q);
    if p.Tagged? {
      SameKind(z, g, h, p, q);
    } else if q.Tagged? {
      SameKind(z, h, g, q, p);
    } else if p.Inner? {
      DigitAtMost(z, g, h, p.id, q.id);
      DigitAtMost(z, h, g, q.id, p.id);
      SamePath(z, g, h, p.id, q.id);
      forall i: nat | i < z.a
        ensures ShapeOf(z, g.m, g.up, p).kids[i] == ShapeOf(z, h.m, h.up, q).kids[i]
      {
        SameKids(z, g, h, p.id, q.id, i);
        SameShape(z, g, h, g.m.nodes[p.id].child[i], h.m.nodes[q.id].child[i]);
      }
      assert ShapeOf(z, g.m, g.up, p).kids == ShapeOf(z, h.m, h.up, q).kids;
    }
  }

  /** History independence: equal key sets give equal trees, whatever inserts and removes led there. */
  lemma SameKeysSameShape(z: Size, g: Grown, h: Grown)
    requires Sound(z, g) && Sound(z, h) && g.at.Keys == h.at.Keys
    ensures Linked(z, g.m, g.up) && Linked(z, h.m, h.up) && At(g, g.m.root) && At(h, h.m.root)
    ensures ShapeOf(z, g.m, g.up, g.m.root) == ShapeOf(z, h.m, h.up, h.m.root)
  {
    AllBelowRoot(z, g);
    AllBelowRoot(z, h);
    SameShape(z, g, h, g.m.root, h.m.root);
  }

  lemma AllBelowRoot(z: Size, g: Grown)
    requires Sound(z, g)
    ensures At(g, g.m.root) && Alloc(g.m, g.m.root) && Below(g.m, g.at, g.m.root) == g.at.Keys
  {
    forall k | k in g.at ensures k in Below(g.m, g.at, g.m.root) {
      RootLeads(z, g.m, g.up, Tagged(g.at[k]));
      LeadsUnder(z, g.m, g.up, g.m.root, k, Tagged(g.at[k]));
    }
  }
}
