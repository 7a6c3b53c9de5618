/** The stores that change a radix tree, one lemma per store: each keeps `Tree` and says what
    becomes of the index of keys. */
module RadixUpdates {
  import opened Digits
  import opened RadixTree

  /** The memory after writing p at a place. */
  function Put(m: Mem, place: Place, p: Ptr): Mem
    requires place.Slot? ==> place.n in m.nodes && place.i < |m.nodes[place.n].child|
  {
    match place
    case Top => m.(root := p)
    case Slot(n, i) => m.(nodes := m.nodes[n := m.nodes[n].(child := m.nodes[n].child[i := p])])
  }

  /** Linked objects are the same in both memories. */
  ghost predicate SameOn(m: Mem, m': Mem, s: set<Ptr>) {
    && (forall n :: Inner(n) in s && n in m.nodes ==> n in m'.nodes && m'.nodes[n] == m.nodes[n])
    && (forall l :: Tagged(l) in s && l in m.leaves ==> l in m'.leaves && m'.leaves[l] == m.leaves[l])
  }

  /** Linked objects keep key, path and digit position. */
  ghost predicate Steady(m: Mem, m': Mem, up: map<Ptr, Place>) {
    forall q :: q in up ==>
      q != Null && Alloc(m, q) && Alloc(m', q) && Label(m', q) == Label(m, q) && Rank(m', q) == Rank(m, q)
  }

  lemma PutSteady(z: Size, m: Mem, up: map<Ptr, Place>, place: Place, v: Ptr)
    requires Linked(z, m, up)
    requires place.Slot? ==> place.n in m.nodes && place.i < |m.nodes[place.n].child|
    ensures Steady(m, Put(m, place, v), up)
  {
  }

  /** A linked object that is not written to, and whose children keep their places, stays in order. */
  lemma ObjKept(z: Size, m: Mem, m': Mem, up: map<Ptr, Place>, up': map<Ptr, Place>, p: Ptr)
    requires p in up && Steady(m, m', up) && ObjOk(z, m, up, p)
    requires Held(m', up', p)
    requires p.Inner? ==> m'.nodes[p.id] == m.nodes[p.id]
    requires forall c :: c in up && up[c].Slot? && Inner(up[c].n) == p ==> c in up' && up'[c] == up[c]
    ensures ObjOk(z, m', up', p)
  {
    if p.Inner? {
      forall i | 0 <= i < z.a ensures SlotOk(m', up', p.id, i) {
        assert SlotOk(m, up, p.id, i);
      }
    }
  }

  /** The same for a node whose slot x is written. */
  lemma NodeKept(z: Size, m: Mem, m': Mem, up: map<Ptr, Place>, up': map<Ptr, Place>, n: nat, x: nat, v: Ptr)
    requires Inner(n) in up && Steady(m, m', up) && ObjOk(z, m, up, Inner(n))
    requires Held(m', up', Inner(n))
    requires x < z.a && m'.nodes[n] == m.nodes[n].(child := m.nodes[n].child[x := v])
    requires SlotOk(m', up', n, x)
    requires forall c :: c in up && up[c].Slot? && up[c].n == n && up[c].i != x ==> c in up' && up'[c] == up[c]
    ensures ObjOk(z, m', up', Inner(n))
  {
    forall i | 0 <= i < z.a ensures SlotOk(m', up', n, i) {
      assert SlotOk(m, up, n, i);
    }
  }

  /** Nodes that only gain children stay bushy. */
  lemma MoreChildren(m: Mem, m': Mem, up: map<Ptr, Place>, up': map<Ptr, Place>, thin: Ptr)
    requires Bushy(m, up, thin)
    requires forall n :: Inner(n) in up' && Inner(n) != thin && n in m'.nodes ==>
               TwoChildren(m'.nodes[n]) ||
               (n in m.nodes && Inner(n) in up && |m'.nodes[n].child| == |m.nodes[n].child| &&
                forall i :: 0 <= i < |m.nodes[n].child| && m.nodes[n].child[i] != Null ==> m'.nodes[n].child[i] != Null)
    ensures Bushy(m', up', thin)
  {
    forall n | Inner(n) in up' && Inner(n) != thin && n in m'.nodes ensures TwoChildren(m'.nodes[n]) {
      if n in m.nodes && Inner(n) in up {
        assert TwoChildren(m.nodes[n]);
      }
    }
  }

  // ---------------------------------------------------------------------------------------
  // Writes to objects outside the tree do not touch it

  lemma FrameObj(z: Size, m: Mem, m': Mem, up: map<Ptr, Place>, p: Ptr)
    requires Linked(z, m, up) && m'.root == m.root && SameOn(m, m', up.Keys) && p in up
    ensures Alloc(m', p) && ObjOk(z, m', up, p)
  {
    assert ObjOk(z, m, up, p);
    assert Steady(m, m', up);
    ObjKept(z, m, m', up, up, p);
  }

  lemma FrameLinked(z: Size, m: Mem, m': Mem, up: map<Ptr, Place>)
    requires Linked(z, m, up) && m'.root == m.root && SameOn(m, m', up.Keys)
    ensures Linked(z, m', up)
  {
    forall p | p in up ensures Alloc(m', p) && ObjOk(z, m', up, p) {
      FrameObj(z, m, m', up, p);
    }
  }

  lemma TreeFrame(z: Size, m: Mem, m': Mem, up: map<Ptr, Place>, at: map<Key, nat>, thin: Ptr)
    requires Tree(z, m, up, at, thin)
    requires m'.root == m.root && SameOn(m, m', up.Keys)
    ensures Tree(z, m', up, at, thin)
    ensures Entries(m', at) == Entries(m, at)
  {
    FrameLinked(z, m, m', up);
    MoreChildren(m, m', up, up, thin);
  }

  // ---------------------------------------------------------------------------------------
  // The first leaf becomes the root

  lemma PlantRoot(z: Size, m: Mem, up: map<Ptr, Place>, at: map<Key, nat>, l: nat)
    requires Tree(z, m, up, at, Null) && m.root == Null
    requires l in m.leaves && Keyed(z, m.leaves[l].key)
    ensures up == map[] && at == map[]
    ensures Tree(z, Put(m, Top, Tagged(l)), up[Tagged(l) := Top], at[m.leaves[l].key := l], Null)
  {
    NoRootNothing(z, m, up);
  }

  // ---------------------------------------------------------------------------------------
  // A leaf goes into an empty slot of the node on its path

  ghost predicate CanFill(z: Size, m: Mem, up: map<Ptr, Place>, n: nat, l: nat) {
    && l in m.leaves && Tagged(l) !in up && Keyed(z, m.leaves[l].key)
    && Inner(n) in up && n in m.nodes && GoodNode(z, m.nodes[n])
    && Covers(m, Inner(n), m.leaves[l].key)
    && m.nodes[n].child[m.leaves[l].key[m.nodes[n].sh]] == Null
  }

  lemma FillObj(z: Size, m: Mem, up: map<Ptr, Place>, n: nat, l: nat, p: Ptr)
    requires Linked(z, m, up) && CanFill(z, m, up, n, l) && p in up
    ensures var i := m.leaves[l].key[m.nodes[n].sh]; var m' := Put(m, Slot(n, i), Tagged(l));
            Alloc(m', p) && ObjOk(z, m', up[Tagged(l) := Slot(n, i)], p)
  {
    var i := m.leaves[l].key[m.nodes[n].sh];
    var m', up' := Put(m, Slot(n, i), Tagged(l)), up[Tagged(l) := Slot(n, i)];
    assert ObjOk(z, m, up, p);
    PutSteady(z, m, up, Slot(n, i), Tagged(l));
    if p == Inner(n) {
      NodeKept(z, m, m', up, up', n, i, Tagged(l));
    } else {
      ObjKept(z, m, m', up, up', p);
    }
  }

  lemma FillLinked(z: Size, m: Mem, up: map<Ptr, Place>, n: nat, l: nat)
    requires Linked(z, m, up) && CanFill(z, m, up, n, l)
    ensures var i := m.leaves[l].key[m.nodes[n].sh];
            Linked(z, Put(m, Slot(n, i), Tagged(l)), up[Tagged(l) := Slot(n, i)])
  {
    hide Fits;
    var i := m.leaves[l].key[m.nodes[n].sh];
    var m' := Put(m, Slot(n, i), Tagged(l));
    forall p | p in up ensures Alloc(m', p) && ObjOk(z, m', up[Tagged(l) := Slot(n, i)], p) {
      FillObj(z, m, up, n, l, p);
    }
  }

  lemma FillSlot(z: Size, m: Mem, up: map<Ptr, Place>, at: map<Key, nat>, n: nat, l: nat)
    requires Tree(z, m, up, at, Null) && CanFill(z, m, up, n, l)
    ensures var key := m.leaves[l].key; var i := key[m.nodes[n].sh];
            && key !in at
            && Tree(z, Put(m, Slot(n, i), Tagged(l)), up[Tagged(l) := Slot(n, i)], at[key := l], Null)
  {
    var key := m.leaves[l].key;
    var i := key[m.nodes[n].sh];
    assert key !in at by {
      if key in at { OnPath(z, m, up, Inner(n), Tagged(at[key])); }
    }
    FillLinked(z, m, up, n, l);
    MoreChildren(m, Put(m, Slot(n, i), Tagged(l)), up, up[Tagged(l) := Slot(n, i)], Null);
  }

  // ---------------------------------------------------------------------------------------
  // A new node f is spliced in above x, with leaf l beside x

  /** The pointer stored at a place. */
  function Load(m: Mem, place: Place): Ptr
    requires place.Slot? ==> place.n in m.nodes && place.i < |m.nodes[place.n].child|
  {
    match place
    case Top => m.root
    case Slot(n, i) => m.nodes[n].child[i]
  }

  /** The node that critnib_insert builds: x and the leaf l in the slots of the digit s. */
  function Fork(z: Size, key: Key, l: nat, path: Key, x: Ptr, s: nat): Node
    requires Keyed(z, key) && Keyed(z, path) && s < z.d
  {
    Node(seq(z.a, _ => Null)[key[s] := Tagged(l)][path[s] := x], Masked(key, s), s)
  }

  /** x hangs at the place; its label and the key of l part at digit s, below the place's node. */
  ghost predicate CanSplice(z: Size, m: Mem, up: map<Ptr, Place>, place: Place, x: Ptr, l: nat, s: nat, f: nat) {
    && x in up && up[x] == place && Alloc(m, x) && x != Null
    && (place.Slot? ==> Inner(place.n) in up && place.n in m.nodes && place.i < z.a && GoodNode(z, m.nodes[place.n]))
    && l in m.leaves && Tagged(l) !in up && Keyed(z, m.leaves[l].key) && Keyed(z, Label(m, x))
    && f in m.nodes && Inner(f) !in up
    && s < z.d && Rank(m, x) <= s
    && Agree(m.leaves[l].key, Label(m, x), s) && m.leaves[l].key[s] != Label(m, x)[s]
    && (place.Slot? ==> s < m.nodes[place.n].sh)
    && m.nodes[f] == Fork(z, m.leaves[l].key, l, Label(m, x), x, s)
  }

  function SpliceUp(m: Mem, up: map<Ptr, Place>, place: Place, x: Ptr, l: nat, s: nat, f: nat): map<Ptr, Place>
    requires l in m.leaves && x != Null && Alloc(m, x)
    requires s < |Label(m, x)| && s < |m.leaves[l].key| && Label(m, x)[s] >= 0 && m.leaves[l].key[s] >= 0
  {
    up[x := Slot(f, Label(m, x)[s])][Tagged(l) := Slot(f, m.leaves[l].key[s])][Inner(f) := place]
  }

  lemma SpliceAbove(z: Size, m: Mem, up: map<Ptr, Place>, place: Place, x: Ptr, l: nat, s: nat, f: nat)
    requires Linked(z, m, up) && CanSplice(z, m, up, place, x, l, s, f) && place.Slot?
    ensures SlotOk(Put(m, place, Inner(f)), SpliceUp(m, up, place, x, l, s, f), place.n, place.i)
  {
    assert ObjOk(z, m, up, x) && ObjOk(z, m, up, Inner(place.n));
    assert SlotOk(m, up, place.n, place.i);
  }

  lemma SpliceParent(z: Size, m: Mem, up: map<Ptr, Place>, place: Place, x: Ptr, l: nat, s: nat, f: nat)
    requires Linked(z, m, up) && CanSplice(z, m, up, place, x, l, s, f) && place.Slot?
    ensures ObjOk(z, Put(m, place, Inner(f)), SpliceUp(m, up, place, x, l, s, f), Inner(place.n))
  {
    hide Agree, Masked;
    assert ObjOk(z, m, up, Inner(place.n)) && ObjOk(z, m, up, x);
    SpliceAbove(z, m, up, place, x, l, s, f);
    PutSteady(z, m, up, place, Inner(f));
    NodeKept(z, m, Put(m, place, Inner(f)), up, SpliceUp(m, up, place, x, l, s, f), place.n, place.i, Inner(f));
  }

  lemma SpliceOther(z: Size, m: Mem, up: map<Ptr, Place>, place: Place, x: Ptr, l: nat, s: nat, f: nat, p: Ptr)
    requires Linked(z, m, up) && CanSplice(z, m, up, place, x, l, s, f) && p in up
    requires place.Slot? ==> p != Inner(place.n)
    ensures var m' := Put(m, place, Inner(f));
            Alloc(m', p) && ObjOk(z, m', SpliceUp(m, up, place, x, l, s, f), p)
  {
    hide Agree, Masked;
    assert ObjOk(z, m, up, p) && ObjOk(z, m, up, x);
    PutSteady(z, m, up, place, Inner(f));
    ObjKept(z, m, Put(m, place, Inner(f)), up, SpliceUp(m, up, place, x, l, s, f), p);
  }

  lemma SpliceNew(z: Size, m: Mem, up: map<Ptr, Place>, place: Place, x: Ptr, l: nat, s: nat, f: nat, p: Ptr)
    requires Linked(z, m, up) && CanSplice(z, m, up, place, x, l, s, f) && (p == Tagged(l) || p == Inner(f))
    ensures var m' := Put(m, place, Inner(f));
            Alloc(m', p) && ObjOk(z, m', SpliceUp(m, up, place, x, l, s, f), p)
  {
    var m', up' := Put(m, place, Inner(f)), SpliceUp(m, up, place, x, l, s, f);
    MaskedTwice(m.leaves[l].key, s);
    forall i | 0 <= i < z.a ensures SlotOk(m', up', f, i) {
    }
  }

  lemma SpliceLinked(z: Size, m: Mem, up: map<Ptr, Place>, place: Place, x: Ptr, l: nat, s: nat, f: nat)
    requires Linked(z, m, up) && CanSplice(z, m, up, place, x, l, s, f)
    ensures Linked(z, Put(m, place, Inner(f)), SpliceUp(m, up, place, x, l, s, f))
  {
    var m', up' := Put(m, place, Inner(f)), SpliceUp(m, up, place, x, l, s, f);
    forall p | p in up' ensures p != Null && Alloc(m', p) && ObjOk(z, m', up', p) {
      if place.Slot? && p == Inner(place.n) {
        SpliceParent(z, m, up, place, x, l, s, f);
      } else if p in up {
        SpliceOther(z, m, up, place, x, l, s, f, p);
      } else {
        SpliceNew(z, m, up, place, x, l, s, f, p);
      }
    }
    if place == Top { assert ObjOk(z, m, up, x); }
  }

  /** The key of l has no leaf yet: its dive passes x, and x's label differs. */
  lemma SpliceAbsent(z: Size, m: Mem, up: map<Ptr, Place>, at: map<Key, nat>, place: Place, x: Ptr, l: nat, s: nat,
                     f: nat)
    requires Linked(z, m, up) && Indexed(m, up, at) && CanSplice(z, m, up, place, x, l, s, f)
    ensures m.leaves[l].key !in at
  {
    var key := m.leaves[l].key;
    assert ObjOk(z, m, up, x);
    if key in at {
      var t := Tagged(at[key]);
      if place.Slot? {
        var nd := m.nodes[place.n];
        assert ObjOk(z, m, up, Inner(place.n)) && SlotOk(m, up, place.n, place.i);
        OnPath(z, m, up, Inner(place.n), t);
      } else {
        RootLeads(z, m, up, t);
      }
      LeadsUnder(z, m, up, x, key, t);
    }
  }

  lemma SpliceIndexed(z: Size, m: Mem, up: map<Ptr, Place>, at: map<Key, nat>, place: Place, x: Ptr, l: nat, s: nat,
                      f: nat)
    requires Linked(z, m, up) && Indexed(m, up, at) && CanSplice(z, m, up, place, x, l, s, f)
    requires m.leaves[l].key !in at
    ensures Indexed(Put(m, place, Inner(f)), SpliceUp(m, up, place, x, l, s, f), at[m.leaves[l].key := l])
  {
  }

  lemma SpliceBushy(z: Size, m: Mem, up: map<Ptr, Place>, place: Place, x: Ptr, l: nat, s: nat, f: nat)
    requires Linked(z, m, up) && Bushy(m, up, Null) && CanSplice(z, m, up, place, x, l, s, f)
    ensures Bushy(Put(m, place, Inner(f)), SpliceUp(m, up, place, x, l, s, f), Null)
  {
    var m' := Put(m, place, Inner(f));
    var i, j := m.leaves[l].key[s], Label(m, x)[s];
    assert m'.nodes[f].child[i] != Null && m'.nodes[f].child[j] != Null;
    assert TwoChildren(m'.nodes[f]);
    MoreChildren(m, m', up, SpliceUp(m, up, place, x, l, s, f), Null);
  }

  lemma Splice(z: Size, m: Mem, up: map<Ptr, Place>, at: map<Key, nat>, place: Place, x: Ptr, l: nat, s: nat, f: nat)
    requires Tree(z, m, up, at, Null) && CanSplice(z, m, up, place, x, l, s, f)
    ensures m.leaves[l].key !in at
    ensures Tree(z, Put(m, place, Inner(f)), SpliceUp(m, up, place, x, l, s, f), at[m.leaves[l].key := l], Null)
  {
    SpliceAbsent(z, m, up, at, place, x, l, s, f);
    SpliceLinked(z, m, up, place, x, l, s, f);
    SpliceIndexed(z, m, up, at, place, x, l, s, f);
    SpliceBushy(z, m, up, place, x, l, s, f);
  }

  // ---------------------------------------------------------------------------------------
  // A leaf is cut off; its node may be left thin

  lemma CutRoot(z: Size, m: Mem, up: map<Ptr, Place>, at: map<Key, nat>, l: nat)
    requires Tree(z, m, up, at, Null) && m.root == Tagged(l)
    ensures up.Keys == {Tagged(l)} && at == map[m.leaves[l].key := l]
    ensures Tree(z, Put(m, Top, Null), up - {Tagged(l)}, at - {m.leaves[l].key}, Null)
  {
    forall p | p in up ensures p == Tagged(l) {
      RootLeads(z, m, up, p);
    }
    forall k | k in at ensures k == m.leaves[l].key {
      assert Tagged(at[k]) in up;
    }
  }

  lemma CutLinked(z: Size, m: Mem, up: map<Ptr, Place>, n: nat, i: nat, l: nat)
    requires Linked(z, m, up) && Tagged(l) in up && up[Tagged(l)] == Slot(n, i)
    requires Inner(n) in up && GoodNode(z, m.nodes[n]) && i < z.a && m.nodes[n].child[i] == Tagged(l)
    ensures Linked(z, Put(m, Slot(n, i), Null), up - {Tagged(l)})
  {
    var m', up' := Put(m, Slot(n, i), Null), up - {Tagged(l)};
    PutSteady(z, m, up, Slot(n, i), Null);
    forall p | p in up' ensures Alloc(m', p) && ObjOk(z, m', up', p) {
      assert ObjOk(z, m, up, p);
      if p == Inner(n) {
        NodeKept(z, m, m', up, up', n, i, Null);
      } else {
        ObjKept(z, m, m', up, up', p);
      }
    }
  }

  lemma Cut(z: Size, m: Mem, up: map<Ptr, Place>, at: map<Key, nat>, n: nat, i: nat, l: nat)
    requires Tree(z, m, up, at, Null) && Inner(n) in up
    requires GoodNode(z, m.nodes[n]) && i < z.a && m.nodes[n].child[i] == Tagged(l)
    ensures Tagged(l) in up && up[Tagged(l)] == Slot(n, i)
    ensures Tree(z, Put(m, Slot(n, i), Null), up - {Tagged(l)}, at - {m.leaves[l].key}, Inner(n))
  {
    assert ObjOk(z, m, up, Inner(n)) && SlotOk(m, up, n, i);
    CutLinked(z, m, up, n, i, l);
    var m', up' := Put(m, Slot(n, i), Null), up - {Tagged(l)};
    MoreChildren(m, m', up, up', Inner(n));
  }

  // ---------------------------------------------------------------------------------------
  // The only child c of a thin node n takes the place of n

  ghost predicate OnlyChild(nd: Node, i: nat) {
    i < |nd.child| && nd.child[i] != Null && forall j :: 0 <= j < |nd.child| && j != i ==> nd.child[j] == Null
  }

  function RelinkUp(up: map<Ptr, Place>, place: Place, n: nat, c: Ptr): map<Ptr, Place> {
    (up - {Inner(n)})[c := place]
  }

  lemma RelinkSlot(z: Size, m: Mem, up: map<Ptr, Place>, place: Place, n: nat, i: nat)
    requires Linked(z, m, up) && Inner(n) in up && up[Inner(n)] == place && OnlyChild(m.nodes[n], i)
    requires place.Slot? ==> Inner(place.n) in up && place.i < |m.nodes[place.n].child|
    requires place.Slot?
    ensures SlotOk(Put(m, place, m.nodes[n].child[i]), RelinkUp(up, place, n, m.nodes[n].child[i]), place.n, place.i)
    ensures place.n != n
  {
    assert ObjOk(z, m, up, Inner(n)) && ObjOk(z, m, up, Inner(place.n));
    assert SlotOk(m, up, n, i) && SlotOk(m, up, place.n, place.i);
  }

  lemma RelinkObj(z: Size, m: Mem, up: map<Ptr, Place>, place: Place, n: nat, i: nat, p: Ptr)
    requires Linked(z, m, up) && Inner(n) in up && up[Inner(n)] == place && OnlyChild(m.nodes[n], i)
    requires place.Slot? ==> Inner(place.n) in up && place.i < |m.nodes[place.n].child|
    requires p in up && p != Inner(n) && (place.Slot? ==> p != Inner(place.n))
    ensures var m' := Put(m, place, m.nodes[n].child[i]);
            Alloc(m', p) && ObjOk(z, m', RelinkUp(up, place, n, m.nodes[n].child[i]), p)
  {
    var c := m.nodes[n].child[i];
    assert ObjOk(z, m, up, p) && ObjOk(z, m, up, Inner(n));
    assert SlotOk(m, up, n, i);
    PutSteady(z, m, up, place, c);
    ObjKept(z, m, Put(m, place, c), up, RelinkUp(up, place, n, c), p);
  }

  lemma RelinkParent(z: Size, m: Mem, up: map<Ptr, Place>, place: Place, n: nat, i: nat)
    requires Linked(z, m, up) && Inner(n) in up && up[Inner(n)] == place && OnlyChild(m.nodes[n], i)
    requires place.Slot? && Inner(place.n) in up && place.i < |m.nodes[place.n].child|
    ensures ObjOk(z, Put(m, place, m.nodes[n].child[i]), RelinkUp(up, place, n, m.nodes[n].child[i]), Inner(place.n))
  {
    hide Agree, Masked;
    var c := m.nodes[n].child[i];
    RelinkSlot(z, m, up, place, n, i);
    assert ObjOk(z, m, up, Inner(place.n)) && ObjOk(z, m, up, Inner(n));
    assert SlotOk(m, up, n, i);
    PutSteady(z, m, up, place, c);
    NodeKept(z, m, Put(m, place, c), up, RelinkUp(up, place, n, c), place.n, place.i, c);
  }

  lemma RelinkLinked(z: Size, m: Mem, up: map<Ptr, Place>, place: Place, n: nat, i: nat)
    requires Linked(z, m, up) && Inner(n) in up && up[Inner(n)] == place && OnlyChild(m.nodes[n], i)
    requires place.Slot? ==> Inner(place.n) in up && place.i < |m.nodes[place.n].child|
    ensures Linked(z, Put(m, place, m.nodes[n].child[i]), RelinkUp(up, place, n, m.nodes[n].child[i]))
  {
    var c := m.nodes[n].child[i];
    var m', up' := Put(m, place, c), RelinkUp(up, place, n, c);
    assert ObjOk(z, m, up, Inner(n));
    assert SlotOk(m, up, n, i);
    forall p | p in up' ensures Alloc(m', p) && ObjOk(z, m', up', p) {
      if place.Slot? && p == Inner(place.n) {
        RelinkParent(z, m, up, place, n, i);
      } else {
        RelinkObj(z, m, up, place, n, i, p);
      }
    }
  }

  lemma Relink(z: Size, m: Mem, up: map<Ptr, Place>, at: map<Key, nat>, place: Place, n: nat, i: nat)
    requires Tree(z, m, up, at, Inner(n)) && Inner(n) in up && up[Inner(n)] == place && OnlyChild(m.nodes[n], i)
    requires place.Slot? ==> Inner(place.n) in up && place.i < |m.nodes[place.n].child|
    ensures Tree(z, Put(m, place, m.nodes[n].child[i]), RelinkUp(up, place, n, m.nodes[n].child[i]), at, Null)
  {
    var c := m.nodes[n].child[i];
    assert ObjOk(z, m, up, Inner(n));
    assert SlotOk(m, up, n, i);
    RelinkLinked(z, m, up, place, n, i);
    MoreChildren(m, Put(m, place, c), up, RelinkUp(up, place, n, c), Inner(n));
  }
}
