/** The crit-bit tree of critbit.c, which looks at the lowest bit first.

A key is the sequence of its 64 bits with bit b at index 63 - b, so that "lower bits" are higher indices and a
node's `bit` 1 << b is the digit 63 - b. Leaf and inner node of a block share the block's id: the leaf is its first
half, the inner node its second. */
module CritbitTree {
  import opened Digits
  import opened RadixTree
  import opened RadixParts
  import opened RadixUpdates
  import CritnibShape

  type BitKey = k: Key | Keyed(Size(64, 2), k) witness seq(64, _ => 0)

  /** Every block has both halves, and its leaf is live, on the deleted list, or in hand. */
  ghost predicate Blocks(m: Mem, up: map<Ptr, Place>, pool: seq<nat>, hand: set<nat>) {
    && (forall b :: b in m.nodes <==> b in m.leaves)
    && (forall b :: b in m.leaves <==> Tagged(b) in up || b in pool || b in hand)
    && (forall b :: b in pool ==> Tagged(b) !in up && b !in hand)
    && (forall b :: b in hand ==> Tagged(b) !in up && Inner(b) !in up)
  }

  ghost predicate Good(m: Mem, deleted: Word, up: map<Ptr, Place>, at: map<Key, nat>, pool: seq<nat>) {
    Tree(BITS, m, up, at, Null) && ChainL(m, deleted, pool) && Distinct(pool) && Blocks(m, up, pool, {})
  }

  /** A linked inner node lives in a block whose leaf is live or on the deleted list, and only in one of these. */
  lemma PairedBlocks(m: Mem, deleted: Word, up: map<Ptr, Place>, at: map<Key, nat>, pool: seq<nat>, b: nat)
    requires Good(m, deleted, up, at, pool) && Inner(b) in up
    ensures b in m.leaves && (Tagged(b) in up <==> b !in pool)
  {
  }

  // ---------------------------------------------------------------------------------------
  // The critical bit

  /** Below child i of a linked node there is a key whose critical bit is i. */
  lemma KeyWithBit(m: Mem, up: map<Ptr, Place>, n: nat, i: nat) returns (l: nat)
    requires Linked(BITS, m, up) && Inner(n) in up && Bushy(m, up, Null) && i < 2
    ensures Tagged(l) in up && Leads(m, Inner(n), m.leaves[l].key, Tagged(l)) && m.nodes[n].sh < |m.leaves[l].key|
    ensures m.leaves[l].key[m.nodes[n].sh] == i
  {
    assert TwoChildren(m.nodes[n]);
    ChildLinked(BITS, m, up, n, i);
    l := SomeLeaf(BITS, m, up, m.nodes[n].child[i]);
    assert ObjOk(BITS, m, up, Tagged(l));
    OnPath(BITS, m, up, Inner(n), Tagged(l));
  }

  /** `bit` is the lowest bit where keys below a node differ, and `path` is what they have in common below it. */
  lemma CriticalBit(m: Mem, up: map<Ptr, Place>, n: nat) returns (l0: nat, l1: nat)
    requires Linked(BITS, m, up) && Inner(n) in up && Bushy(m, up, Null)
    ensures forall l :: Tagged(l) in up && Leads(m, Inner(n), m.leaves[l].key, Tagged(l)) ==>
              Agree(m.leaves[l].key, m.nodes[n].path, m.nodes[n].sh)
    ensures Tagged(l0) in up && Leads(m, Inner(n), m.leaves[l0].key, Tagged(l0))
    ensures Tagged(l1) in up && Leads(m, Inner(n), m.leaves[l1].key, Tagged(l1))
    ensures m.nodes[n].path == Masked(m.leaves[l0].key, m.nodes[n].sh)
    ensures |m.leaves[l0].key| == |m.leaves[l1].key| && m.leaves[l0].key != m.leaves[l1].key
    ensures m.nodes[n].sh == TopDiff(m.leaves[l0].key, m.leaves[l1].key)
  {
    forall l | Tagged(l) in up && Leads(m, Inner(n), m.leaves[l].key, Tagged(l))
      ensures Agree(m.leaves[l].key, m.nodes[n].path, m.nodes[n].sh)
    {
      LeadsUnder(BITS, m, up, Inner(n), m.leaves[l].key, Tagged(l));
    }
    l0 := KeyWithBit(m, up, n, 0);
    l1 := KeyWithBit(m, up, n, 1);
    GoodLinked(BITS, m, up, n);
    assert ObjOk(BITS, m, up, Tagged(l0)) && ObjOk(BITS, m, up, Tagged(l1));
    MaskedMatch(m.leaves[l0].key, m.nodes[n].path, m.nodes[n].sh);
    LessAt(m.leaves[l0].key, m.leaves[l1].key, m.nodes[n].sh);
  }

  /** The shape of the tree depends on the stored keys alone. */
  lemma ShapeDependsOnKeys(m: Mem, deleted: Word, up: map<Ptr, Place>, at: map<Key, nat>, pool: seq<nat>,
                           m': Mem, deleted': Word, up': map<Ptr, Place>, at': map<Key, nat>, pool': seq<nat>)
    requires Good(m, deleted, up, at, pool) && Good(m', deleted', up', at', pool') && at.Keys == at'.Keys
    ensures m.root == Null || m.root in up
    ensures m'.root == Null || m'.root in up'
    ensures CritnibShape.ShapeOf(BITS, m, up, m.root) == CritnibShape.ShapeOf(BITS, m', up', m'.root)
  {
    CritnibShape.SameKeysSameShape(BITS, CritnibShape.Grown(m, up, at), CritnibShape.Grown(m', up', at'));
  }

  // ---------------------------------------------------------------------------------------
  // The dives

  /** x hangs at place, on key's way down, and key agrees with the path of the node above. */
  ghost predicate Reached(m: Mem, up: map<Ptr, Place>, key: Key, place: Place, x: Ptr) {
    && x in up && up[x] == place
    && (place.Slot? ==> Inner(place.n) in up && place.n in m.nodes && Covers(m, Inner(place.n), key)
                        && m.nodes[place.n].sh < |key| && place.i == key[m.nodes[place.n].sh])
  }

  lemma DiveStart(m: Mem, up: map<Ptr, Place>, key: Key)
    requires Linked(BITS, m, up) && m.root != Null
    ensures Reached(m, up, key, Top, m.root)
  {
  }

  /** One step of the insert dive. */
  lemma DiveStep(m: Mem, up: map<Ptr, Place>, at: map<Key, nat>, key: Key, n: nat)
    requires Tree(BITS, m, up, at, Null) && Inner(n) in up && Keyed(BITS, key)
    ensures GoodNode(BITS, m.nodes[n])
    ensures var c := m.nodes[n].child[key[m.nodes[n].sh]];
            c in up && up[c] == Slot(n, key[m.nodes[n].sh]) && Rank(m, c) < Rank(m, Inner(n))
    ensures Masked(key, m.nodes[n].sh) == m.nodes[n].path ==>
              Reached(m, up, key, Slot(n, key[m.nodes[n].sh]), m.nodes[n].child[key[m.nodes[n].sh]])
  {
    assert ObjOk(BITS, m, up, Inner(n)) && SlotOk(m, up, n, key[m.nodes[n].sh]);
    assert TwoChildren(m.nodes[n]);
    MaskedMatch(key, m.nodes[n].path, m.nodes[n].sh);
  }

  /** Where the dive ends, the label differs from an absent key, at a bit between the object and the node above. */
  lemma DiveEnd(m: Mem, up: map<Ptr, Place>, at: map<Key, nat>, key: Key, place: Place, x: Ptr)
    requires Tree(BITS, m, up, at, Null) && Keyed(BITS, key) && key !in at && Reached(m, up, key, place, x)
    requires x.Inner? ==> Masked(key, m.nodes[x.id].sh) != m.nodes[x.id].path
    ensures Alloc(m, x) && x != Null && Keyed(BITS, Label(m, x)) && Label(m, x) != key
    ensures var s := TopDiff(Label(m, x), key); Rank(m, x) <= s && (place.Slot? ==>
              s < m.nodes[place.n].sh && GoodNode(BITS, m.nodes[place.n]) && place.i < 2)
  {
    assert ObjOk(BITS, m, up, x);
    if x.Inner? { MaskedMatch(key, m.nodes[x.id].path, m.nodes[x.id].sh); }
    if place.Slot? {
      assert ObjOk(BITS, m, up, Inner(place.n)) && SlotOk(m, up, place.n, place.i);
    }
  }

  /** Writing a node outside the tree does not change where the dive is. */
  lemma ReachedStill(m: Mem, m': Mem, up: map<Ptr, Place>, key: Key, place: Place, x: Ptr, k: nat)
    requires Reached(m, up, key, place, x) && Alloc(m, x) && x != Null && Inner(k) !in up && k in m.nodes
    requires m'.root == m.root && m'.leaves == m.leaves && k in m'.nodes && m' == m.(nodes := m.nodes[k := m'.nodes[k]])
    ensures Reached(m', up, key, place, x) && Alloc(m', x) && Label(m', x) == Label(m, x)
    ensures x.Inner? ==> m'.nodes[x.id] == m.nodes[x.id]
    ensures place.Slot? ==> place.n in m.nodes && m'.nodes[place.n] == m.nodes[place.n]
  {
  }

  /** Linking the new block: its second half is the fork above x. */
  lemma Grafted(m: Mem, m': Mem, up: map<Ptr, Place>, up': map<Ptr, Place>, at: map<Key, nat>, pool: seq<nat>,
                deleted: Word, place: Place, x: Ptr, k: nat, key: Key)
    requires Tree(BITS, m, up, at, Null) && ChainL(m, deleted, pool) && Distinct(pool) && Blocks(m, up, pool, {k})
    requires k in m.leaves
    requires m.leaves[k].key == key && Keyed(BITS, key) && key !in at && Reached(m, up, key, place, x)
    requires x.Inner? ==> x.id in m.nodes && Masked(key, m.nodes[x.id].sh) != m.nodes[x.id].path
    requires Alloc(m, x) && x != Null && Keyed(BITS, Label(m, x)) && Label(m, x) != key
    requires m.nodes[k] == Fork(BITS, key, k, Label(m, x), x, TopDiff(Label(m, x), key))
    requires place.Slot? ==> place.i < |m.nodes[place.n].child|
    requires m' == Put(m, place, Inner(k)) && up' == SpliceUp(m, up, place, x, k, TopDiff(Label(m, x), key), k)
    ensures Good(m', deleted, up', at[key := k], pool)
  {
    hide Tree, ChainL, Distinct, Blocks;
    var s := TopDiff(Label(m, x), key);
    DiveEnd(m, up, at, key, place, x);
    HandFree(m, up, pool, k);
    assert CanSplice(BITS, m, up, place, x, k, s, k);
    Splice(BITS, m, up, at, place, x, k, s, k);
    GraftStock(m, up, pool, deleted, place, x, k, s);
  }

  lemma HandFree(m: Mem, up: map<Ptr, Place>, pool: seq<nat>, k: nat)
    requires Blocks(m, up, pool, {k})
    ensures Tagged(k) !in up && Inner(k) !in up && k in m.nodes && k in m.leaves
  {
  }

  /** With the new leaf, the index gives one more entry. */
  lemma EntriesWith(m: Mem, m': Mem, up: map<Ptr, Place>, at: map<Key, nat>, k: nat, key: Key)
    requires Tree(BITS, m, up, at, Null) && k in m.leaves && m'.leaves == m.leaves
    ensures (forall i :: i in at ==> at[i] in m.leaves)
    ensures Entries(m', at[key := k]) == Entries(m, at)[key := m.leaves[k].value]
  {
    TreeParts(m, up, at, Null);
  }

  lemma GraftStock(m: Mem, up: map<Ptr, Place>, pool: seq<nat>, deleted: Word, place: Place, x: Ptr, k: nat, s: nat)
    requires ChainL(m, deleted, pool) && Blocks(m, up, pool, {k}) && CanSplice(BITS, m, up, place, x, k, s, k)
    ensures ChainL(Put(m, place, Inner(k)), deleted, pool)
    ensures Blocks(Put(m, place, Inner(k)), SpliceUp(m, up, place, x, k, s, k), pool, {})
  {
    var m' := Put(m, place, Inner(k));
    forall i | 0 <= i < |pool| ensures LinkL(m', pool, i) { assert LinkL(m, pool, i); }
  }

  lemma Planted(m: Mem, up: map<Ptr, Place>, at: map<Key, nat>, pool: seq<nat>, deleted: Word, k: nat)
    requires Tree(BITS, m, up, at, Null) && ChainL(m, deleted, pool) && Distinct(pool) && Blocks(m, up, pool, {k})
    requires k in m.leaves
    requires Keyed(BITS, m.leaves[k].key) && m.root == Null
    ensures at == map[]
    ensures var m' := Put(m, Top, Tagged(k)); var key := m.leaves[k].key;
            Good(m', deleted, up[Tagged(k) := Top], at[key := k], pool)
  {
    PlantRoot(BITS, m, up, at, k);
    var m' := Put(m, Top, Tagged(k));
    forall i | 0 <= i < |pool| ensures LinkL(m', pool, i) { assert LinkL(m, pool, i); }
  }

  /** A new block does not touch the tree. */
  lemma BlockAdded(m: Mem, up: map<Ptr, Place>, at: map<Key, nat>, pool: seq<nat>, deleted: Word, k: nat, leaf: Leaf,
                   node: Node)
    requires Good(m, deleted, up, at, pool) && k !in m.leaves
    ensures var m' := m.(leaves := m.leaves[k := leaf], nodes := m.nodes[k := node]);
            && Tree(BITS, m', up, at, Null) && ChainL(m', deleted, pool) && Blocks(m', up, pool, {k})
            && Entries(m', at) == Entries(m, at)
  {
    var m' := m.(leaves := m.leaves[k := leaf], nodes := m.nodes[k := node]);
    TreeFrame(BITS, m, m', up, at, Null);
    forall i | 0 <= i < |pool| ensures LinkL(m', pool, i) { assert LinkL(m, pool, i); }
  }

  /** Writing the second half of the block in hand. */
  lemma HalfWritten(m: Mem, up: map<Ptr, Place>, at: map<Key, nat>, pool: seq<nat>, deleted: Word, k: nat, node: Node)
    requires Tree(BITS, m, up, at, Null) && ChainL(m, deleted, pool) && Blocks(m, up, pool, {k}) && k in m.nodes
    ensures var m' := m.(nodes := m.nodes[k := node]);
            && Tree(BITS, m', up, at, Null) && ChainL(m', deleted, pool) && Blocks(m', up, pool, {k})
            && Entries(m', at) == Entries(m, at)
  {
    var m' := m.(nodes := m.nodes[k := node]);
    TreeFrame(BITS, m, m', up, at, Null);
    forall i | 0 <= i < |pool| ensures LinkL(m', pool, i) { assert LinkL(m, pool, i); }
  }

  // ---------------------------------------------------------------------------------------
  // Removal

  lemma {:induction false} LeadsOn(m: Mem, up: map<Ptr, Place>, p: Ptr, key: Key, n: nat)
    requires Linked(BITS, m, up) && p in up && Leads(m, p, key, Inner(n)) && Inner(n) in up && Keyed(BITS, key)
    ensures GoodNode(BITS, m.nodes[n]) && Leads(m, p, key, m.nodes[n].child[key[m.nodes[n].sh]])
    decreases Rank(m, p)
  {
    GoodLinked(BITS, m, up, n);
    if p == Inner(n) {
      ChildLinked(BITS, m, up, n, key[m.nodes[n].sh]);
    } else {
      ChildLinked(BITS, m, up, p.id, key[m.nodes[p.id].sh]);
      LeadsOn(m, up, m.nodes[p.id].child[key[m.nodes[p.id].sh]], key, n);
    }
  }

  lemma TreeParts(m: Mem, up: map<Ptr, Place>, at: map<Key, nat>, thin: Ptr)
    requires Tree(BITS, m, up, at, thin)
    ensures Linked(BITS, m, up) && (forall p :: p in up ==> p != Null && Alloc(m, p))
    ensures (forall k :: k in at ==> at[k] in m.leaves && m.leaves[at[k]].key == k)
  {
  }

  lemma Siblings(m: Mem, up: map<Ptr, Place>, at: map<Key, nat>, n: nat, i: nat, l: nat)
    requires Tree(BITS, m, up, at, Null) && Inner(n) in up && i < 2 && GoodNode(BITS, m.nodes[n])
    requires m.nodes[n].child[i] == Tagged(l)
    ensures l in m.leaves && Tagged(l) in up && up[Tagged(l)] == Slot(n, i)
    ensures var c := m.nodes[n].child[1 - i];
            c != Null && c in up && c != Tagged(l) && c != Inner(n) && up[c] == Slot(n, 1 - i)
  {
    assert TwoChildren(m.nodes[n]);
    assert ObjOk(BITS, m, up, Inner(n)) && SlotOk(m, up, n, 1 - i) && SlotOk(m, up, n, i);
  }

  /** The leaf l in slot i of n is removed: its sibling takes the place of n. */
  lemma Pruned(m: Mem, up: map<Ptr, Place>, at: map<Key, nat>, place: Place, n: nat, i: nat, l: nat)
    requires Tree(BITS, m, up, at, Null) && Inner(n) in up && up[Inner(n)] == place && i < 2
    requires GoodNode(BITS, m.nodes[n]) && m.nodes[n].child[i] == Tagged(l) && l in m.leaves
    requires place.Slot? ==> Inner(place.n) in up && place.i < |m.nodes[place.n].child|
    ensures var c := m.nodes[n].child[1 - i];
            Tree(BITS, Put(m, place, c), RelinkUp(up - {Tagged(l)}, place, n, c), at - {m.leaves[l].key}, Null)
  {
    hide Tree, Linked;
    TreeParts(m, up, at, Null);
    Siblings(m, up, at, n, i, l);
    var m1 := Put(m, Slot(n, i), Null);
    var c := m.nodes[n].child[1 - i];
    Cut(BITS, m, up, at, n, i, l);
    var up1, at1 := up - {Tagged(l)}, at - {m.leaves[l].key};
    TreeParts(m1, up1, at1, Inner(n));
    assert OnlyChild(m1.nodes[n], 1 - i);
    Relink(BITS, m1, up1, at1, place, n, 1 - i);
    if place.Slot? { RelinkSlot(BITS, m1, up1, place, n, 1 - i); }
    Uncut(m, up1, at1, place, n, i, c);
  }

  /** What is left in a node after it is unlinked does not matter. */
  lemma Uncut(m: Mem, up: map<Ptr, Place>, at: map<Key, nat>, place: Place, n: nat, i: nat, c: Ptr)
    requires n in m.nodes && |m.nodes[n].child| == 2 && i < 2 && c != Inner(n)
    requires place.Slot? ==> place.n in m.nodes && place.i < |m.nodes[place.n].child| && place.n != n
    requires Tree(BITS, Put(Put(m, Slot(n, i), Null), place, c), RelinkUp(up, place, n, c), at, Null)
    ensures Tree(BITS, Put(m, place, c), RelinkUp(up, place, n, c), at, Null)
  {
    hide Tree;
    TreeFrame(BITS, Put(Put(m, Slot(n, i), Null), place, c), Put(m, place, c), RelinkUp(up, place, n, c), at, Null);
  }

  /** A leaf that is not on the deleted list is put at its head. */
  lemma Longer(m: Mem, m': Mem, deleted: Word, pool: seq<nat>, l: nat)
    requires ChainL(m, deleted, pool) && Distinct(pool) && l in m.leaves && l !in pool
    requires m'.leaves == m.leaves[l := m.leaves[l].(value := deleted)]
    ensures ChainL(m', Link(l), [l] + pool) && Distinct([l] + pool)
  {
    var pool' := [l] + pool;
    assert LinkL(m', pool', 0);
    forall i | 0 < i < |pool'| ensures LinkL(m', pool', i) { assert pool'[i] == pool[i - 1] && LinkL(m, pool, i - 1); }
  }

  lemma ShelvedBlock(m: Mem, m': Mem, up: map<Ptr, Place>, up': map<Ptr, Place>, pool: seq<nat>, l: nat)
    requires Blocks(m, up, pool, {}) && Tagged(l) in up && l in m.leaves
    requires forall b :: b in m'.nodes <==> b in m.nodes
    requires forall b :: b in m'.leaves <==> b in m.leaves
    requires Tagged(l) !in up' && forall b :: b != l ==> (Tagged(b) in up' <==> Tagged(b) in up)
    ensures Blocks(m', up', [l] + pool, {}) && l !in pool
  {
  }

  /** The removed leaf's block goes to the deleted list. */
  lemma Shelved(m: Mem, m': Mem, m'': Mem, up: map<Ptr, Place>, at: map<Key, nat>, up': map<Ptr, Place>,
                at': map<Key, nat>,
                pool: seq<nat>, deleted: Word, l: nat)
    requires Good(m, deleted, up, at, pool) && Tagged(l) in up && l in m.leaves
    requires Tree(BITS, m', up', at', Null)
    requires m'.leaves == m.leaves && forall b :: b in m'.nodes <==> b in m.nodes
    requires Tagged(l) !in up' && forall b :: b != l ==> (Tagged(b) in up' <==> Tagged(b) in up)
    requires m'' == m'.(leaves := m.leaves[l := m.leaves[l].(value := deleted)])
    ensures Good(m'', Link(l), up', at', [l] + pool)
  {
    hide Tree, Blocks, ChainL, Distinct;
    TreeFrame(BITS, m', m'', up', at', Null);
    ShelvedBlock(m, m'', up, up', pool, l);
    Longer(m, m'', deleted, pool, l);
  }

  /** Without l's key, the index gives the old entries. */
  lemma EntriesWithout(m: Mem, m': Mem, up: map<Ptr, Place>, at: map<Key, nat>, key: Key, l: nat, w: Word)
    requires Tree(BITS, m, up, at, Null) && key in at && at[key] == l && m'.leaves == m.leaves[l := Leaf(key, w)]
    ensures (forall k :: k in at ==> at[k] in m.leaves && at[k] in m'.leaves)
    ensures Entries(m', at - {key}) == Entries(m, at) - {key}
  {
    TreeParts(m, up, at, Null);
  }

  lemma NoEntries(m: Mem, up: map<Ptr, Place>, at: map<Key, nat>)
    requires Tree(BITS, m, up, at, Null) && up == map[]
    ensures at == map[]
  {
    assert forall k :: k !in at;
  }

  lemma RootReached(m: Mem, up: map<Ptr, Place>)
    requires Linked(BITS, m, up) && m.root != Null
    ensures m.root in up && up[m.root] == Top
  {
  }

  /** The blind dive equals the full lookup. */
  lemma TreeDecides(m: Mem, up: map<Ptr, Place>, at: map<Key, nat>, key: Key, e: Ptr)
    requires Tree(BITS, m, up, at, Null) && Keyed(BITS, key) && e in up && e.Tagged? && Alloc(m, m.root)
    requires Leads(m, m.root, key, e)
    ensures e.id in m.leaves && (key in at <==> m.leaves[e.id].key == key) && (key in at ==> at[key] == e.id)
  {
    DiveDecides(BITS, m, up, at, key, e);
  }

  lemma NodePlace(m: Mem, up: map<Ptr, Place>, at: map<Key, nat>, n: nat, place: Place)
    requires Tree(BITS, m, up, at, Null) && Inner(n) in up && up[Inner(n)] == place
    ensures place.Slot? ==> Inner(place.n) in up && place.n in m.nodes && place.i < |m.nodes[place.n].child|
  {
    assert ObjOk(BITS, m, up, Inner(n));
  }
}
