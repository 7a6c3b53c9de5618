/** critbit.c in one thread, for inserts of absent keys. */
module Critbit {
  import opened Digits
  import opened RadixTree
  import opened RadixParts
  import opened RadixUpdates
  import opened CritbitTree

  datatype Errno = Ok | ENOMEM

  class Critbit {
    var root: Ptr
    /** The second halves of the blocks: inner nodes, or zeroed memory. */
    var nodes: map<nat, Node>
    /** The first halves: leaves, with the value in child[0]. */
    var leaves: map<nat, Leaf>
    var deleted: Word
    ghost var up: map<Ptr, Place>
    ghost var at: map<Key, nat>
    ghost var pool: seq<nat>

    ghost function Fields(): Mem
      reads this
    {
      Mem(root, nodes, leaves)
    }

    ghost predicate Valid()
      reads this
    {
      Good(Fields(), deleted, up, at, pool)
    }

    /** The stored entries. */
    ghost function Map(): map<Key, Word>
      requires Valid()
      reads this
    {
      Entries(Fields(), at)
    }

    constructor ()
      ensures Valid() && Map() == map[]
    {
      root, nodes, leaves, deleted := Null, map[], map[], Nil;
      up, at, pool := map[], map[], [];
    }

    /** free_node */
    method FreeNode(l: nat)
      requires l in leaves
      modifies this`leaves, this`deleted
      ensures leaves == old(leaves)[l := old(leaves[l]).(value := old(deleted))] && deleted == Link(l)
    {
      leaves := leaves[l := leaves[l].(value := deleted)];
      deleted := Link(l);
    }

    /** critbit_insert of an absent key; alloc_node never reuses a block, and `block` is what it gets, if it gets any.
        */
    method Insert(key: BitKey, value: Word, room: bool, block: nat) returns (e: Errno)
      requires Valid() && key !in Map() && (room ==> block !in leaves)
      modifies this
      ensures Valid() && (e == Ok <==> room)
      ensures Map() == if room then old(Map())[key := value] else old(Map())
    {
      hide Good;
      if !room { return ENOMEM; }
      var k := block;
      Parts();
      ghost var m0 := Fields();
      leaves := leaves[k := Leaf(key, value)];
      nodes := nodes[k := Node([Null, Null], seq(64, _ => 0), 64)];
      BlockAdded(m0, up, at, pool, deleted, k, leaves[k], nodes[k]);
      EntriesWith(Fields(), Fields(), up, at, k, key);
      if root == Null {
        Planted(Fields(), up, at, pool, deleted, k);
        root := Tagged(k);
        up, at := up[Tagged(k) := Top], at[key := k];
        return Ok;
      }
      Graft(key, k);
      e := Ok;
    }

    lemma Parts()
      requires Valid()
      ensures Tree(BITS, Fields(), up, at, Null) && ChainL(Fields(), deleted, pool) && Distinct(pool)
      ensures forall i :: i in at ==> at[i] in leaves
      ensures Map().Keys == at.Keys
    {
    }

    /** critbit.c:129-136: down while the node's path agrees with the key. */
    method DiveToInsert(key: BitKey) returns (n: Ptr, parent: Place)
      requires Tree(BITS, Fields(), up, at, Null) && root != Null
      ensures Reached(Fields(), up, key, parent, n) && Alloc(Fields(), n)
      ensures n.Inner? ==> Masked(key, nodes[n.id].sh) != nodes[n.id].path
    {
      hide Tree;
      TreeParts(Fields(), up, at, Null);
      n, parent := root, Top;
      DiveStart(Fields(), up, key);
      while n.Inner? && Masked(key, nodes[n.id].sh) == nodes[n.id].path
        invariant Reached(Fields(), up, key, parent, n)
        decreases Rank(Fields(), n)
      {
        DiveStep(Fields(), up, at, key, n.id);
        parent := Slot(n.id, key[nodes[n.id].sh]);
        n := nodes[n.id].child[key[nodes[n.id].sh]];
      }
    }

    /** critbit.c:144-148: the second half of block k becomes the fork of key and the object n. */
    method FillFork(key: BitKey, k: nat, path: Key, n: Ptr, s: nat)
      requires k in nodes && nodes[k].child == [Null, Null] && Keyed(BITS, path) && s < 64 && path[s] != key[s]
      modifies this`nodes
      ensures nodes == old(nodes)[k := Fork(BITS, key, k, path, n, s)]
    {
      nodes := nodes[k := nodes[k].(child := nodes[k].child[key[s] := Tagged(k)])];
      nodes := nodes[k := nodes[k].(child := nodes[k].child[1 - key[s] := n])];
      nodes := nodes[k := nodes[k].(sh := s)];
      nodes := nodes[k := nodes[k].(path := Masked(key, s))];
      assert nodes[k].child == Fork(BITS, key, k, path, n, s).child;
    }

    /** Store a pointer through a parent pointer. */
    method StoreAt(place: Place, p: Ptr)
      requires place.Slot? ==> place.n in nodes && place.i < |nodes[place.n].child|
      modifies this`root, this`nodes
      ensures Fields() == Put(old(Fields()), place, p)
    {
      match place {
        case Top => root := p;
        case Slot(b, i) => nodes := nodes[b := nodes[b].(child := nodes[b].child[i := p])];
      }
    }

    /** critbit.c:138-149 */
    method Graft(key: BitKey, k: nat)
      requires Tree(BITS, Fields(), up, at, Null) && ChainL(Fields(), deleted, pool) && Distinct(pool)
      requires Blocks(Fields(), up, pool, {k})
      requires root != Null && key !in at && k in leaves && leaves[k].key == key && k in nodes
      requires nodes[k].child == [Null, Null]
      modifies this`root, this`nodes, this`up, this`at
      ensures Valid() && at == old(at)[key := k]
    {
      hide Tree, ChainL, Distinct, Blocks, Fork, Reached;
      TreeParts(Fields(), up, at, Null);
      HandFree(Fields(), up, pool, k);
      var n, parent := DiveToInsert(key);
      DiveEnd(Fields(), up, at, key, parent, n);
      var path := if n.Inner? then nodes[n.id].path else leaves[n.id].key;
      var s := TopDiff(path, key);
      ghost var m0 := Fields();
      FillFork(key, k, path, n, s);
      HalfWritten(m0, up, at, pool, deleted, k, nodes[k]);
      ReachedStill(m0, Fields(), up, key, parent, n, k);
      ghost var m1, up1 := Fields(), SpliceUp(Fields(), up, parent, n, k, s, k);
      StoreAt(parent, Inner(k));
      Grafted(m1, Fields(), up, up1, at, pool, deleted, parent, n, k, key);
      up, at := up1, at[key := k];
    }

    /** critbit_get */
    method Get(key: BitKey) returns (value: Word)
      requires Valid()
      ensures value == if key in Map() then Map()[key] else Nil
    {
      hide Good, Tree, Linked;
      Parts();
      TreeParts(Fields(), up, at, Null);
      var n := root;
      if n == Null {
        NoRootNothing(BITS, Fields(), up);
        NoEntries(Fields(), up, at);
        return Nil;
      }
      RootReached(Fields(), up);
      while n.Inner?
        invariant n in up && Leads(Fields(), root, key, n)
        decreases Rank(Fields(), n)
      {
        DiveStep(Fields(), up, at, key, n.id);
        LeadsOn(Fields(), up, root, key, n.id);
        n := nodes[n.id].child[key[nodes[n.id].sh]];
      }
      TreeDecides(Fields(), up, at, key, n);
      return if leaves[n.id].key == key then leaves[n.id].value else Nil;
    }

    /** critbit_remove: returns the value, or NULL. */
    method Remove(key: BitKey) returns (value: Word)
      requires Valid()
      modifies this
      ensures Valid() && Map() == old(Map()) - {key}
      ensures value == if key in old(Map()) then old(Map()[key]) else Nil
    {
      hide Good, Tree, Linked;
      Parts();
      TreeParts(Fields(), up, at, Null);
      if root == Null {
        NoRootNothing(BITS, Fields(), up);
        NoEntries(Fields(), up, at);
        return Nil;
      }
      var k, n, kParent, nParent := DiveToRemove(key);
      TreeDecides(Fields(), up, at, key, k);
      if leaves[k.id].key != key {
        assert old(Map()) - {key} == old(Map());
        return Nil;
      }
      value := leaves[k.id].value;
      Take(key, k.id, n, kParent, nParent);
    }

    /** critbit.c:172-180: blindly down to a leaf k, with its place and its node's place. */
    method DiveToRemove(key: BitKey) returns (k: Ptr, n: nat, kParent: Place, nParent: Place)
      requires Tree(BITS, Fields(), up, at, Null) && Alloc(Fields(), root) && root != Null
      ensures k in up && k.Tagged? && Alloc(Fields(), k) && up[k] == kParent && Leads(Fields(), root, key, k)
      ensures kParent.Slot? ==>
                && kParent.n == n && kParent.i < 2 && Inner(n) in up && up[Inner(n)] == nParent
                && n in nodes && GoodNode(BITS, nodes[n]) && nodes[n].child[kParent.i] == k
      ensures kParent == Top ==> k == root
    {
      hide Tree, Linked;
      TreeParts(Fields(), up, at, Null);
      RootReached(Fields(), up);
      k, n, kParent, nParent := root, 0, Top, Top;
      while k.Inner?
        invariant k in up && up[k] == kParent && Leads(Fields(), root, key, k)
        invariant kParent.Slot? ==>
                    && kParent.n == n && kParent.i < 2 && Inner(n) in up && up[Inner(n)] == nParent
                    && n in nodes && GoodNode(BITS, nodes[n]) && nodes[n].child[kParent.i] == k
        invariant kParent == Top ==> k == root
        decreases Rank(Fields(), k)
      {
        DiveStep(Fields(), up, at, key, k.id);
        LeadsOn(Fields(), up, root, key, k.id);
        nParent, n := kParent, k.id;
        kParent := Slot(n, key[nodes[n].sh]);
        k := nodes[n].child[key[nodes[n].sh]];
      }
    }

    /** critbit.c:163-168 and 185-190: unlink the leaf l and shelve its block. */
    method Take(key: BitKey, l: nat, n: nat, kParent: Place, nParent: Place)
      requires Valid() && Tagged(l) in up && l in leaves && leaves[l].key == key && key in at && at[key] == l
      requires kParent == Top ==> root == Tagged(l)
      requires kParent.Slot? ==>
                 && kParent.n == n && kParent.i < 2 && Inner(n) in up && up[Inner(n)] == nParent
                 && n in nodes && GoodNode(BITS, nodes[n]) && nodes[n].child[kParent.i] == Tagged(l)
      modifies this
      ensures Valid() && Map() == old(Map()) - {key}
    {
      hide Good, Tree, Linked;
      Parts();
      ghost var m0, up1, at1 := Fields(), up - {Tagged(l)}, at - {key};
      if kParent == Top {
        CutRoot(BITS, m0, up, at, l);
        root := Null;
      } else {
        NodePlace(m0, up, at, n, nParent);
        Siblings(m0, up, at, n, kParent.i, l);
        Pruned(m0, up, at, nParent, n, kParent.i, l);
        var c := nodes[n].child[1 - kParent.i];
        StoreAt(nParent, c);
        up1 := RelinkUp(up1, nParent, n, c);
      }
      ghost var m1 := Fields();
      FreeNode(l);
      EntriesWithout(m0, Fields(), up, at, key, l, old(deleted));
      Shelved(m0, m1, Fields(), up, at, up1, at1, pool, old(deleted), l);
      up, at, pool := up1, at1, [l] + pool;
    }

    /** delete_node: every leaf below p goes to the deleted list. */
    method DeleteNode(p: Ptr, ghost m: Mem)
      requires Linked(BITS, m, up) && p in up && nodes == m.nodes && SameKeys(m.leaves, leaves)
      requires ChainL(Fields(), deleted, pool) && Distinct(pool)
      requires forall l :: Tagged(l) in Subtree(m, up, p) ==> l !in pool
      modifies this`leaves, this`deleted, this`pool
      ensures SameKeys(m.leaves, leaves) && ChainL(Fields(), deleted, pool) && Distinct(pool)
      ensures forall l :: l in pool <==> l in old(pool) || Tagged(l) in Subtree(m, up, p)
      decreases Rank(m, p)
    {
      hide Linked;
      LinkedAlloc(m, up);
      if p.Tagged? {
        FreeNode(p.id);
        Longer(old(Fields()), Fields(), old(deleted), pool, p.id);
        pool := [p.id] + pool;
        assert forall q :: q in Subtree(m, up, p) <==> q == p;
        return;
      }
      var c, d := nodes[p.id].child[0], nodes[p.id].child[1];
      TwoParts(m, up, p.id);
      if c != Null { DeleteNode(c, m); }
      if d != Null { DeleteNode(d, m); }
    }

    /** critbit_delete: every block is freed, and none twice. */
    method Delete()
      requires Valid()
      modifies this
      ensures nodes == map[] && leaves == map[]
    {
      hide Linked;
      ghost var m := Fields();
      BelowRoot(m, up);
      if root != Null {
        DeleteNode(root, m);
      }
      assert forall b :: b in leaves <==> b in pool;
      FreeBlocks();
    }

    /** critbit.c:71-79 */
    method FreeBlocks()
      requires ChainL(Fields(), deleted, pool) && Distinct(pool)
      requires forall b :: b in leaves <==> b in pool
      requires forall b :: b in nodes <==> b in pool
      modifies this`nodes, this`leaves
      ensures nodes == map[] && leaves == map[]
    {
      var x := deleted;
      ghost var i := 0;
      while x.Link?
        invariant 0 <= i <= |pool| && x == if i < |pool| then Link(pool[i]) else Nil
        invariant forall b :: b in leaves <==> b in old(leaves) && b !in pool[..i]
        invariant forall b :: b in nodes <==> b in old(nodes) && b !in pool[..i]
        invariant forall b :: b in leaves ==> b in old(leaves) && leaves[b] == old(leaves)[b]
        decreases |pool| - i
      {
        assert LinkL(old(Fields()), pool, i);
        assert pool[..i + 1] == pool[..i] + [pool[i]] && pool[i] !in pool[..i];
        var next := leaves[x.id].value;
        Free(x.id);
        x, i := next, i + 1;
      }
      assert pool[..i] == pool;
    }

    /** Free of a block: it must be there, and both halves are gone afterwards. */
    method Free(b: nat)
      requires b in leaves && b in nodes
      modifies this`nodes, this`leaves
      ensures nodes == old(nodes) - {b} && leaves == old(leaves) - {b}
    {
      nodes, leaves := nodes - {b}, leaves - {b};
    }
  }

  /** Only values differ. */
  ghost predicate SameKeys(a: map<nat, Leaf>, b: map<nat, Leaf>) {
    (forall l :: l in a <==> l in b) && (forall l :: l in a ==> b[l].key == a[l].key)
  }

  lemma LinkedAlloc(m: Mem, up: map<Ptr, Place>)
    requires Linked(BITS, m, up)
    ensures forall q :: q in up ==> q != Null && Alloc(m, q)
    ensures forall q :: q in up && q.Inner? ==> |m.nodes[q.id].child| == 2
  {
    forall q | q in up && q.Inner? ensures |m.nodes[q.id].child| == 2 { GoodLinked(BITS, m, up, q.id); }
  }

  /** The leaves below a node are those below its two children. */
  lemma TwoParts(m: Mem, up: map<Ptr, Place>, n: nat)
    requires Linked(BITS, m, up) && Inner(n) in up
    ensures forall q :: q in up ==> q != Null && Alloc(m, q)
    ensures GoodNode(BITS, m.nodes[n])
    ensures forall i :: 0 <= i < 2 && m.nodes[n].child[i] != Null ==>
              m.nodes[n].child[i] in up && Rank(m, m.nodes[n].child[i]) < Rank(m, Inner(n))
    ensures var c, d := m.nodes[n].child[0], m.nodes[n].child[1];
            && (forall l :: Tagged(l) in Subtree(m, up, Inner(n)) <==>
                  (c != Null && Tagged(l) in Subtree(m, up, c)) || (d != Null && Tagged(l) in Subtree(m, up, d)))
            && (forall l :: c != Null && d != Null && Tagged(l) in Subtree(m, up, c) ==>
                Tagged(l) !in Subtree(m, up, d))
  {
    GoodLinked(BITS, m, up, n);
    ChildLinked(BITS, m, up, n, 0);
    ChildLinked(BITS, m, up, n, 1);
    forall l | Tagged(l) in Subtree(m, up, Inner(n))
      ensures (m.nodes[n].child[0] != Null && Tagged(l) in Subtree(m, up, m.nodes[n].child[0]))
              || (m.nodes[n].child[1] != Null && Tagged(l) in Subtree(m, up, m.nodes[n].child[1])) {
      SlotOfPart(BITS, m, up, n, Tagged(l));
    }
    forall i, l | 0 <= i < 2 && m.nodes[n].child[i] != Null && Tagged(l) in Subtree(m, up, m.nodes[n].child[i])
      ensures Tagged(l) in Subtree(m, up, Inner(n)) && m.nodes[n].sh < |m.leaves[l].key|
      ensures m.leaves[l].key[m.nodes[n].sh] == i {
      PartOfSlot(BITS, m, up, n, i, Tagged(l));
    }
  }

  /** Everything linked is below the root. */
  lemma BelowRoot(m: Mem, up: map<Ptr, Place>)
    requires Linked(BITS, m, up)
    ensures m.root == Null ==> up == map[]
    ensures forall q :: q in up ==> q != Null && Alloc(m, q)
    ensures m.root != Null ==> m.root in up && forall q :: q in up ==> q in Subtree(m, up, m.root)
  {
    if m.root == Null {
      NoRootNothing(BITS, m, up);
    } else {
      forall q | q in up ensures q in Subtree(m, up, m.root) {
        RootLeads(BITS, m, up, q);
        LeadsUnder(BITS, m, up, m.root, Label(m, q), q);
      }
    }
  }
}
