/** Writer steps that leave the tree and the rings alone: allocation, filling in the new leaf and
    node, the dives, and giving a leaf back. */
module CritnibQuiet {
  import opened Digits
  import opened RadixTree
  import opened RadixParts
  import opened RadixUpdates
  import opened CritnibModel
  import opened CritnibInv
  import opened CritnibReaders
  import opened CritnibBound

  // ---------------------------------------------------------------------------------------
  // What does not depend on the step

  ghost predicate KeptSame(mem: Mem, mem': Mem, b: Book) {
    && (forall n :: Kept(b, Inner(n)) && n in mem.nodes ==> n in mem'.nodes && mem'.nodes[n] == mem.nodes[n])
    && (forall l :: Kept(b, Tagged(l)) && l in mem.leaves ==> l in mem'.leaves && mem'.leaves[l] == mem.leaves[l])
  }

  lemma LimboFrame(mem: Mem, mem': Mem, b: Book, b': Book)
    requires Limbo(mem, b) && KeptSame(mem, mem', b)
    requires forall p :: p in b.up ==> p != Null && Alloc(mem, p)
    requires b'.up == b.up && b'.limbo == b.limbo
    ensures Limbo(mem', b')
  {
    forall n | Inner(n) in b.limbo ensures LimboNode(mem', b', n) {
      assert LimboNode(mem, b, n);
      forall i | 0 <= i < 16 ensures LimboSlot(mem', b', n, i) {
        assert LimboSlot(mem, b, n, i);
      }
    }
  }

  lemma HistoryFrame(mem: Mem, mem': Mem, b: Book, b': Book, hist: seq<map<Key, Word>>)
    requires History(mem, b, hist) && Limbo(mem, b) && KeptSame(mem, mem', b)
    requires b'.at == b.at && b'.limbo == b.limbo && Served(mem', b.at) && Entries(mem', b.at) == Entries(mem, b.at)
    ensures History(mem', b', hist + [Entries(mem', b'.at)])
  {
    var hist' := hist + [Entries(mem', b'.at)];
    forall p | p in b'.limbo ensures Epitaph(mem', b', hist', p) {
      assert Epitaph(mem, b, hist, p);
    }
  }

  lemma NextSame(mem: Mem, mem': Mem, n: nat, k: Key, t: Ptr)
    requires n in mem.nodes && n in mem'.nodes && mem'.nodes[n] == mem.nodes[n]
    ensures NextOk(mem, mem', n, k, t)
  {
  }

  /** Nodes whose slots are unchanged steer as before. */
  lemma SteersFrame(s: Sys, s': Sys)
    requires KeptSame(s.st.mem, s'.st.mem, s.b)
    ensures Steers(s, s')
  {
    forall k, n | k in s.b.at && Kept(s.b, Inner(n)) && n in s.st.mem.nodes && n in s'.st.mem.nodes
      ensures NextOk(s.st.mem, s'.st.mem, n, k, Tagged(s.b.at[k]))
    {
      NextSame(s.st.mem, s'.st.mem, n, k, Tagged(s.b.at[k]));
    }
  }

  lemma FatesFrame(s: Sys, s': Sys)
    requires KeptSame(s.st.mem, s'.st.mem, s.b) && s'.b.up == s.b.up && s'.b.limbo == s.b.limbo
    requires forall p :: Kept(s.b, p) ==> p != Null && Alloc(s.st.mem, p)
    ensures Fates(s, s')
  {
    forall p | Kept(s.b, p) ensures Fate(s, s', p) {
    }
  }

  lemma RawAllocated(s: Sys)
    requires Owned(s.st.mem, s.b, Hand(s.w))
    ensures Raw(s.w) != Null ==> Alloc(s.st.mem, Raw(s.w))
  {
    assert Homes(s.b, Hand(s.w), Raw(s.w)) == if Raw(s.w) != Null && Alloc(s.st.mem, Raw(s.w)) then 1 else 0;
  }

  ghost predicate QuietStep(s: Sys, st: Store, b: Book, w: Writer) {
    && KeptSame(s.st.mem, st.mem, s.b) && st.mem.root == s.st.mem.root && s.st.count <= st.count
    && b.up == s.b.up && b.limbo == s.b.limbo && b.at == s.b.at && b.peak == s.b.peak
    && s.st.mem.nodes.Keys <= st.mem.nodes.Keys && s.st.mem.leaves.Keys <= st.mem.leaves.Keys
    && (Raw(w) != Null && Raw(w) != Raw(s.w) ==> !Alloc(s.st.mem, Raw(w)))
    && Thin(w) == Thin(s.w)
  }

  lemma QuietCalm(s: Sys, s': Sys)
    requires Body(s) && Owned(s.st.mem, s.b, Hand(s.w)) && QuietStep(s, s'.st, s'.b, s'.w)
    requires s'.readers == s.readers && |s'.hist| == |s.hist| + 1 && s'.hist[..|s.hist|] == s.hist
    ensures Calm(s, s')
  {
    RawAllocated(s);
    SteersFrame(s, s');
    FatesFrame(s, s');
  }

  lemma Quiet(s: Sys, st: Store, b: Book, w: Writer)
    requires Body(s) && Owned(s.st.mem, s.b, Hand(s.w)) && QuietStep(s, st, b, w)
    ensures Served(st.mem, b.at) && Body(After(s, st, b, w)) && Calm(s, After(s, st, b, w))
  {
    TreeFrame(SZ, s.st.mem, st.mem, s.b.up, s.b.at, Thin(s.w));
    LimboFrame(s.st.mem, st.mem, s.b, b);
    HistoryFrame(s.st.mem, st.mem, s.b, b, s.hist);
    QuietCalm(s, After(s, st, b, w));
  }

  /** An object with a home other than the tree and the rings is not kept. */
  lemma NotKept(mem: Mem, b: Book, hand: set<Ptr>, p: Ptr)
    requires Owned(mem, b, hand) && (p in hand || InPool(b, p) || !Alloc(mem, p))
    ensures !Kept(b, p)
    ensures p in hand ==> p != Null && Alloc(mem, p) && !InPool(b, p)
  {
    assert Homes(b, hand, p) == if p != Null && Alloc(mem, p) then 1 else 0;
  }

  lemma LeafWrite(mem: Mem, b: Book, k: nat, r: Leaf)
    requires !Kept(b, Tagged(k))
    ensures KeptSame(mem, SetLeaf(mem, k, r), b)
  {
  }

  lemma NodeWrite(mem: Mem, b: Book, n: nat, r: Node)
    requires !Kept(b, Inner(n))
    ensures KeptSame(mem, SetNode(mem, n, r), b)
  {
  }

  lemma SafeFrame(mem: Mem, mem': Mem, raw: Ptr)
    requires Safe(mem, raw) && mem'.root == mem.root && mem'.nodes == mem.nodes && mem.leaves.Keys <= mem'.leaves.Keys
    ensures Safe(mem', raw)
  {
    forall n | n in mem'.nodes ensures SafeNode(mem', raw, n) {
      assert SafeNode(mem, raw, n);
    }
  }

  lemma RingFrame(st: Store, st': Store, b: Book, b': Book, w: Writer, w': Writer)
    requires Ring(st, b, w)
    requires st'.pendNodes == st.pendNodes && st'.pendLeaves == st.pendLeaves && st'.count == st.count
    requires b'.limbo == b.limbo && !w.RemTidy? && !w'.RemTidy? && Removing(w') == Removing(w)
    requires forall p :: Slack(w', p) >= Slack(w, p)
    ensures Ring(st', b', w')
  {
    forall p | p in b'.limbo ensures Waits(st', b', w', p) {
      assert Waits(st, b, w, p);
    }
    forall d | 0 <= d < 16 ensures RingSlot(st', b', d) {
      assert RingSlot(st, b, d);
    }
  }

  // ---------------------------------------------------------------------------------------
  // Writing into the new leaf: critnib.c:362-363

  /** The same ids are in use. */
  ghost predicate SameObjects(mem: Mem, mem': Mem) {
    mem'.nodes.Keys == mem.nodes.Keys && mem'.leaves.Keys == mem.leaves.Keys
  }

  lemma PutObjects(mem: Mem, place: Place, v: Ptr)
    requires PlaceOk(mem, place)
    ensures SameObjects(mem, Put(mem, place, v))
  {
  }

  lemma OwnedSame(mem: Mem, mem': Mem, b: Book, hand: set<Ptr>)
    requires Owned(mem, b, hand) && SameObjects(mem, mem')
    ensures Owned(mem', b, hand)
  {
    forall p ensures Homes(b, hand, p) == if p != Null && Alloc(mem', p) then 1 else 0 {
      assert Homes(b, hand, p) == if p != Null && Alloc(mem, p) then 1 else 0;
    }
  }

  /** Free lists do not notice writes to objects that are not in them. */
  lemma ChainsFrame(st: Store, st': Store, b: Book)
    requires Chains(st, b) && st'.deletedNode == st.deletedNode && st'.deletedLeaf == st.deletedLeaf
    requires forall n :: n in b.nodePool && n in st.mem.nodes ==>
               n in st'.mem.nodes && st'.mem.nodes[n] == st.mem.nodes[n]
    requires forall l :: l in b.leafPool && l in st.mem.leaves ==>
               l in st'.mem.leaves && st'.mem.leaves[l] == st.mem.leaves[l]
    ensures Chains(st', b)
  {
    forall i | 0 <= i < |b.nodePool| ensures LinkN(st'.mem, b.nodePool, i) {
      assert LinkN(st.mem, b.nodePool, i);
    }
    forall i | 0 <= i < |b.leafPool| ensures LinkL(st'.mem, b.leafPool, i) {
      assert LinkL(st.mem, b.leafPool, i);
    }
  }

  lemma SameSize(mem: Mem, mem': Mem, b: Book)
    requires Bounded(mem, b) && mem'.nodes.Keys == mem.nodes.Keys && mem'.leaves.Keys == mem.leaves.Keys
    ensures Bounded(mem', b)
  {
    assert |mem.nodes| == |mem.nodes.Keys| && |mem'.nodes| == |mem'.nodes.Keys|;
    assert |mem.leaves| == |mem.leaves.Keys| && |mem'.leaves| == |mem'.leaves.Keys|;
  }

  lemma SetLeafStock(s: Sys, s': Sys, r: Leaf)
    requires Stock(s) && (s.w.InsKey? || s.w.InsVal?) && (s'.w.InsVal? || s'.w.InsDive?) && s'.w.k == s.w.k
    requires s'.st == s.st.(mem := SetLeaf(s.st.mem, s.w.k, r)) && s'.b == s.b
    ensures Stock(s')
    ensures QuietStep(s, s'.st, s'.b, s'.w)
  {
    NotKept(s.st.mem, s.b, Hand(s.w), Tagged(s.w.k));
    LeafWrite(s.st.mem, s.b, s.w.k, r);
    OwnedSame(s.st.mem, s'.st.mem, s.b, Hand(s.w));
    ChainsFrame(s.st, s'.st, s.b);
    SafeFrame(s.st.mem, s'.st.mem, Null);
    RingFrame(s.st, s'.st, s.b, s.b, s.w, s'.w);
    SameSize(s.st.mem, s'.st.mem, s.b);
  }

  lemma WriteKeyOk(s: Sys)
    requires Core(s) && Ready(s) && s.w.InsKey?
    ensures Core(WriteKey(s)) && Calm(s, WriteKey(s))
  {
    var s' := WriteKey(s);
    SetLeafStock(s, s', s.st.mem.leaves[s.w.k].(key := s.w.key));
    Quiet(s, s'.st, s'.b, s'.w);
  }

  lemma WriteValOk(s: Sys)
    requires Core(s) && Ready(s) && s.w.InsVal?
    ensures Core(WriteVal(s)) && Calm(s, WriteVal(s))
  {
    var s' := WriteVal(s);
    SetLeafStock(s, s', s.st.mem.leaves[s.w.k].(value := s.w.value));
    Quiet(s, s'.st, s'.b, s'.w);
  }

  // ---------------------------------------------------------------------------------------
  // Taking a leaf: critnib.c:355-360

  lemma PopDistinct(s: seq<nat>)
    requires Distinct(s) && s != []
    ensures Distinct(s[1..]) && forall x :: x in s[1..] <==> x in s && x != s[0]
  {
    assert s == [s[0]] + s[1..];
  }

  lemma PushDistinct(s: seq<nat>, k: nat)
    requires Distinct(s) && k !in s
    ensures Distinct([k] + s) && forall x :: x in [k] + s <==> x in s || x == k
  {
  }

  lemma PopLeafOwned(mem: Mem, b: Book, hand: set<Ptr>)
    requires Owned(mem, b, hand) && b.leafPool != []
    ensures Owned(mem, b.(leafPool := b.leafPool[1..]), hand + {Tagged(b.leafPool[0])})
  {
    var b' := b.(leafPool := b.leafPool[1..]);
    var hand' := hand + {Tagged(b.leafPool[0])};
    PopDistinct(b.leafPool);
    forall p ensures Homes(b', hand', p) == if p != Null && Alloc(mem, p) then 1 else 0 {
      assert Homes(b, hand, p) == if p != Null && Alloc(mem, p) then 1 else 0;
    }
  }

  lemma NewLeafOwned(mem: Mem, b: Book, hand: set<Ptr>, k: nat, r: Leaf)
    requires Owned(mem, b, hand) && k !in mem.leaves
    ensures Owned(SetLeaf(mem, k, r), b, hand + {Tagged(k)})
  {
    forall p ensures Homes(b, hand + {Tagged(k)}, p) == if p != Null && Alloc(SetLeaf(mem, k, r), p) then 1 else 0 {
      assert Homes(b, hand, p) == if p != Null && Alloc(mem, p) then 1 else 0;
    }
  }

  ghost predicate PopsLeaf(s: Sys, s': Sys) {
    && s.st.deletedLeaf.Link? && s.b.leafPool != [] && s'.w.InsKey? && s'.w.k == s.st.deletedLeaf.id
    && s'.w.k in s.st.mem.leaves
    && s'.st == s.st.(deletedLeaf := s.st.mem.leaves[s'.w.k].value) && s'.b == s.b.(leafPool := s.b.leafPool[1..])
  }

  lemma PopLeafChains(s: Sys, s': Sys)
    requires Chains(s.st, s.b) && PopsLeaf(s, s')
    ensures Chains(s'.st, s'.b)
  {
    assert LinkL(s.st.mem, s.b.leafPool, 0);
    forall i | 0 <= i < |s'.b.leafPool| ensures LinkL(s'.st.mem, s'.b.leafPool, i) {
      assert LinkL(s.st.mem, s.b.leafPool, i + 1);
    }
    forall i | 0 <= i < |s.b.nodePool| ensures LinkN(s'.st.mem, s.b.nodePool, i) {
      assert LinkN(s.st.mem, s.b.nodePool, i);
    }
  }

  lemma PopLeafStock(s: Sys, s': Sys)
    requires Stock(s) && s.w.Idle? && PopsLeaf(s, s')
    ensures Stock(s') && QuietStep(s, s'.st, s'.b, s'.w)
  {
    PopLeafOwned(s.st.mem, s.b, {});
    assert Hand(s'.w) == {} + {Tagged(s.b.leafPool[0])};
    PopLeafChains(s, s');
    RingFrame(s.st, s'.st, s.b, s'.b, s.w, s'.w);
  }

  lemma NewLeafStock(s: Sys, s': Sys, r: Leaf)
    requires Stock(s) && Tree(SZ, s.st.mem, s.b.up, s.b.at, Null) && s.w.Idle? && s'.w.InsKey?
    requires !s.st.deletedLeaf.Link? && s'.w.k !in s.st.mem.leaves
    requires s'.st == s.st.(mem := SetLeaf(s.st.mem, s'.w.k, r)) && s'.b == s.b
    ensures Stock(s') && QuietStep(s, s'.st, s'.b, s'.w)
  {
    hide Owned, Ring, Safe, Bounded, Tree;
    NotKept(s.st.mem, s.b, {}, Tagged(s'.w.k));
    LeafWrite(s.st.mem, s.b, s'.w.k, r);
    NewLeafOwned(s.st.mem, s.b, {}, s'.w.k, r);
    assert Hand(s'.w) == {} + {Tagged(s'.w.k)};
    ChainsFrame(s.st, s'.st, s.b);
    SafeFrame(s.st.mem, s'.st.mem, Null);
    RingFrame(s.st, s'.st, s.b, s.b, s.w, s'.w);
    NewLeafBounded(s, s'.w.k, r);
  }

  lemma NewLeafBounded(s: Sys, k: nat, r: Leaf)
    requires Stock(s) && Tree(SZ, s.st.mem, s.b.up, s.b.at, Null) && s.w.Idle?
    requires !s.st.deletedLeaf.Link? && k !in s.st.mem.leaves
    ensures Bounded(SetLeaf(s.st.mem, k, r), s.b)
  {
    LeafBound(s.st, s.b, s.w);
    assert SetLeaf(s.st.mem, k, r).leaves.Keys == s.st.mem.leaves.Keys + {k};
  }

  lemma BeginInsertOk(s: Sys, key: Nibbles, value: Word, mal: Malloc)
    requires Core(s) && Ready(s) && s.w.Idle?
    ensures Core(BeginInsert(s, key, value, mal)) && Calm(s, BeginInsert(s, key, value, mal))
  {
    var s' := BeginInsert(s, key, value, mal);
    if s'.w.Idle? {
      RingFrame(s.st, s'.st, s.b, s'.b, s.w, s'.w);
    } else if s.st.deletedLeaf.Link? {
      assert LinkL(s.st.mem, s.b.leafPool, 0);
      PopLeafStock(s, s');
    } else {
      NewLeafStock(s, s', mal.leaf);
    }
    Quiet(s, s'.st, s'.b, s'.w);
  }

  // ---------------------------------------------------------------------------------------
  // Giving the leaf back: critnib.c:399, 412

  lemma FreeLeafOwned(mem: Mem, b: Book, hand: set<Ptr>, k: nat, r: Leaf)
    requires Owned(mem, b, hand) && Tagged(k) in hand && k in mem.leaves
    ensures Owned(SetLeaf(mem, k, r), b.(leafPool := [k] + b.leafPool), hand - {Tagged(k)})
  {
    var b' := b.(leafPool := [k] + b.leafPool);
    NotKept(mem, b, hand, Tagged(k));
    PushDistinct(b.leafPool, k);
    forall p ensures Homes(b', hand - {Tagged(k)}, p) == if p != Null && Alloc(SetLeaf(mem, k, r), p) then 1 else 0 {
      assert Homes(b, hand, p) == if p != Null && Alloc(mem, p) then 1 else 0;
    }
  }

  lemma FreeLeafChains(st: Store, b: Book, k: nat)
    requires Chains(st, b) && k in st.mem.leaves && k !in b.leafPool
    ensures Chains(FreeLeaf(st, b, k).0, FreeLeaf(st, b, k).1)
  {
    var (st', b') := FreeLeaf(st, b, k);
    forall i | 0 <= i < |b'.leafPool| ensures LinkL(st'.mem, b'.leafPool, i) {
      if i > 0 { assert LinkL(st.mem, b.leafPool, i - 1); }
    }
    forall i | 0 <= i < |b.nodePool| ensures LinkN(st'.mem, b.nodePool, i) {
      assert LinkN(st.mem, b.nodePool, i);
    }
  }

  lemma FreeLeafStock(s: Sys, s': Sys)
    requires Stock(s) && s.w.InsDive? && s'.w.Idle? && s.w.k in s.st.mem.leaves
    requires (s'.st, s'.b) == FreeLeaf(s.st, s.b, s.w.k)
    ensures Stock(s') && QuietStep(s, s'.st, s'.b, s'.w)
  {
    var k := s.w.k;
    NotKept(s.st.mem, s.b, Hand(s.w), Tagged(k));
    LeafWrite(s.st.mem, s.b, k, s'.st.mem.leaves[k]);
    FreeLeafOwned(s.st.mem, s.b, Hand(s.w), k, s'.st.mem.leaves[k]);
    assert Hand(s'.w) == Hand(s.w) - {Tagged(k)};
    FreeLeafChains(s.st, s.b, k);
    SafeFrame(s.st.mem, s'.st.mem, Null);
    RingFrame(s.st, s'.st, s.b, s'.b, s.w, s'.w);
    SameSize(s.st.mem, s'.st.mem, s.b);
  }

  // ---------------------------------------------------------------------------------------
  // Taking a node: critnib.c:410-417

  lemma PopNodeOwned(mem: Mem, b: Book, hand: set<Ptr>)
    requires Owned(mem, b, hand) && b.nodePool != []
    ensures Owned(mem, b.(nodePool := b.nodePool[1..]), hand + {Inner(b.nodePool[0])})
  {
    var b' := b.(nodePool := b.nodePool[1..]);
    var hand' := hand + {Inner(b.nodePool[0])};
    PopDistinct(b.nodePool);
    forall p ensures Homes(b', hand', p) == if p != Null && Alloc(mem, p) then 1 else 0 {
      assert Homes(b, hand, p) == if p != Null && Alloc(mem, p) then 1 else 0;
    }
  }

  lemma PopNodeChains(st: Store, b: Book)
    requires Chains(st, b) && st.deletedNode.Inner?
    ensures b.nodePool != [] && st.deletedNode.id == b.nodePool[0] && LinkN(st.mem, b.nodePool, 0)
    ensures Chains(st.(deletedNode := st.mem.nodes[st.deletedNode.id].child[0]), b.(nodePool := b.nodePool[1..]))
  {
    assert LinkN(st.mem, b.nodePool, 0);
    forall i | 0 <= i < |b.nodePool[1..]| ensures LinkN(st.mem, b.nodePool[1..], i) {
      assert LinkN(st.mem, b.nodePool, i + 1);
    }
  }

  lemma NewNodeOwned(mem: Mem, b: Book, hand: set<Ptr>, n: nat, r: Node)
    requires Owned(mem, b, hand) && n !in mem.nodes
    ensures Owned(SetNode(mem, n, r), b, hand + {Inner(n)})
  {
    forall p ensures Homes(b, hand + {Inner(n)}, p) == if p != Null && Alloc(SetNode(mem, n, r), p) then 1 else 0 {
      assert Homes(b, hand, p) == if p != Null && Alloc(mem, p) then 1 else 0;
    }
  }

  /** Nothing points at a node that was not there. */
  lemma NewNodeSafe(mem: Mem, n: nat, r: Node)
    requires Safe(mem, Null) && n !in mem.nodes && |r.child| == 16
    ensures Safe(SetNode(mem, n, r), Inner(n))
  {
    var mem' := SetNode(mem, n, r);
    forall x | x in mem'.nodes ensures SafeNode(mem', Inner(n), x) {
      if x != n { assert SafeNode(mem, Null, x); }
    }
  }

  lemma NewNodeBounded(s: Sys, n: nat, r: Node)
    requires Stock(s) && Tree(SZ, s.st.mem, s.b.up, s.b.at, Null) && s.w.InsDive? && s.st.mem.root != Null
    requires !s.st.deletedNode.Inner? && n !in s.st.mem.nodes
    ensures Bounded(SetNode(s.st.mem, n, r), s.b)
  {
    NodeBound(s.st, s.b, s.w);
    assert SetNode(s.st.mem, n, r).nodes.Keys == s.st.mem.nodes.Keys + {n};
  }

  lemma PopNodeStock(s: Sys, s': Sys)
    requires Stock(s) && s.w.InsDive? && s.st.deletedNode.Inner? && s.st.deletedNode.id in s.st.mem.nodes
    requires |s.st.mem.nodes[s.st.deletedNode.id].child| == 16 && s.b.nodePool != []
    requires s'.st == s.st.(deletedNode := s.st.mem.nodes[s.st.deletedNode.id].child[0])
    requires s'.b == s.b.(nodePool := s.b.nodePool[1..])
    requires s'.w.InsBuild? && s'.w.k == s.w.k && s'.w.m == s.st.deletedNode.id && !s'.w.raw
    ensures Stock(s') && QuietStep(s, s'.st, s'.b, s'.w)
  {
    PopNodeChains(s.st, s.b);
    PopNodeOwned(s.st.mem, s.b, Hand(s.w));
    assert Hand(s'.w) == Hand(s.w) + {Inner(s.b.nodePool[0])};
    RingFrame(s.st, s'.st, s.b, s'.b, s.w, s'.w);
  }

  lemma NewNodeStock(s: Sys, s': Sys, r: Node)
    requires Stock(s) && Tree(SZ, s.st.mem, s.b.up, s.b.at, Null) && s.w.InsDive? && s.st.mem.root != Null
    requires !s.st.deletedNode.Inner? && |r.child| == 16
    requires s'.w.InsBuild? && s'.w.k == s.w.k && s'.w.m !in s.st.mem.nodes && s'.w.raw
    requires s'.st == s.st.(mem := SetNode(s.st.mem, s'.w.m, r)) && s'.b == s.b
    ensures Stock(s') && QuietStep(s, s'.st, s'.b, s'.w)
  {
    hide Owned, Ring, Safe, Bounded, Tree;
    var m := s'.w.m;
    NotKept(s.st.mem, s.b, Hand(s.w), Inner(m));
    NodeWrite(s.st.mem, s.b, m, r);
    NewNodeOwned(s.st.mem, s.b, Hand(s.w), m, r);
    assert Hand(s'.w) == Hand(s.w) + {Inner(m)};
    NewNodeSafe(s.st.mem, m, r);
    NewNodeBounded(s, m, r);
    ChainsFrame(s.st, s'.st, s.b);
    RingFrame(s.st, s'.st, s.b, s.b, s.w, s'.w);
  }

  // ---------------------------------------------------------------------------------------
  // Filling in the node: critnib.c:419-425

  lemma SetNodeSafe(mem: Mem, raw: Ptr, n: nat, r: Node)
    requires Safe(mem, raw) && n in mem.nodes && |r.child| == 16
    requires Inner(n) != raw ==>
               r.sh < 16 && forall i :: 0 <= i < 16 ==> Alloc(mem, r.child[i]) && (raw != Null ==> r.child[i] != raw)
    ensures Safe(SetNode(mem, n, r), raw)
  {
    var mem' := SetNode(mem, n, r);
    forall x | x in mem'.nodes ensures SafeNode(mem', raw, x) {
      assert SafeNode(mem, raw, x);
    }
  }

  lemma SetNodeStock(s: Sys, s': Sys, r: Node)
    requires Stock(s) && s.w.InsBuild? && s.w.m in s.st.mem.nodes && s'.w.InsBuild? && s'.w == s.w.(stage := s'.w.stage)
    requires s'.st == s.st.(mem := SetNode(s.st.mem, s.w.m, r)) && s'.b == s.b
    requires |r.child| == 16 && (!s.w.raw ==> r.sh < 16 && forall i :: 0 <= i < 16 ==> Alloc(s.st.mem, r.child[i]))
    ensures Stock(s') && QuietStep(s, s'.st, s'.b, s'.w)
  {
    var m := s.w.m;
    NotKept(s.st.mem, s.b, Hand(s.w), Inner(m));
    NodeWrite(s.st.mem, s.b, m, r);
    OwnedSame(s.st.mem, s'.st.mem, s.b, Hand(s.w));
    SetNodeSafe(s.st.mem, Raw(s.w), m, r);
    ChainsFrame(s.st, s'.st, s.b);
    SameSize(s.st.mem, s'.st.mem, s.b);
    RingFrame(s.st, s'.st, s.b, s.b, s.w, s'.w);
  }

  /** The node under construction makes progress. */
  lemma BuiltProgress(s: Sys)
    requires Body(s) && WriterOk(s) && Ready(s) && s.w.InsBuild? && s.w.stage < 20
    requires !Kept(s.b, Inner(s.w.m))
    ensures Building(SetNode(s.st.mem, s.w.m, Built(s)), s.b, s.w.key, s.w.k, s.w.parent, s.w.m, s.w.stage + 1)
  {
    hide Limbo, History, Indexed, Bushy;
    var InsBuild(key, _, k, parent, m, raw, stage) := s.w;
    var mem, mem' := s.st.mem, SetNode(s.st.mem, m, Built(s));
    var x := Load(mem, parent);
    assert Load(mem', parent) == x;
    var path := Label(mem, x);
    var sh := TopDiff(path, key);
    assert Progress(mem.nodes[m], key, k, x, path, sh, stage);
    assert Progress(Built(s), key, k, x, path, sh, stage + 1);
  }

  lemma BuildOk(s: Sys)
    requires Core(s) && Ready(s) && s.w.InsBuild? && s.w.stage < 20
    ensures Core(BuildInsert(s)) && Calm(s, BuildInsert(s))
  {
    hide Owned, Ring, Tree;
    var s' := BuildInsert(s);
    NotKept(s.st.mem, s.b, Hand(s.w), Inner(s.w.m));
    assert SafeNode(s.st.mem, Raw(s.w), s.w.m);
    SetNodeStock(s, s', Built(s));
    BuiltProgress(s);
    Quiet(s, s'.st, s'.b, s'.w);
  }

  // ---------------------------------------------------------------------------------------
  // The insert dive, up to the store that publishes: critnib.c:376-417

  lemma DiveOnEffect(s: Sys)
    requires Ready(s) && s.w.InsDive?
    requires var n := Load(s.st.mem, s.w.parent);
             n.Inner? && Masked(s.w.key, s.st.mem.nodes[n.id].sh) == s.st.mem.nodes[n.id].path
    ensures var n := Load(s.st.mem, s.w.parent).id;
            DiveInsert(s, NoMem) == After(s, s.st, s.b,
              InsDive(s.w.key, s.w.value, s.w.k, Slot(n, s.w.key[s.st.mem.nodes[n].sh])))
  {
    hide Entries;
  }

  lemma DiveOnStock(s: Sys, s': Sys)
    requires Stock(s) && s.w.InsDive? && s'.w.InsDive? && s'.w.k == s.w.k && s'.st == s.st && s'.b == s.b
    ensures Stock(s') && QuietStep(s, s'.st, s'.b, s'.w)
  {
    hide Ring, Owned, Safe;
    RingFrame(s.st, s'.st, s.b, s'.b, s.w, s'.w);
  }

  /** The dive stays on the key's path. */
  lemma DiveMoves(s: Sys)
    requires Core(s) && Ready(s) && s.w.InsDive?
    requires var n := Load(s.st.mem, s.w.parent);
             n.Inner? && Masked(s.w.key, s.st.mem.nodes[n.id].sh) == s.st.mem.nodes[n.id].path
    ensures Core(DiveInsert(s, NoMem)) && Calm(s, DiveInsert(s, NoMem))
  {
    hide Limbo, History, Owned, Ring, Safe, Chains, Bounded, DiveInsert, Calm, QuietStep;
    var s' := DiveInsert(s, NoMem);
    var n := Load(s.st.mem, s.w.parent);
    PlaceReady(s, s.w.parent);
    assert ObjOk(SZ, s.st.mem, s.b.up, n);
    MaskedMatch(s.w.key, s.st.mem.nodes[n.id].path, s.st.mem.nodes[n.id].sh);
    DiveOnEffect(s);
    DiveOnStock(s, s');
    Quiet(s, s'.st, s'.b, s'.w);
  }

  lemma GiveBackOk(s: Sys, e: Errno)
    requires Core(s) && Ready(s) && s.w.InsDive?
    ensures var (st, b) := FreeLeaf(s.st, s.b, s.w.k);
            && Served(st.mem, b.at)
            && Core(After(s, st, b, Idle(Code(e)))) && Calm(s, After(s, st, b, Idle(Code(e))))
  {
    var (st, b) := FreeLeaf(s.st, s.b, s.w.k);
    FreeLeafStock(s, Sys(st, Idle(Code(e)), s.readers, b, s.hist));
    Quiet(s, st, b, Idle(Code(e)));
  }

  /** critnib.c:398: equal labels mean a leaf; a node that stopped the dive has another path. */
  lemma StopReason(s: Sys)
    requires Core(s) && Ready(s) && s.w.InsDive?
    requires var n := Load(s.st.mem, s.w.parent);
             n != Null && !(n.Inner? && Masked(s.w.key, s.st.mem.nodes[n.id].sh) == s.st.mem.nodes[n.id].path)
    ensures var n := Load(s.st.mem, s.w.parent);
            && n in s.b.up && s.b.up[n] == s.w.parent
            && (n.Inner? ==> !Covers(s.st.mem, n, s.w.key))
            && (Label(s.st.mem, n) == s.w.key ==> n.Tagged?)
  {
    var n := Load(s.st.mem, s.w.parent);
    PlaceReady(s, s.w.parent);
    if n.Inner? {
      assert ObjOk(SZ, s.st.mem, s.b.up, n);
      MaskedMatch(s.w.key, s.st.mem.nodes[n.id].path, s.st.mem.nodes[n.id].sh);
    }
  }

  lemma StartBuild(s: Sys, mal: Malloc)
    requires Core(s) && Ready(s) && s.w.InsDive?
    requires var n := Load(s.st.mem, s.w.parent);
             && n != Null && !(n.Inner? && Masked(s.w.key, s.st.mem.nodes[n.id].sh) == s.st.mem.nodes[n.id].path)
             && Label(s.st.mem, n) != s.w.key
    requires AllocNode(s.st, s.b, mal).2 != Null
    ensures Stock(DiveInsert(s, mal)) && QuietStep(s, DiveInsert(s, mal).st, DiveInsert(s, mal).b, DiveInsert(s, mal).w)
    ensures DiveInsert(s, mal).w == InsBuild(s.w.key, s.w.value, s.w.k, s.w.parent, AllocNode(s.st, s.b, mal).2.id,
                !s.st.deletedNode.Inner?, 0)
  {
    var s' := DiveInsert(s, mal);
    if s.st.deletedNode.Inner? {
      PopNodeChains(s.st, s.b);
      PopNodeStock(s, s');
    } else {
      StopReason(s);
      RootLeads(SZ, s.st.mem, s.b.up, Load(s.st.mem, s.w.parent));
      NewNodeStock(s, s', mal.node);
    }
  }

  lemma StartBuildOk(s: Sys, mal: Malloc)
    requires Core(s) && Ready(s) && s.w.InsDive?
    requires var n := Load(s.st.mem, s.w.parent);
             && n != Null && !(n.Inner? && Masked(s.w.key, s.st.mem.nodes[n.id].sh) == s.st.mem.nodes[n.id].path)
             && Label(s.st.mem, n) != s.w.key
    requires AllocNode(s.st, s.b, mal).2 != Null
    ensures Core(DiveInsert(s, mal)) && Calm(s, DiveInsert(s, mal))
  {
    hide Tree, Limbo, History, Owned, Ring, Safe, Bounded;
    var s' := DiveInsert(s, mal);
    StartBuild(s, mal);
    StopReason(s);
    Quiet(s, s'.st, s'.b, s'.w);
    assert s'.w.m in s'.st.mem.nodes && |s'.st.mem.nodes[s'.w.m].child| == 16 by {
      if s.st.deletedNode.Inner? { PopNodeChains(s.st, s.b); }
    }
    StartBuilding(s, s');
  }

  lemma StartBuilding(s: Sys, s': Sys)
    requires Ready(s) && s.w.InsDive? && WriterOk(s) && KeptSame(s.st.mem, s'.st.mem, s.b)
    requires s'.st.mem.root == s.st.mem.root
    requires s'.b.up == s.b.up && s.st.mem.leaves == s'.st.mem.leaves
    requires s'.w.InsBuild? && s'.w.stage == 0 && s'.w.key == s.w.key && s'.w.value == s.w.value && s'.w.k == s.w.k
    requires s'.w.parent == s.w.parent
    requires s'.w.m in s'.st.mem.nodes && |s'.st.mem.nodes[s'.w.m].child| == 16
    requires var n := Load(s.st.mem, s.w.parent);
            && n in s.b.up && n != Null && s.b.up[n] == s.w.parent
            && (n.Inner? ==> !Covers(s.st.mem, n, s.w.key)) && Label(s.st.mem, n) != s.w.key
    ensures WriterOk(s')
  {
  }

  // ---------------------------------------------------------------------------------------
  // critnib_remove up to the store that cuts: critnib.c:439-448, 474-496

  /** The bumped counter gives the oldest objects one remove of slack. */
  lemma RingBump(s: Sys, s': Sys)
    requires Ring(s.st, s.b, s.w) && s.w.Idle? && s'.w.RemNode? && s'.b == s.b
    requires s'.st == s.st.(count := s.st.count + 1)
    ensures Ring(s'.st, s'.b, s'.w)
  {
    forall p | p in s'.b.limbo ensures Waits(s'.st, s'.b, s'.w, p) {
      assert Waits(s.st, s.b, s.w, p);
    }
    forall d | 0 <= d < 16 ensures RingSlot(s'.st, s'.b, d) {
      assert RingSlot(s.st, s.b, d);
    }
  }

  lemma BeginRemoveOk(s: Sys, key: Nibbles)
    requires Core(s) && Ready(s) && s.w.Idle?
    ensures Core(BeginRemove(s, key)) && Calm(s, BeginRemove(s, key))
  {
    var s' := BeginRemove(s, key);
    if s'.w.Idle? {
      RingFrame(s.st, s'.st, s.b, s'.b, s.w, s'.w);
    } else {
      RingBump(s, s');
    }
    Quiet(s, s'.st, s'.b, s'.w);
  }

  lemma RingDone(s: Sys, s': Sys)
    requires Ring(s.st, s.b, s.w) && s.w.RemDive? && (s'.w.Idle? || s'.w.RemDive?) && s'.st == s.st && s'.b == s.b
    ensures Ring(s'.st, s'.b, s'.w)
  {
    forall p | p in s'.b.limbo ensures Waits(s'.st, s'.b, s'.w, p) {
      assert Waits(s.st, s.b, s.w, p);
    }
    forall d | 0 <= d < 16 ensures RingSlot(s'.st, s'.b, d) {
      assert RingSlot(s.st, s.b, d);
    }
  }

  /** A turn of the remove dive changes nothing but where the writer is. */
  lemma RemoveDiveEffect(s: Sys)
    requires Ready(s) && s.w.RemDive?
    requires var kn := Load(s.st.mem, s.w.kParent); kn.Tagged? ==> s.st.mem.leaves[kn.id].key != s.w.key
    ensures var s' := DiveRemove(s); var kn := Load(s.st.mem, s.w.kParent);
            && s' == After(s, s.st, s.b, s'.w) && (s'.w.Idle? || s'.w.RemDive?)
            && (if kn.Inner? then s'.w == RemDive(s.w.key, s.w.kParent, Slot(kn.id, s.w.key[s.st.mem.nodes[kn.id].sh]))
                else s'.w == Idle(Value(Nil)))
  {
    hide Entries;
  }

  /** The dive goes on to the child. */
  lemma RemoveDiveOn(s: Sys)
    requires Body(s) && Ready(s) && s.w.RemDive? && WriterOk(s) && Load(s.st.mem, s.w.kParent).Inner?
    requires DiveRemove(s) == After(s, s.st, s.b, DiveRemove(s).w)
    requires var kn := Load(s.st.mem, s.w.kParent);
             DiveRemove(s).w == RemDive(s.w.key, s.w.kParent, Slot(kn.id, s.w.key[s.st.mem.nodes[kn.id].sh]))
    requires Load(s.st.mem, s.w.kParent) in s.b.up && s.b.up[Load(s.st.mem, s.w.kParent)] == s.w.kParent
    ensures WriterOk(DiveRemove(s))
  {
    hide DiveRemove, Limbo, History;
    var kn := Load(s.st.mem, s.w.kParent);
    assert ObjOk(SZ, s.st.mem, s.b.up, kn);
    assert SlotOk(s.st.mem, s.b.up, kn.id, s.w.key[s.st.mem.nodes[kn.id].sh]);
    LeadsOn(s.st.mem, s.st.mem.root, s.w.key, kn);
  }

  lemma RemoveDiveStock(s: Sys, s': Sys)
    requires Stock(s) && s.w.RemDive? && (s'.w.Idle? || s'.w.RemDive?) && s'.st == s.st && s'.b == s.b
    ensures Stock(s') && QuietStep(s, s'.st, s'.b, s'.w)
  {
    hide Ring, Owned, Safe;
    RingDone(s, s');
  }

  /** The remove dive passes a node, or finds that the key is absent. */
  lemma RemoveDiveOk(s: Sys)
    requires Core(s) && Ready(s) && s.w.RemDive?
    requires var kn := Load(s.st.mem, s.w.kParent); kn.Tagged? ==> s.st.mem.leaves[kn.id].key != s.w.key
    ensures Core(DiveRemove(s)) && Calm(s, DiveRemove(s))
  {
    hide Body, Owned, Ring, Safe, Chains, Bounded, DiveRemove, Calm, QuietStep;
    var s' := DiveRemove(s);
    RemoveDiveEffect(s);
    RemoveDiveStock(s, s');
    Quiet(s, s'.st, s'.b, s'.w);
    if Load(s.st.mem, s.w.kParent).Inner? {
      PlaceReady(s, s.w.kParent);
      RemoveDiveOn(s);
    }
  }

  /** A dive that reaches node t goes on to its child. */
  lemma {:induction false} LeadsOn(m: Mem, p: Ptr, k: Key, t: Ptr)
    requires Alloc(m, p) && Leads(m, p, k, t) && t.Inner? && Alloc(m, t)
    requires var nd := m.nodes[t.id]; nd.sh < |k| && 0 <= k[nd.sh] < |nd.child|
    requires var nd := m.nodes[t.id]; Alloc(m, nd.child[k[nd.sh]]) && Rank(m, nd.child[k[nd.sh]]) <= nd.sh
    ensures Leads(m, p, k, m.nodes[t.id].child[k[m.nodes[t.id].sh]])
    decreases Rank(m, p)
  {
    if p != t {
      LeadsOn(m, m.nodes[p.id].child[k[m.nodes[p.id].sh]], k, t);
    } else {
      assert Leads(m, m.nodes[t.id].child[k[m.nodes[t.id].sh]], k, m.nodes[t.id].child[k[m.nodes[t.id].sh]]);
    }
  }
}
