/** The writer steps that readers notice: publishing a leaf or a forked node, cutting a leaf off,
    taking a thin node out, and recycling what has waited long enough. */
module CritnibStores {
  import opened Digits
  import opened RadixTree
  import opened RadixParts
  import opened RadixUpdates
  import opened CritnibModel
  import opened CritnibInv
  import opened CritnibReaders
  import opened CritnibQuiet

  // ---------------------------------------------------------------------------------------
  // Common parts of a tree store

  /** From b to b' linked objects stay linked or are buried now, and buried ones stay buried. */
  ghost predicate Moves(b: Book, b': Book) {
    && (forall p :: p in b.limbo ==> p in b'.limbo && b'.limbo[p] == b.limbo[p])
    && (forall p :: p in b.up && p !in b'.up ==> p in b'.limbo)
    && (forall p, q :: p in b.up && p !in b'.up && q in b.limbo ==>
          b.limbo[q].dead <= b'.limbo[p].dead && b.limbo[q].rem <= b'.limbo[p].rem)
  }

  /** Kept objects keep their labels and digit positions. */
  ghost predicate Firm(mem: Mem, mem': Mem, b: Book) {
    forall q :: Kept(b, q) ==>
      q != Null && Alloc(mem, q) && Alloc(mem', q) && Label(mem', q) == Label(mem, q) && Rank(mem', q) == Rank(mem, q)
  }

  lemma LimboOld(mem: Mem, mem': Mem, b: Book, b': Book, n: nat)
    requires Limbo(mem, b) && Firm(mem, mem', b) && Moves(b, b')
    requires Inner(n) in b.limbo && mem'.nodes[n] == mem.nodes[n]
    ensures LimboNode(mem', b', n)
  {
    assert LimboNode(mem, b, n);
    forall i | 0 <= i < 16 ensures LimboSlot(mem', b', n, i) {
      assert LimboSlot(mem, b, n, i);
    }
  }

  /** A write to a slot keeps labels. */
  lemma PutFirm(mem: Mem, b: Book, place: Place, v: Ptr)
    requires PlaceOk(mem, place) && forall q :: Kept(b, q) ==> q != Null && Alloc(mem, q)
    ensures Firm(mem, Put(mem, place, v), b)
  {
  }

  /** A store into a linked node or the root does not touch what is unlinked. */
  lemma PutLimbo(mem: Mem, mem': Mem, b: Book, b': Book, hand: set<Ptr>, place: Place, v: Ptr)
    requires Limbo(mem, b) && Owned(mem, b, hand) && PlaceOk(mem, place) && mem' == Put(mem, place, v)
    requires Moves(b, b') && b'.limbo == b.limbo && (place.Slot? ==> Inner(place.n) in b.up)
    requires forall q :: q in b.up ==> q != Null && Alloc(mem, q)
    ensures Limbo(mem', b')
  {
    PutFirm(mem, b, place, v);
    forall n | Inner(n) in b.limbo ensures LimboNode(mem', b', n) {
      assert Homes(b, hand, Inner(n)) == 1;
      LimboOld(mem, mem', b, b', n);
    }
  }

  /** A tree store writes one slot of a linked node or the root; free lists do not notice. */
  lemma PutChains(st: Store, st': Store, b: Book, b': Book, hand: set<Ptr>, place: Place, v: Ptr)
    requires Chains(st, b) && Owned(st.mem, b, hand) && PlaceOk(st.mem, place)
    requires place.Slot? ==> Inner(place.n) in b.up
    requires st'.mem == Put(st.mem, place, v) && st'.deletedNode == st.deletedNode && st'.deletedLeaf == st.deletedLeaf
    requires b'.nodePool == b.nodePool && b'.leafPool == b.leafPool
    ensures Chains(st', b')
  {
    if place.Slot? {
      assert Homes(b, hand, Inner(place.n)) == 1;
    }
    ChainsFrame(st, st', b);
    forall i | 0 <= i < |b.nodePool| ensures LinkN(st'.mem, b'.nodePool, i) {
      assert LinkN(st'.mem, b.nodePool, i);
    }
    forall i | 0 <= i < |b.leafPool| ensures LinkL(st'.mem, b'.leafPool, i) {
      assert LinkL(st'.mem, b.leafPool, i);
    }
  }

  lemma PutSafe(mem: Mem, place: Place, v: Ptr)
    requires Safe(mem, Null) && PlaceOk(mem, place) && Alloc(mem, v)
    ensures Safe(Put(mem, place, v), Null)
  {
    var mem' := Put(mem, place, v);
    forall n | n in mem'.nodes ensures SafeNode(mem', Null, n) {
      assert SafeNode(mem, Null, n);
    }
  }

  lemma PutSizes(mem: Mem, b: Book, b': Book, place: Place, v: Ptr)
    requires Bounded(mem, b) && PlaceOk(mem, place) && b.peak <= b'.peak && |b'.at| <= b'.peak
    ensures Bounded(Put(mem, place, v), b')
  {
    var mem' := Put(mem, place, v);
    PutObjects(mem, place, v);
    assert |mem.nodes| == |mem.nodes.Keys| && |mem'.nodes| == |mem'.nodes.Keys|;
  }

  /** Homes and rings checked, the rest of the stock survives a write to one slot. */
  lemma PutStock(s: Sys, s': Sys, place: Place, v: Ptr)
    requires Stock(s) && Raw(s.w) == Null && Raw(s'.w) == Null && PlaceOk(s.st.mem, place) && Alloc(s.st.mem, v)
    requires place.Slot? ==> Inner(place.n) in s.b.up
    requires s'.st.mem == Put(s.st.mem, place, v) && s'.st.deletedNode == s.st.deletedNode
    requires s'.st.deletedLeaf == s.st.deletedLeaf
    requires s'.b.nodePool == s.b.nodePool && s'.b.leafPool == s.b.leafPool && s.b.peak <= s'.b.peak
    requires |s'.b.at| <= s'.b.peak
    requires Owned(s'.st.mem, s'.b, Hand(s'.w)) && Ring(s'.st, s'.b, s'.w)
    ensures Stock(s')
  {
    PutChains(s.st, s'.st, s.b, s'.b, Hand(s.w), place, v);
    PutSafe(s.st.mem, place, v);
    PutSizes(s.st.mem, s.b, s'.b, place, v);
  }

  /** Fates after a write to one slot. */
  lemma PutFates(s: Sys, s': Sys, place: Place, v: Ptr)
    requires Body(s) && PlaceOk(s.st.mem, place) && s'.st.mem == Put(s.st.mem, place, v)
    requires forall p :: p in s.b.limbo ==> p in s'.b.limbo && s'.b.limbo[p] == s.b.limbo[p]
    requires forall p :: p in s.b.up ==> p in s'.b.up || (p in s'.b.limbo && s'.b.limbo[p].dead + 1 == |s.hist|)
    requires forall p :: p in s'.b.limbo && p !in s.b.limbo ==>
               s'.b.limbo[p].rem + 1 == s'.st.count && s'.b.limbo[p].dead + 1 == |s.hist|
    ensures Fates(s, s')
  {
    hide History, Indexed, Bushy;
    forall p | Kept(s.b, p) ensures Fate(s, s', p) {
    }
  }

  // ---------------------------------------------------------------------------------------
  // Publishing a leaf in an empty place: critnib.c:369, 387

  lemma PublishTree(s: Sys)
    requires Core(s) && Ready(s) && s.w.InsDive? && Load(s.st.mem, s.w.parent) == Null
    ensures s.w.key !in s.b.at && Tagged(s.w.k) !in s.b.up
    ensures Tree(SZ, Put(s.st.mem, s.w.parent, Tagged(s.w.k)), s.b.up[Tagged(s.w.k) := s.w.parent],
                s.b.at[s.w.key := s.w.k], Null)
  {
    NotKept(s.st.mem, s.b, Hand(s.w), Tagged(s.w.k));
    if s.w.parent == Top {
      PlantRoot(SZ, s.st.mem, s.b.up, s.b.at, s.w.k);
    } else {
      FillSlot(SZ, s.st.mem, s.b.up, s.b.at, s.w.parent.n, s.w.k);
    }
  }

  /** The history gains the map with the new entry. */
  lemma PublishHistory(s: Sys, mem': Mem, b': Book, key: Key, k: nat)
    requires History(s.st.mem, s.b, s.hist) && mem'.leaves == s.st.mem.leaves && k in mem'.leaves
    requires b'.at == s.b.at[key := k] && b'.limbo == s.b.limbo
    ensures Served(mem', b'.at)
    ensures Entries(mem', b'.at) == Entries(s.st.mem, s.b.at)[key := mem'.leaves[k].value]
    ensures History(mem', b', s.hist + [Entries(mem', b'.at)])
  {
    var hist' := s.hist + [Entries(mem', b'.at)];
    forall p | p in b'.limbo ensures Epitaph(mem', b', hist', p) {
      assert Epitaph(s.st.mem, s.b, s.hist, p);
    }
  }

  lemma PublishOwned(mem: Mem, mem': Mem, b: Book, b': Book, hand: set<Ptr>)
    requires Owned(mem, b, hand) && SameObjects(mem, mem')
    requires b'.limbo == b.limbo && b'.nodePool == b.nodePool && b'.leafPool == b.leafPool
    requires forall q :: q in b'.up <==> q in b.up || q in hand
    ensures Owned(mem', b', {})
  {
    forall p ensures Homes(b', {}, p) == if p != Null && Alloc(mem', p) then 1 else 0 {
      assert Homes(b, hand, p) == if p != Null && Alloc(mem, p) then 1 else 0;
    }
  }

  lemma PublishSteers(s: Sys, s': Sys)
    requires Body(s) && Ready(s) && s.w.InsDive? && Load(s.st.mem, s.w.parent) == Null
    requires s'.st.mem == Put(s.st.mem, s.w.parent, Tagged(s.w.k))
    ensures Steers(s, s')
  {
    forall k, n | k in s.b.at && n in s.st.mem.nodes && n in s'.st.mem.nodes
      ensures NextOk(s.st.mem, s'.st.mem, n, k, Tagged(s.b.at[k]))
    {
    }
  }

  lemma PublishEffect(s: Sys)
    requires Ready(s) && s.w.InsDive? && Load(s.st.mem, s.w.parent) == Null
    ensures var s' := DiveInsert(s, NoMem);
            && s'.w == Idle(Code(Ok)) && s'.readers == s.readers && PlaceOk(s.st.mem, s.w.parent)
            && s'.st == s.st.(mem := Put(s.st.mem, s.w.parent, Tagged(s.w.k)))
            && s'.b == Publish(s.b, s.b.up[Tagged(s.w.k) := s.w.parent], s.w.key, s.w.k)
            && Served(s'.st.mem, s'.b.at) && s'.hist == s.hist + [Entries(s'.st.mem, s'.b.at)]
  {
    hide Entries;
  }

  lemma PublishTreeBody(s: Sys, s': Sys)
    requires Core(s) && Ready(s) && s.w.InsDive? && Load(s.st.mem, s.w.parent) == Null && s' == DiveInsert(s, NoMem)
    ensures Body(s')
  {
    hide Tree, Ring, Safe, Chains, Bounded, DiveInsert;
    PublishEffect(s);
    PublishTree(s);
    PublishHistory(s, s'.st.mem, s'.b, s.w.key, s.w.k);
    LinkedAlloc(s.st.mem, s.b.up, s.b.at, Null);
    PutLimbo(s.st.mem, s'.st.mem, s.b, s'.b, Hand(s.w), s.w.parent, Tagged(s.w.k));
  }

  lemma LinkedAlloc(mem: Mem, up: map<Ptr, Place>, at: map<Key, nat>, thin: Ptr)
    requires Tree(SZ, mem, up, at, thin)
    ensures forall q :: q in up ==> q != Null && Alloc(mem, q)
  {
  }

  lemma PublishCalm(s: Sys, s': Sys)
    requires Core(s) && Ready(s) && s.w.InsDive? && Load(s.st.mem, s.w.parent) == Null && s' == DiveInsert(s, NoMem)
    ensures Calm(s, s')
  {
    hide Tree, Ring, Safe, Chains, Bounded, Limbo, DiveInsert;
    PublishEffect(s);
    PublishTree(s);
    PutObjects(s.st.mem, s.w.parent, Tagged(s.w.k));
    PublishSteers(s, s');
    PutFates(s, s', s.w.parent, Tagged(s.w.k));
  }

  lemma PublishBody(s: Sys)
    requires Core(s) && Ready(s) && s.w.InsDive? && Load(s.st.mem, s.w.parent) == Null
    ensures Body(DiveInsert(s, NoMem)) && Calm(s, DiveInsert(s, NoMem))
  {
    hide Core, Body, Calm, DiveInsert, Ready;
    PublishTreeBody(s, DiveInsert(s, NoMem));
    PublishCalm(s, DiveInsert(s, NoMem));
  }

  lemma PublishStock(s: Sys)
    requires Core(s) && Ready(s) && s.w.InsDive? && Load(s.st.mem, s.w.parent) == Null
    ensures Stock(DiveInsert(s, NoMem))
  {
    var s' := DiveInsert(s, NoMem);
    assert Hand(s'.w) == {};
    PutObjects(s.st.mem, s.w.parent, Tagged(s.w.k));
    PublishOwned(s.st.mem, s'.st.mem, s.b, s'.b, Hand(s.w));
    RingFrame(s.st, s'.st, s.b, s'.b, s.w, s'.w);
    PutStock(s, s', s.w.parent, Tagged(s.w.k));
  }

  lemma PublishOk(s: Sys)
    requires Core(s) && Ready(s) && s.w.InsDive? && Load(s.st.mem, s.w.parent) == Null
    ensures Core(DiveInsert(s, NoMem)) && Calm(s, DiveInsert(s, NoMem))
  {
    PublishBody(s);
    PublishStock(s);
  }

  // ---------------------------------------------------------------------------------------
  // Publishing a forked node: critnib.c:426

  /** The finished node is the fork of the object at the place and the new leaf. */
  lemma Finished(s: Sys)
    requires Core(s) && Ready(s) && s.w.InsBuild? && s.w.stage == 20
    ensures var mem := s.st.mem; var x := Load(mem, s.w.parent);
            CanSplice(SZ, mem, s.b.up, s.w.parent, x, s.w.k, ForkDigit(mem, s.w.key, s.w.parent), s.w.m)
  {
    var InsBuild(key, _, k, parent, m, raw, stage) := s.w;
    var mem := s.st.mem;
    var x := Load(mem, parent);
    var sh := TopDiff(Label(mem, x), key);
    NotKept(mem, s.b, Hand(s.w), Tagged(k));
    NotKept(mem, s.b, Hand(s.w), Inner(m));
    var fork := Fork(SZ, key, k, Label(mem, x), x, sh);
    assert mem.nodes[m].child == fork.child;
    ForkBetween(s);
  }

  /** The fork digit lies between the object below and the node above. */
  lemma ForkBetween(s: Sys)
    requires Core(s) && Ready(s) && s.w.InsBuild?
    ensures var mem := s.st.mem; var x := Load(mem, s.w.parent); var sh := ForkDigit(mem, s.w.key, s.w.parent);
            && Rank(mem, x) <= sh
            && (s.w.parent.Slot? ==> sh < mem.nodes[s.w.parent.n].sh)
  {
    var mem := s.st.mem;
    var parent := s.w.parent;
    var x := Load(mem, parent);
    var sh := ForkDigit(mem, s.w.key, parent);
    if parent.Slot? {
      assert ObjOk(SZ, mem, s.b.up, Inner(parent.n));
      assert SlotOk(mem, s.b.up, parent.n, parent.i);
    }
  }

  lemma SpliceSteer(s: Sys, k: Key)
    requires Core(s) && Ready(s) && s.w.InsBuild? && s.w.stage == 20 && s.w.parent.Slot? && k in s.b.at
    ensures NextOk(s.st.mem, Put(s.st.mem, s.w.parent, Inner(s.w.m)), s.w.parent.n, k, Tagged(s.b.at[k]))
  {
    hide Stock, Limbo, History, Bushy;
    var mem := s.st.mem;
    var x := Load(mem, s.w.parent);
    var sh := ForkDigit(mem, s.w.key, s.w.parent);
    Finished(s);
    if Leads(mem, x, k, Tagged(s.b.at[k])) {
      LeadsUnder(SZ, mem, s.b.up, x, k, Tagged(s.b.at[k]));
      assert k[sh] == Label(mem, x)[sh];
    }
  }

  lemma SpliceSteers(s: Sys, s': Sys)
    requires Core(s) && Ready(s) && s.w.InsBuild? && s.w.stage == 20
    requires s'.st.mem == Put(s.st.mem, s.w.parent, Inner(s.w.m))
    ensures Steers(s, s')
  {
    forall k, n | k in s.b.at && n in s.st.mem.nodes && n in s'.st.mem.nodes
      ensures NextOk(s.st.mem, s'.st.mem, n, k, Tagged(s.b.at[k]))
    {
      if s.w.parent.Slot? && n == s.w.parent.n {
        SpliceSteer(s, k);
      } else {
        NextSame(s.st.mem, s'.st.mem, n, k, Tagged(s.b.at[k]));
      }
    }
  }

  lemma SpliceLimbo(s: Sys)
    requires Core(s) && Ready(s) && s.w.InsBuild? && s.w.stage == 20
    ensures Limbo(BuildInsert(s).st.mem, BuildInsert(s).b)
  {
    var s' := BuildInsert(s);
    PutLimbo(s.st.mem, s'.st.mem, s.b, s'.b, Hand(s.w), s.w.parent, Inner(s.w.m));
  }

  lemma SpliceFates(s: Sys, s': Sys)
    requires Body(s) && Ready(s) && s.w.InsBuild?
    requires s'.st.mem == Put(s.st.mem, s.w.parent, Inner(s.w.m))
    requires s'.b.limbo == s.b.limbo && forall p :: p in s.b.up ==> p in s'.b.up
    ensures Fates(s, s')
  {
    PutFates(s, s', s.w.parent, Inner(s.w.m));
  }

  lemma SpliceEffect(s: Sys)
    requires Ready(s) && s.w.InsBuild? && s.w.stage == 20
    ensures var s' := BuildInsert(s); var mem := s.st.mem;
            && s'.w == Idle(Code(Ok)) && s'.readers == s.readers && PlaceOk(mem, s.w.parent)
            && s'.st == s.st.(mem := Put(mem, s.w.parent, Inner(s.w.m)))
            && s'.b.limbo == s.b.limbo && s'.b.at == s.b.at[s.w.key := s.w.k]
            && (forall p :: p in s.b.up ==> p in s'.b.up)
            && s'.b.peak == Max(s.b.peak, |s'.b.at|)
            && Served(s'.st.mem, s'.b.at) && s'.hist == s.hist + [Entries(s'.st.mem, s'.b.at)]
  {
    hide Entries;
  }

  lemma SpliceCalm(s: Sys)
    requires Core(s) && Ready(s) && s.w.InsBuild? && s.w.stage == 20
    requires s.w.key !in s.b.at
    ensures Calm(s, BuildInsert(s))
  {
    hide Tree, Limbo, Owned, Ring, Safe, Chains, Bounded, BuildInsert, Fates, Steers;
    var s' := BuildInsert(s);
    SpliceEffect(s);
    RawAllocated(s);
    PutObjects(s.st.mem, s.w.parent, Inner(s.w.m));
    SpliceSteers(s, s');
    SpliceFates(s, s');
  }

  lemma SpliceBody(s: Sys)
    requires Core(s) && Ready(s) && s.w.InsBuild? && s.w.stage == 20
    ensures Body(BuildInsert(s)) && s.w.key !in s.b.at
  {
    hide Stock, Tree, Limbo, History;
    var s' := BuildInsert(s);
    var mem := s.st.mem;
    Finished(s);
    Splice(SZ, mem, s.b.up, s.b.at, s.w.parent, Load(mem, s.w.parent), s.w.k, ForkDigit(mem, s.w.key, s.w.parent),
           s.w.m);
    PublishHistory(s, s'.st.mem, s'.b, s.w.key, s.w.k);
    SpliceLimbo(s);
  }

  /** A node that is filled in is as safe as any other. */
  lemma SpliceSafe(mem: Mem, raw: Ptr, place: Place, m: nat)
    requires Safe(mem, raw) && PlaceOk(mem, place) && m in mem.nodes && (raw == Null || raw == Inner(m))
    requires |mem.nodes[m].child| == 16 && mem.nodes[m].sh < 16
    requires forall i :: 0 <= i < 16 ==> Alloc(mem, mem.nodes[m].child[i])
    ensures Safe(Put(mem, place, Inner(m)), Null)
  {
    var mem' := Put(mem, place, Inner(m));
    forall n | n in mem'.nodes ensures SafeNode(mem', Null, n) {
      assert SafeNode(mem, raw, n);
    }
  }

  lemma SpliceStock(s: Sys, s': Sys)
    requires Stock(s) && s.w.InsBuild? && s'.w.Idle? && PlaceOk(s.st.mem, s.w.parent)
    requires s.w.m in s.st.mem.nodes && |s.st.mem.nodes[s.w.m].child| == 16 && s.st.mem.nodes[s.w.m].sh < 16
    requires forall i :: 0 <= i < 16 ==> Alloc(s.st.mem, s.st.mem.nodes[s.w.m].child[i])
    requires s.w.parent.Slot? ==> Inner(s.w.parent.n) in s.b.up
    requires s'.st == s.st.(mem := Put(s.st.mem, s.w.parent, Inner(s.w.m)))
    requires (forall q :: q in s'.b.up <==> q in s.b.up || q in Hand(s.w)) && s'.b.limbo == s.b.limbo
    requires s'.b.nodePool == s.b.nodePool && s'.b.leafPool == s.b.leafPool && s.b.peak <= s'.b.peak
    requires |s'.b.at| <= s'.b.peak
    ensures Stock(s')
  {
    assert Hand(s'.w) == {};
    PutObjects(s.st.mem, s.w.parent, Inner(s.w.m));
    PublishOwned(s.st.mem, s'.st.mem, s.b, s'.b, Hand(s.w));
    PutChains(s.st, s'.st, s.b, s'.b, Hand(s.w), s.w.parent, Inner(s.w.m));
    SpliceSafe(s.st.mem, Raw(s.w), s.w.parent, s.w.m);
    PutSizes(s.st.mem, s.b, s'.b, s.w.parent, Inner(s.w.m));
    RingFrame(s.st, s'.st, s.b, s'.b, s.w, s'.w);
  }

  lemma SpliceStocked(s: Sys)
    requires Core(s) && Ready(s) && s.w.InsBuild? && s.w.stage == 20
    ensures Stock(BuildInsert(s))
  {
    Finished(s);
    SpliceStock(s, BuildInsert(s));
  }

  lemma SpliceOk(s: Sys)
    requires Core(s) && Ready(s) && s.w.InsBuild? && s.w.stage == 20
    ensures Core(BuildInsert(s)) && Calm(s, BuildInsert(s))
  {
    SpliceBody(s);
    SpliceCalm(s);
    SpliceStocked(s);
  }

  // ---------------------------------------------------------------------------------------
  // Recycling: critnib.c:449-452

  /** What waits in the ring slot of the new remove was unlinked sixteen removes ago. */
  lemma Oldest(s: Sys, p: Ptr)
    requires Ring(s.st, s.b, s.w) && (s.w.RemNode? || s.w.RemLeaf?) && p != Null
    requires p == s.st.pendNodes[Del(s.st)] || (s.w.RemLeaf? && p == s.st.pendLeaves[Del(s.st)])
    ensures p in s.b.limbo && s.b.limbo[p].rem + LIFE + 1 == s.st.count
    ensures p.Inner? <==> p == s.st.pendNodes[Del(s.st)]
  {
    assert RingSlot(s.st, s.b, Del(s.st));
    assert Waits(s.st, s.b, s.w, p);
  }

  /** No waiting node points at the oldest object of its kind. */
  lemma NobodyPoints(s: Sys, n: nat, i: nat, p: Ptr)
    requires Body(s) && Ring(s.st, s.b, s.w) && i < 16 && Inner(n) in s.b.limbo && Inner(n) != p && p in s.b.limbo
    requires p !in s.b.up
    requires s.b.limbo[p].rem + LIFE + 1 == s.st.count
    requires (s.w.RemNode? && p.Inner?) || (s.w.RemLeaf? && p.Tagged?)
    ensures LimboNode(s.st.mem, s.b, n) && s.st.mem.nodes[n].child[i] != p
  {
    assert LimboNode(s.st.mem, s.b, n) && LimboSlot(s.st.mem, s.b, n, i);
    assert Waits(s.st, s.b, s.w, Inner(n)) && Waits(s.st, s.b, s.w, p);
  }

  /** Dropping the oldest object from limbo. */
  lemma RecycleLimbo(s: Sys, mem': Mem, b': Book, p: Ptr)
    requires Body(s) && Ring(s.st, s.b, s.w) && p in s.b.limbo && p !in s.b.up
    requires s.b.limbo[p].rem + LIFE + 1 == s.st.count
    requires (s.w.RemNode? && p.Inner?) || (s.w.RemLeaf? && p.Tagged?)
    requires b'.up == s.b.up && b'.limbo == s.b.limbo - {p} && KeptSame(s.st.mem, mem', b')
    ensures Limbo(mem', b')
  {
    forall n | Inner(n) in b'.limbo ensures LimboNode(mem', b', n) {
      NobodyPoints(s, n, 0, p);
      forall i | 0 <= i < 16 ensures LimboSlot(mem', b', n, i) {
        NobodyPoints(s, n, i, p);
        assert LimboSlot(s.st.mem, s.b, n, i);
      }
    }
  }

  lemma RecycleHistory(s: Sys, mem': Mem, b': Book, p: Ptr)
    requires Body(s) && p in s.b.limbo
    requires b'.up == s.b.up && b'.at == s.b.at && b'.limbo == s.b.limbo - {p} && KeptSame(s.st.mem, mem', b')
    requires Served(mem', b'.at) && Entries(mem', b'.at) == Entries(s.st.mem, s.b.at)
    ensures History(mem', b', s.hist + [Entries(mem', b'.at)])
  {
    var hist' := s.hist + [Entries(mem', b'.at)];
    forall q | q in b'.limbo ensures Epitaph(mem', b', hist', q) {
      assert Epitaph(s.st.mem, s.b, s.hist, q);
    }
  }

  lemma RecycleCalm(s: Sys, s': Sys, p: Ptr)
    requires Body(s) && p in s.b.limbo && p !in s.b.up && Raw(s.w) == Null && Raw(s'.w) == Null
    requires s.b.limbo[p].rem + LIFE < s'.st.count && s.st.count == s'.st.count
    requires s'.b.up == s.b.up && s'.b.at == s.b.at && s'.b.peak == s.b.peak && s'.b.limbo == s.b.limbo - {p}
    requires KeptSame(s.st.mem, s'.st.mem, s'.b)
    requires s.st.mem.nodes.Keys <= s'.st.mem.nodes.Keys && s.st.mem.leaves.Keys <= s'.st.mem.leaves.Keys
    requires s'.readers == s.readers && |s'.hist| == |s.hist| + 1 && s'.hist[..|s.hist|] == s.hist
    ensures Calm(s, s')
  {
    forall q | Kept(s.b, q) ensures Fate(s, s', q) {
      if q != p { assert Kept(s'.b, q); }
    }
    forall k, n | k in s.b.at && Kept(s.b, Inner(n)) && Kept(s'.b, Inner(n))
                  && n in s.st.mem.nodes && n in s'.st.mem.nodes
      ensures NextOk(s.st.mem, s'.st.mem, n, k, Tagged(s.b.at[k]))
    {
      NextSame(s.st.mem, s'.st.mem, n, k, Tagged(s.b.at[k]));
    }
  }

  lemma RecycleBody(s: Sys, s': Sys, p: Ptr)
    requires Core(s) && p in s.b.limbo && s.b.limbo[p].rem + LIFE + 1 == s.st.count
    requires (s.w.RemNode? && p.Inner? && s'.w.RemLeaf?) || (s.w.RemLeaf? && p.Tagged? && s'.w.RemDive?)
    requires s'.st.mem.root == s.st.mem.root && s'.st.count == s.st.count
    requires s'.b.up == s.b.up && s'.b.at == s.b.at && s'.b.peak == s.b.peak && s'.b.limbo == s.b.limbo - {p}
    requires KeptSame(s.st.mem, s'.st.mem, s'.b)
    requires s.st.mem.nodes.Keys <= s'.st.mem.nodes.Keys && s.st.mem.leaves.Keys <= s'.st.mem.leaves.Keys
    requires Served(s'.st.mem, s'.b.at) && s'.hist == s.hist + [Entries(s'.st.mem, s'.b.at)] && s'.readers == s.readers
    ensures Body(s') && Calm(s, s')
  {
    hide Tree, Limbo, History, Safe, Chains, Bounded, Ring, Calm;
    assert Homes(s.b, Hand(s.w), p) == 1;
    TreeFrame(SZ, s.st.mem, s'.st.mem, s.b.up, s.b.at, Null);
    RecycleLimbo(s, s'.st.mem, s'.b, p);
    RecycleHistory(s, s'.st.mem, s'.b, p);
    RecycleCalm(s, s', p);
  }

  lemma BuriedOwned(mem: Mem, mem': Mem, b: Book, b': Book, p: Ptr)
    requires Owned(mem, b, {}) && SameObjects(mem, mem')
    requires p in b.limbo && b'.up == b.up && b'.limbo == b.limbo - {p}
    requires match p
             case Null => false
             case Inner(n) => b'.nodePool == [n] + b.nodePool && b'.leafPool == b.leafPool
             case Tagged(l) => b'.leafPool == [l] + b.leafPool && b'.nodePool == b.nodePool
    ensures Owned(mem', b', {})
  {
    assert Homes(b, {}, p) == 1;
    if p.Inner? { PushDistinct(b.nodePool, p.id); } else { PushDistinct(b.leafPool, p.id); }
    forall q ensures Homes(b', {}, q) == if q != Null && Alloc(mem', q) then 1 else 0 {
      assert Homes(b, {}, q) == if q != Null && Alloc(mem, q) then 1 else 0;
    }
  }

  lemma FreeNodeChains(st: Store, b: Book, n: nat)
    requires Chains(st, b) && n in st.mem.nodes && |st.mem.nodes[n].child| == 16 && n !in b.nodePool
    ensures Chains(FreeNode(st, b, n).0, FreeNode(st, b, n).1)
  {
    var (st', b') := FreeNode(st, b, n);
    forall i | 0 <= i < |b'.nodePool| ensures LinkN(st'.mem, b'.nodePool, i) {
      if i > 0 { assert LinkN(st.mem, b.nodePool, i - 1); }
    }
    forall i | 0 <= i < |b.leafPool| ensures LinkL(st'.mem, b.leafPool, i) {
      assert LinkL(st.mem, b.leafPool, i);
    }
  }

  /** The rings after the slot of the new remove is emptied of nodes or leaves. */
  lemma RecycleWaits(s: Sys, s': Sys, p: Ptr, q: Ptr)
    requires Ring(s.st, s.b, s.w) && (s.w.RemNode? || s.w.RemLeaf?)
    requires p == (if s.w.RemNode? then s.st.pendNodes else s.st.pendLeaves)[Del(s.st)]
    requires s'.st.count == s.st.count && s'.b.limbo == s.b.limbo - {p}
    requires s.w.RemNode? ==>
               && s'.w.RemLeaf? && s'.st.pendNodes == s.st.pendNodes[Del(s.st) := Null]
               && s'.st.pendLeaves == s.st.pendLeaves
    requires s.w.RemLeaf? ==>
               && s'.w.RemDive? && s'.st.pendLeaves == s.st.pendLeaves[Del(s.st) := Null]
               && s'.st.pendNodes == s.st.pendNodes
    requires q in s'.b.limbo
    ensures Waits(s'.st, s'.b, s'.w, q)
  {
    assert RingSlot(s.st, s.b, Del(s.st));
    assert Waits(s.st, s.b, s.w, q);
  }

  lemma RecycleRing(s: Sys, s': Sys, p: Ptr)
    requires Ring(s.st, s.b, s.w) && (s.w.RemNode? || s.w.RemLeaf?)
    requires p == (if s.w.RemNode? then s.st.pendNodes else s.st.pendLeaves)[Del(s.st)]
    requires s'.st.count == s.st.count && s'.b.limbo == s.b.limbo - {p}
    requires s.w.RemNode? ==>
               && s'.w.RemLeaf? && s'.st.pendNodes == s.st.pendNodes[Del(s.st) := Null]
               && s'.st.pendLeaves == s.st.pendLeaves
    requires s.w.RemLeaf? ==>
               && s'.w.RemDive? && s'.st.pendLeaves == s.st.pendLeaves[Del(s.st) := Null]
               && s'.st.pendNodes == s.st.pendNodes
    ensures Ring(s'.st, s'.b, s'.w)
  {
    hide Waits;
    assert RingSlot(s.st, s.b, Del(s.st));
    forall q | q in s'.b.limbo ensures Waits(s'.st, s'.b, s'.w, q) {
      RecycleWaits(s, s', p, q);
    }
    forall d | 0 <= d < 16 ensures RingSlot(s'.st, s'.b, d) {
      assert RingSlot(s.st, s.b, d);
    }
  }

  lemma RecycleNodeStock(s: Sys, s': Sys, n: nat)
    requires Stock(s) && s.w.RemNode? && s'.w.RemLeaf? && s.st.pendNodes[Del(s.st)] == Inner(n)
    requires n in s.st.mem.nodes && |s.st.mem.nodes[n].child| == 16
    requires var (st, b) := FreeNode(s.st, s.b, n);
             s'.st == st.(pendNodes := st.pendNodes[Del(s.st) := Null]) && s'.b == b.(limbo := b.limbo - {Inner(n)})
    ensures Stock(s') && KeptSame(s.st.mem, s'.st.mem, s'.b)
  {
    Oldest(s, Inner(n));
    assert Homes(s.b, Hand(s.w), Inner(n)) == 1;
    assert Hand(s.w) == {} && Hand(s'.w) == {};
    BuriedOwned(s.st.mem, s'.st.mem, s.b, s'.b, Inner(n));
    FreeNodeChains(s.st, s.b, n);
    RecycleRing(s, s', Inner(n));
    if s.b.nodePool != [] { assert LinkN(s.st.mem, s.b.nodePool, 0); }
    PutSafe(s.st.mem, Slot(n, 0), s.st.deletedNode);
    SameSize(s.st.mem, s'.st.mem, s.b);
  }

  lemma RecycleNodeEffect(s: Sys)
    requires Ready(s) && s.w.RemNode?
    ensures var s' := RecycleNode(s); var p := s.st.pendNodes[Del(s.st)];
            && s'.w == RemLeaf(s.w.key) && s'.readers == s.readers
            && Served(s'.st.mem, s'.b.at) && s'.hist == s.hist + [Entries(s'.st.mem, s'.b.at)]
            && (!p.Inner? ==> s'.st == s.st && s'.b == s.b)
            && (p.Inner? ==>
                  && p.id in s.st.mem.nodes && |s.st.mem.nodes[p.id].child| == 16
                  && var (st, b) := FreeNode(s.st, s.b, p.id);
                  s'.st == st.(pendNodes := st.pendNodes[Del(s.st) := Null]) && s'.b == b.(limbo := b.limbo - {p}))
  {
    hide Entries;
  }

  /** Recycling a node leaves root, counter and index alone. */
  lemma FreedNode(s: Sys, s': Sys, n: nat)
    requires n in s.st.mem.nodes && |s.st.mem.nodes[n].child| == 16 && s.w.RemNode? && s.st.count > 0
    requires |s.st.pendNodes| == 16
    requires var (st, b) := FreeNode(s.st, s.b, n);
             s'.st == st.(pendNodes := st.pendNodes[Del(s.st) := Null]) && s'.b == b.(limbo := b.limbo - {Inner(n)})
    ensures s'.st.mem.root == s.st.mem.root && s'.st.count == s.st.count
    ensures s'.b.up == s.b.up && s'.b.at == s.b.at && s'.b.peak == s.b.peak && s'.b.limbo == s.b.limbo - {Inner(n)}
    ensures s.st.mem.nodes.Keys <= s'.st.mem.nodes.Keys && s.st.mem.leaves.Keys <= s'.st.mem.leaves.Keys
  {
  }

  lemma RecycleNodeOk(s: Sys)
    requires Core(s) && Ready(s) && s.w.RemNode?
    ensures Core(RecycleNode(s)) && Calm(s, RecycleNode(s))
  {
    hide Body, Owned, Safe, Chains, Bounded, Ring, RecycleNode, Calm, FreeNode;
    var s' := RecycleNode(s);
    var p := s.st.pendNodes[Del(s.st)];
    RecycleNodeEffect(s);
    if p.Inner? {
      Oldest(s, p);
      FreedNode(s, s', p.id);
      RecycleNodeStock(s, s', p.id);
      RecycleBody(s, s', p);
    } else {
      RecycleNone(s, s');
      Quiet(s, s'.st, s'.b, s'.w);
    }
  }

  lemma RecycleNoneRing(s: Sys, s': Sys)
    requires Ring(s.st, s.b, s.w) && (s.w.RemNode? || s.w.RemLeaf?) && s'.st == s.st && s'.b == s.b
    requires if s.w.RemNode? then !s.st.pendNodes[Del(s.st)].Inner? && s'.w.RemLeaf?
             else !s.st.pendLeaves[Del(s.st)].Tagged? && s'.w.RemDive?
    ensures Ring(s'.st, s'.b, s'.w)
  {
    assert RingSlot(s.st, s.b, Del(s.st));
    forall q | q in s'.b.limbo ensures Waits(s'.st, s'.b, s'.w, q) {
      assert Waits(s.st, s.b, s.w, q);
    }
    forall d | 0 <= d < 16 ensures RingSlot(s'.st, s'.b, d) {
      assert RingSlot(s.st, s.b, d);
    }
  }

  lemma RecycleNone(s: Sys, s': Sys)
    requires Stock(s) && (s.w.RemNode? || s.w.RemLeaf?) && s'.st == s.st && s'.b == s.b
    requires if s.w.RemNode? then !s.st.pendNodes[Del(s.st)].Inner? && s'.w.RemLeaf?
             else !s.st.pendLeaves[Del(s.st)].Tagged? && s'.w.RemDive?
    ensures Stock(s')
  {
    hide Ring, Owned, Safe, Chains, Bounded;
    RecycleNoneRing(s, s');
  }

  lemma RecycleLeafStock(s: Sys, s': Sys, l: nat)
    requires Stock(s) && s.w.RemLeaf? && s'.w.RemDive? && s.st.pendLeaves[Del(s.st)] == Tagged(l)
    requires l in s.st.mem.leaves
    requires var (st, b) := FreeLeaf(s.st, s.b, l);
             s'.st == st.(pendLeaves := st.pendLeaves[Del(s.st) := Null]) && s'.b == b.(limbo := b.limbo - {Tagged(l)})
    ensures Stock(s') && KeptSame(s.st.mem, s'.st.mem, s'.b)
  {
    Oldest(s, Tagged(l));
    assert Homes(s.b, Hand(s.w), Tagged(l)) == 1;
    assert Hand(s.w) == {} && Hand(s'.w) == {};
    BuriedOwned(s.st.mem, s'.st.mem, s.b, s'.b, Tagged(l));
    FreeLeafChains(s.st, s.b, l);
    RecycleRing(s, s', Tagged(l));
    SafeFrame(s.st.mem, s'.st.mem, Null);
    SameSize(s.st.mem, s'.st.mem, s.b);
  }

  lemma RecycleLeafEffect(s: Sys)
    requires Ready(s) && s.w.RemLeaf?
    ensures var s' := RecycleLeaf(s); var p := s.st.pendLeaves[Del(s.st)];
            && s'.w == RemDive(s.w.key, Top, Top) && s'.readers == s.readers
            && Served(s'.st.mem, s'.b.at) && s'.hist == s.hist + [Entries(s'.st.mem, s'.b.at)]
            && (!p.Tagged? ==> s'.st == s.st && s'.b == s.b)
            && (p.Tagged? ==>
                  && p.id in s.st.mem.leaves
                  && var (st, b) := FreeLeaf(s.st, s.b, p.id);
                  s'.st == st.(pendLeaves := st.pendLeaves[Del(s.st) := Null]) && s'.b == b.(limbo := b.limbo - {p}))
  {
    hide Entries;
  }

  lemma FreedLeaf(s: Sys, s': Sys, l: nat)
    requires l in s.st.mem.leaves && s.w.RemLeaf? && s.st.count > 0 && |s.st.pendLeaves| == 16
    requires var (st, b) := FreeLeaf(s.st, s.b, l);
             s'.st == st.(pendLeaves := st.pendLeaves[Del(s.st) := Null]) && s'.b == b.(limbo := b.limbo - {Tagged(l)})
    ensures s'.st.mem.root == s.st.mem.root && s'.st.count == s.st.count
    ensures s'.b.up == s.b.up && s'.b.at == s.b.at && s'.b.peak == s.b.peak && s'.b.limbo == s.b.limbo - {Tagged(l)}
    ensures s.st.mem.nodes.Keys <= s'.st.mem.nodes.Keys && s.st.mem.leaves.Keys <= s'.st.mem.leaves.Keys
  {
  }

  /** At the root the dive of a remove is on its way. */
  lemma DiveStarts(s: Sys)
    requires Body(s) && s.w.RemDive? && s.w.nParent == Top && s.w.kParent == Top && s.st.mem.root != Null
    ensures WriterOk(s)
  {
    hide Limbo, History;
  }

  lemma RecycleLeafOk(s: Sys)
    requires Core(s) && Ready(s) && s.w.RemLeaf?
    ensures Core(RecycleLeaf(s)) && Calm(s, RecycleLeaf(s))
  {
    hide Body, Owned, Safe, Chains, Bounded, Ring, RecycleLeaf, Calm, FreeLeaf;
    var s' := RecycleLeaf(s);
    var p := s.st.pendLeaves[Del(s.st)];
    RecycleLeafEffect(s);
    if p.Tagged? {
      Oldest(s, p);
      FreedLeaf(s, s', p.id);
      RecycleLeafStock(s, s', p.id);
      RecycleBody(s, s', p);
    } else {
      RecycleNone(s, s');
      Quiet(s, s'.st, s'.b, s'.w);
    }
    DiveStarts(s');
  }

  // ---------------------------------------------------------------------------------------
  // Burying: an object leaves the tree

  /** What is buried now is buried last. */
  lemma BuryMoves(s: Sys, b': Book, p: Ptr)
    requires Ring(s.st, s.b, s.w) && History(s.st.mem, s.b, s.hist) && s.st.count > 0
    requires p !in s.b.limbo && b'.limbo == s.b.limbo[p := Tomb(s.st.count - 1, |s.hist| - 1)]
    requires forall q :: q in s.b.up && q != p ==> q in b'.up
    ensures Moves(s.b, b')
  {
    forall q | q in s.b.limbo ensures s.b.limbo[q].dead <= |s.hist| - 1 && s.b.limbo[q].rem <= s.st.count - 1 {
      assert Epitaph(s.st.mem, s.b, s.hist, q) && Waits(s.st, s.b, s.w, q);
    }
  }

  lemma BuryHistory(s: Sys, mem': Mem, b': Book, p: Ptr)
    requires Body(s) && p in s.b.up && p !in s.b.limbo && (forall q :: q in b'.limbo <==> q in s.b.limbo || q == p)
    requires b'.limbo[p].dead == |s.hist| - 1 && forall q :: q in s.b.limbo ==> b'.limbo[q] == s.b.limbo[q]
    requires mem'.leaves == s.st.mem.leaves && Served(mem', b'.at)
    ensures History(mem', b', s.hist + [Entries(mem', b'.at)])
  {
    var hist' := s.hist + [Entries(mem', b'.at)];
    forall q | q in b'.limbo ensures Epitaph(mem', b', hist', q) {
      if q != p {
        assert Epitaph(s.st.mem, s.b, s.hist, q);
      }
    }
  }

  ghost predicate Without(up: map<Ptr, Place>, up': map<Ptr, Place>, p: Ptr) {
    forall q :: q in up' <==> q in up && q != p
  }

  lemma BuryOwned(mem: Mem, mem': Mem, b: Book, b': Book, p: Ptr)
    requires Owned(mem, b, {}) && SameObjects(mem, mem')
    requires p in b.up && Without(b.up, b'.up, p) && (forall q :: q in b'.limbo <==> q in b.limbo || q == p)
    requires b'.nodePool == b.nodePool && b'.leafPool == b.leafPool
    ensures Owned(mem', b', {})
  {
    assert Homes(b, {}, p) == if p != Null && Alloc(mem, p) then 1 else 0;
    forall q ensures Homes(b', {}, q) == if q != Null && Alloc(mem', q) then 1 else 0 {
      assert Homes(b, {}, q) == if q != Null && Alloc(mem, q) then 1 else 0;
    }
  }

  /** The ring slots of the remove under way are free for what it buries. */
  lemma RingFree(s: Sys)
    requires Ring(s.st, s.b, s.w) && (s.w.RemDive? || s.w.RemTidy?)
    ensures s.st.pendNodes[Del(s.st)] == Null
    ensures s.st.pendLeaves[Del(s.st)] == Null || Loose(s.w, s.st.pendLeaves[Del(s.st)])
  {
    var n, l := s.st.pendNodes[Del(s.st)], s.st.pendLeaves[Del(s.st)];
    assert RingSlot(s.st, s.b, Del(s.st));
    assert n != Null ==> Waits(s.st, s.b, s.w, n);
    assert l != Null ==> Waits(s.st, s.b, s.w, l);
  }

  // ---------------------------------------------------------------------------------------
  // Cutting a leaf off: critnib.c:457, 498

  /** The dive stands at the leaf of its key; the step cuts it off. */
  ghost predicate Cuts(s: Sys, s': Sys) {
    && s.w.RemDive? && PlaceOk(s.st.mem, s.w.kParent)
    && var kn := Load(s.st.mem, s.w.kParent);
    && kn.Tagged? && kn.id in s.st.mem.leaves && s.st.mem.leaves[kn.id].key == s.w.key
    && CutEffect(s, s', kn, s.w.key) && s'.st.mem == Put(s.st.mem, s.w.kParent, Null)
    && Served(s'.st.mem, s'.b.at) && s'.readers == s.readers && s'.hist == s.hist + [Entries(s'.st.mem, s'.b.at)]
    && (if s.w.kParent == Top then s'.w.Idle? else s'.w == RemTidy(s.w.key, s.w.nParent, s.w.kParent.n, kn.id))
  }

  /** What the cut of kn does to rings and books. */
  ghost predicate CutEffect(s: Sys, s': Sys, kn: Ptr, key: Key) {
    && s.st.count > 0 && s.hist != [] && |s.st.pendLeaves| == 16 && kn.Tagged?
    && s'.st == s.st.(mem := s'.st.mem, pendLeaves := s'.st.pendLeaves)
    && s'.b == s.b.(up := s.b.up - {kn}, at := s.b.at - {key},
                    limbo := s.b.limbo[kn := Tomb(s.st.count - 1, |s.hist| - 1)])
    && (|| (s'.w.Idle? && s'.st.pendLeaves == s.st.pendLeaves[Del(s.st) := kn])
        || (Loose(s'.w, kn) && s'.st.pendLeaves == s.st.pendLeaves))
  }

  /** What is linked does not wait. */
  lemma UpNotLimbo(mem: Mem, b: Book, hand: set<Ptr>, p: Ptr)
    requires Owned(mem, b, hand) && p in b.up
    ensures p !in b.limbo
  {
    assert Homes(b, hand, p) <= 1;
  }

  lemma CutTreeRoot(s: Sys, s': Sys)
    requires Tree(SZ, s.st.mem, s.b.up, s.b.at, Null) && Cuts(s, s') && s.w.kParent == Top
    ensures Load(s.st.mem, s.w.kParent) in s.b.up && Tree(SZ, s'.st.mem, s'.b.up, s'.b.at, Thin(s'.w))
  {
    hide Tree;
    CutRoot(SZ, s.st.mem, s.b.up, s.b.at, s.st.mem.root.id);
  }

  lemma CutTreeSlot(s: Sys, s': Sys)
    requires Tree(SZ, s.st.mem, s.b.up, s.b.at, Null) && Cuts(s, s') && s.w.kParent.Slot?
    requires Inner(s.w.kParent.n) in s.b.up
    ensures Load(s.st.mem, s.w.kParent) in s.b.up && Tree(SZ, s'.st.mem, s'.b.up, s'.b.at, Thin(s'.w))
  {
    var n := s.w.kParent.n;
    assert GoodNode(SZ, s.st.mem.nodes[n]) by { assert ObjOk(SZ, s.st.mem, s.b.up, Inner(n)); }
    hide Tree;
    Cut(SZ, s.st.mem, s.b.up, s.b.at, n, s.w.kParent.i, Load(s.st.mem, s.w.kParent).id);
  }

  lemma CutTree(s: Sys, s': Sys)
    requires Core(s) && Cuts(s, s')
    ensures Load(s.st.mem, s.w.kParent) in s.b.up && Load(s.st.mem, s.w.kParent) !in s.b.limbo
    ensures s.w.kParent.Slot? ==> Inner(s.w.kParent.n) in s.b.up && Inner(s.w.kParent.n) !in s.b.limbo
    ensures Tree(SZ, s'.st.mem, s'.b.up, s'.b.at, Thin(s'.w))
  {
    hide Tree, Owned, Ring, Safe, Chains, Bounded, Limbo, History, CutEffect;
    if s.w.kParent == Top {
      CutTreeRoot(s, s');
    } else {
      CutTreeSlot(s, s');
      UpNotLimbo(s.st.mem, s.b, Hand(s.w), Inner(s.w.kParent.n));
    }
    UpNotLimbo(s.st.mem, s.b, Hand(s.w), Load(s.st.mem, s.w.kParent));
  }

  lemma CutSteers(s: Sys, s': Sys)
    requires Body(s) && Cuts(s, s')
    ensures Steers(s, s')
  {
    forall k, n | k in s.b.at && k in s'.b.at && n in s.st.mem.nodes && n in s'.st.mem.nodes
      ensures NextOk(s.st.mem, s'.st.mem, n, k, Tagged(s.b.at[k]))
    {
      if s.w.kParent.Slot? && n == s.w.kParent.n {
        assert s.st.mem.leaves[s.b.at[k]].key == k;
      } else {
        NextSame(s.st.mem, s'.st.mem, n, k, Tagged(s.b.at[k]));
      }
    }
  }

  lemma CutLimbo(s: Sys, s': Sys)
    requires Body(s) && Ring(s.st, s.b, s.w) && Cuts(s, s')
    requires Load(s.st.mem, s.w.kParent) !in s.b.limbo && (s.w.kParent.Slot? ==> Inner(s.w.kParent.n) !in s.b.limbo)
    ensures Limbo(s'.st.mem, s'.b)
  {
    hide History, Indexed, Bushy, Ring;
    PutFirm(s.st.mem, s.b, s.w.kParent, Null);
    BuryMoves(s, s'.b, Load(s.st.mem, s.w.kParent));
    forall n | Inner(n) in s'.b.limbo ensures LimboNode(s'.st.mem, s'.b, n) {
      LimboOld(s.st.mem, s'.st.mem, s.b, s'.b, n);
    }
  }

  lemma CutCalm(s: Sys, s': Sys)
    requires Body(s) && Cuts(s, s') && Load(s.st.mem, s.w.kParent) !in s.b.limbo
    ensures Calm(s, s')
  {
    CutSteers(s, s');
    PutFates(s, s', s.w.kParent, Null);
  }

  lemma CutBody(s: Sys, s': Sys)
    requires Core(s) && Cuts(s, s')
    ensures Body(s') && Calm(s, s')
  {
    hide Tree, Limbo, History, Owned, Ring, Safe, Chains, Bounded;
    CutTree(s, s');
    CutLimbo(s, s');
    BuryHistory(s, s'.st.mem, s'.b, Load(s.st.mem, s.w.kParent));
    CutCalm(s, s');
  }

  lemma CutRing(s: Sys, s': Sys, kn: Ptr, key: Key)
    requires Ring(s.st, s.b, s.w) && s.w.RemDive? && CutEffect(s, s', kn, key) && kn !in s.b.limbo
    ensures Ring(s'.st, s'.b, s'.w)
  {
    RingFree(s);
    forall q | q in s'.b.limbo ensures Waits(s'.st, s'.b, s'.w, q) {
      if q in s.b.limbo { assert Waits(s.st, s.b, s.w, q); }
    }
    forall d | 0 <= d < 16 ensures RingSlot(s'.st, s'.b, d) {
      assert RingSlot(s.st, s.b, d);
    }
  }

  lemma FewerKeys(at: map<Key, nat>, k: Key)
    ensures |at - {k}| <= |at|
  {
    assert (at - {k}).Keys == at.Keys - {k};
    assert |at - {k}| == |(at - {k}).Keys| && |at| == |at.Keys|;
  }

  lemma CutStock(s: Sys, s': Sys, place: Place, kn: Ptr, key: Key)
    requires Stock(s) && s.w.RemDive? && CutEffect(s, s', kn, key) && kn in s.b.up && kn !in s.b.limbo
    requires PlaceOk(s.st.mem, place) && (place.Slot? ==> Inner(place.n) in s.b.up)
    requires s'.st.mem == Put(s.st.mem, place, Null)
    ensures Stock(s')
  {
    hide Owned, Ring;
    assert Hand(s.w) == {} && Hand(s'.w) == {};
    PutObjects(s.st.mem, place, Null);
    BuryOwned(s.st.mem, s'.st.mem, s.b, s'.b, kn);
    FewerKeys(s.b.at, key);
    CutRing(s, s', kn, key);
    PutStock(s, s', place, Null);
  }

  /** The node that lost a child had another one. */
  lemma CutLeavesOne(s: Sys, s': Sys)
    requires Core(s) && Cuts(s, s') && s.w.kParent.Slot?
    ensures WriterOk(s')
  {
    hide Stock, Limbo, History, Indexed;
    var n := s.w.kParent.n;
    assert TwoChildren(s.st.mem.nodes[n]);
    var i, j :| 0 <= i < j < |s.st.mem.nodes[n].child| && s.st.mem.nodes[n].child[i] != Null
        && s.st.mem.nodes[n].child[j] != Null;
    var x := if i == s.w.kParent.i then j else i;
    assert s'.st.mem.nodes[n].child[x] != Null;
  }

  lemma CutDone(s: Sys, s': Sys)
    requires Core(s) && Cuts(s, s')
    ensures Core(s') && Calm(s, s')
  {
    CutBody(s, s');
    CutTree(s, s');
    CutStock(s, s', s.w.kParent, Load(s.st.mem, s.w.kParent), s.w.key);
    if s.w.kParent.Slot? { CutLeavesOne(s, s'); }
  }

  lemma CutsNow(s: Sys)
    requires Ready(s) && s.w.RemDive?
    requires var kn := Load(s.st.mem, s.w.kParent); kn.Tagged? && s.st.mem.leaves[kn.id].key == s.w.key
    ensures Cuts(s, DiveRemove(s))
  {
  }

  lemma CutOk(s: Sys)
    requires Core(s) && Ready(s) && s.w.RemDive?
    requires var kn := Load(s.st.mem, s.w.kParent); kn.Tagged? && s.st.mem.leaves[kn.id].key == s.w.key
    ensures Core(DiveRemove(s)) && Calm(s, DiveRemove(s))
  {
    CutsNow(s);
    CutDone(s, DiveRemove(s));
  }

  // ---------------------------------------------------------------------------------------
  // Taking a thin node out: critnib.c:500-522

  /** critnib.c:517: the scan finds a child; it is the only one, or there are two. */
  lemma ScanDecides(nd: Node)
    requires exists i :: 0 <= i < |nd.child| && nd.child[i] != Null
    ensures (exists i: nat :: OnlyChild(nd, i)) <==> !TwoChildren(nd)
  {
    if !TwoChildren(nd) {
      var i: nat :| i < |nd.child| && nd.child[i] != Null;
      assert OnlyChild(nd, i);
    }
  }

  lemma TidyRing(s: Sys, s': Sys)
    requires Ring(s.st, s.b, s.w) && s.w.RemTidy? && s'.w.Idle? && Tagged(s.w.k) in s.b.limbo
    requires s'.st.count == s.st.count && s'.st.pendLeaves == s.st.pendLeaves[Del(s.st) := Tagged(s.w.k)]
    requires |s.hist| > 0
    requires || (s'.b.limbo == s.b.limbo && s'.st.pendNodes == s.st.pendNodes)
             || (&& Inner(s.w.n) !in s.b.limbo
                 && s'.b.limbo == s.b.limbo[Inner(s.w.n) := Tomb(s.st.count - 1, |s.hist| - 1)]
                 && s'.st.pendNodes == s.st.pendNodes[Del(s.st) := Inner(s.w.n)])
    ensures Ring(s'.st, s'.b, s'.w)
  {
    RingFree(s);
    assert Waits(s.st, s.b, s.w, Tagged(s.w.k));
    forall q | q in s'.b.limbo ensures Waits(s'.st, s'.b, s'.w, q) {
      if q in s.b.limbo { assert Waits(s.st, s.b, s.w, q); }
    }
    forall d | 0 <= d < 16 ensures RingSlot(s'.st, s'.b, d) {
      assert RingSlot(s.st, s.b, d);
    }
  }

  /** Two children are left: only the ring changes. */
  /** A node that keeps two children stays: only the ring of leaves is written. */
  lemma KeepEffect(s: Sys)
    requires Ready(s) && s.w.RemTidy? && !exists i: nat :: OnlyChild(s.st.mem.nodes[s.w.n], i)
    ensures var s' := TidyRemove(s);
            && s'.w.Idle? && s'.b == s.b && s'.readers == s.readers && s'.hist == s.hist + [Entries(s.st.mem, s.b.at)]
            && s'.st == s.st.(pendLeaves := s.st.pendLeaves[Del(s.st) := Tagged(s.w.k)])
  {
    hide Entries;
  }

  lemma KeepStock(s: Sys, s': Sys)
    requires Stock(s) && s.w.RemTidy? && Tagged(s.w.k) in s.b.limbo && s.hist != []
    requires s'.w.Idle? && s'.b == s.b && s'.st == s.st.(pendLeaves := s.st.pendLeaves[Del(s.st) := Tagged(s.w.k)])
    ensures Stock(s')
  {
    hide Ring, Owned, Safe;
    TidyRing(s, s');
  }

  lemma KeepBody(s: Sys, s': Sys)
    requires Body(s) && s.w.RemTidy? && s'.w.Idle? && s'.b == s.b && s'.st.mem == s.st.mem && s.st.count <= s'.st.count
    requires s.w.n in s.st.mem.nodes && TwoChildren(s.st.mem.nodes[s.w.n])
    requires s'.readers == s.readers && s'.hist == s.hist + [Entries(s.st.mem, s.b.at)]
    ensures Body(s') && Calm(s, s')
  {
    assert Bushy(s.st.mem, s.b.up, Null);
    QuietHistory(s, s');
    SteersFrame(s, s');
    FatesFrame(s, s');
  }

  lemma KeepNodeOk(s: Sys)
    requires Core(s) && Ready(s) && s.w.RemTidy? && !exists i: nat :: OnlyChild(s.st.mem.nodes[s.w.n], i)
    ensures Core(TidyRemove(s)) && Calm(s, TidyRemove(s))
  {
    hide Body, Stock, TidyRemove, Calm;
    KeepEffect(s);
    ScanDecides(s.st.mem.nodes[s.w.n]);
    KeepStock(s, TidyRemove(s));
    KeepBody(s, TidyRemove(s));
  }

  lemma QuietHistory(s: Sys, s': Sys)
    requires Body(s) && s'.st.mem == s.st.mem && s'.b == s.b && s'.hist == s.hist + [Entries(s.st.mem, s.b.at)]
    ensures History(s'.st.mem, s'.b, s'.hist)
  {
    HistoryFrame(s.st.mem, s.st.mem, s.b, s.b, s.hist);
  }

  /** What taking node n out does, with its only child in slot i. */
  ghost predicate Takes(s: Sys, s': Sys, i: nat) {
    && s.w.RemTidy? && s'.w.Idle? && s.st.count > 0 && s.hist != [] && |s.st.pendNodes| == 16 && |s.st.pendLeaves| == 16
    && s.w.n in s.st.mem.nodes && OnlyChild(s.st.mem.nodes[s.w.n], i) && PlaceOk(s.st.mem, s.w.nParent)
    && var c := s.st.mem.nodes[s.w.n].child[i];
    && s'.st == s.st.(mem := Put(s.st.mem, s.w.nParent, c),
                      pendNodes := s.st.pendNodes[Del(s.st) := Inner(s.w.n)],
                      pendLeaves := s.st.pendLeaves[Del(s.st) := Tagged(s.w.k)])
    && s'.b == Bury(s.b, RelinkUp(s.b.up, s.w.nParent, s.w.n, c), Inner(s.w.n), s.st.count - 1, |s.hist| - 1)
    && Served(s.st.mem, s.b.at) && s'.readers == s.readers && s'.hist == s.hist + [Entries(s'.st.mem, s'.b.at)]
  }

  lemma TakeTree(s: Sys, s': Sys, i: nat)
    requires Core(s) && Takes(s, s', i)
    ensures Tree(SZ, s'.st.mem, s'.b.up, s'.b.at, Null)
    ensures var c := s.st.mem.nodes[s.w.n].child[i];
            c in s.b.up && c != Inner(s.w.n) && Without(s.b.up, s'.b.up, Inner(s.w.n))
    ensures Inner(s.w.n) !in s.b.limbo && (s.w.nParent.Slot? ==> Inner(s.w.nParent.n) in s.b.up)
  {
    var n := s.w.n;
    assert ObjOk(SZ, s.st.mem, s.b.up, Inner(n));
    assert SlotOk(s.st.mem, s.b.up, n, i);
    Relink(SZ, s.st.mem, s.b.up, s.b.at, s.w.nParent, n, i);
    assert Homes(s.b, Hand(s.w), Inner(n)) == 1;
  }

  /** The node taken out is frozen with its one child, which is linked. */
  lemma TakeNode(s: Sys, s': Sys, i: nat)
    requires Body(s) && Takes(s, s', i) && Firm(s.st.mem, s'.st.mem, s.b)
    requires Without(s.b.up, s'.b.up, Inner(s.w.n)) && Inner(s.w.n) in s.b.up
    requires s'.st.mem.nodes[s.w.n] == s.st.mem.nodes[s.w.n]
    ensures LimboNode(s'.st.mem, s'.b, s.w.n)
  {
    var n := s.w.n;
    assert ObjOk(SZ, s.st.mem, s.b.up, Inner(n));
    forall j | 0 <= j < 16 ensures LimboSlot(s'.st.mem, s'.b, n, j) {
      assert SlotOk(s.st.mem, s.b.up, n, j);
    }
  }

  lemma TakeFrame(s: Sys, s': Sys, i: nat)
    requires Body(s) && Owned(s.st.mem, s.b, Hand(s.w)) && Takes(s, s', i) && Inner(s.w.n) in s.b.up
    requires s.b.up[Inner(s.w.n)] == s.w.nParent
    requires s.w.nParent.Slot? ==> Inner(s.w.nParent.n) in s.b.up
    ensures s'.st.mem.nodes[s.w.n] == s.st.mem.nodes[s.w.n]
    ensures forall n :: Inner(n) in s.b.limbo ==> s'.st.mem.nodes[n] == s.st.mem.nodes[n]
  {
    if s.w.nParent.Slot? {
      RelinkSlot(SZ, s.st.mem, s.b.up, s.w.nParent, s.w.n, i);
      assert Homes(s.b, Hand(s.w), Inner(s.w.nParent.n)) == 1;
    }
  }

  lemma TakeMoves(s: Sys, s': Sys, i: nat)
    requires Limbo(s.st.mem, s.b) && History(s.st.mem, s.b, s.hist) && Ring(s.st, s.b, s.w) && Takes(s, s', i)
    requires forall p :: p in s.b.up ==> p != Null && Alloc(s.st.mem, p)
    requires Without(s.b.up, s'.b.up, Inner(s.w.n)) && Inner(s.w.n) !in s.b.limbo
    ensures Firm(s.st.mem, s'.st.mem, s.b) && Moves(s.b, s'.b)
  {
    hide History;
    PutFirm(s.st.mem, s.b, s.w.nParent, s.st.mem.nodes[s.w.n].child[i]);
    BuryMoves(s, s'.b, Inner(s.w.n));
  }

  lemma TakeLimbo(s: Sys, s': Sys, i: nat)
    requires Body(s) && Stock(s) && Takes(s, s', i) && Inner(s.w.n) in s.b.up && s.b.up[Inner(s.w.n)] == s.w.nParent
    requires Without(s.b.up, s'.b.up, Inner(s.w.n)) && Inner(s.w.n) !in s.b.limbo
    requires s.w.nParent.Slot? ==> Inner(s.w.nParent.n) in s.b.up
    ensures Limbo(s'.st.mem, s'.b)
  {
    TakeFrame(s, s', i);
    TakeMoves(s, s', i);
    TakeNode(s, s', i);
    forall n | Inner(n) in s.b.limbo ensures LimboNode(s'.st.mem, s'.b, n) {
      LimboOld(s.st.mem, s'.st.mem, s.b, s'.b, n);
    }
  }

  lemma TakeSkips(m: Mem, n: nat, k: Key, t: Ptr, i: nat)
    requires n in m.nodes && OnlyChild(m.nodes[n], i) && t.Tagged? && Leads(m, Inner(n), k, t)
    ensures m.nodes[n].sh < |k| && k[m.nodes[n].sh] == i
  {
  }

  lemma TakeSteers(s: Sys, s': Sys, i: nat)
    requires Body(s) && Takes(s, s', i) && Load(s.st.mem, s.w.nParent) == Inner(s.w.n)
    ensures Steers(s, s')
  {
    forall k, n | k in s.b.at && k in s'.b.at && n in s.st.mem.nodes && n in s'.st.mem.nodes
      ensures NextOk(s.st.mem, s'.st.mem, n, k, Tagged(s.b.at[k]))
    {
      if s.w.nParent.Slot? && n == s.w.nParent.n {
        if Leads(s.st.mem, Inner(s.w.n), k, Tagged(s.b.at[k])) {
          TakeSkips(s.st.mem, s.w.n, k, Tagged(s.b.at[k]), i);
        }
      } else {
        NextSame(s.st.mem, s'.st.mem, n, k, Tagged(s.b.at[k]));
      }
    }
  }

  lemma TakeCalm(s: Sys, s': Sys, i: nat)
    requires Body(s) && Takes(s, s', i) && Inner(s.w.n) in s.b.up && s.b.up[Inner(s.w.n)] == s.w.nParent
    requires Without(s.b.up, s'.b.up, Inner(s.w.n)) && Inner(s.w.n) !in s.b.limbo
    ensures Calm(s, s')
  {
    assert ObjOk(SZ, s.st.mem, s.b.up, Inner(s.w.n));
    TakeSteers(s, s', i);
    PutFates(s, s', s.w.nParent, s.st.mem.nodes[s.w.n].child[i]);
  }

  lemma TakeBody(s: Sys, s': Sys, i: nat)
    requires Core(s) && Takes(s, s', i)
    ensures Body(s') && Calm(s, s')
  {
    hide Tree, Limbo, Stock, Calm;
    TakeTree(s, s', i);
    TakeFacts(s, s', i);
    TakeLimbo(s, s', i);
    BuryHistory(s, s'.st.mem, s'.b, Inner(s.w.n));
    TakeCalm(s, s', i);
  }

  /** What Takes says of books and history. */
  lemma TakeFacts(s: Sys, s': Sys, i: nat)
    requires Takes(s, s', i) && WriterOk(s)
    ensures s'.w.Idle? && Inner(s.w.n) in s.b.up && s.b.up[Inner(s.w.n)] == s.w.nParent
    ensures forall q :: q in s'.b.limbo <==> q in s.b.limbo || q == Inner(s.w.n)
    ensures s'.b.limbo[Inner(s.w.n)].dead == |s.hist| - 1
    ensures Inner(s.w.n) !in s.b.limbo ==> forall q :: q in s.b.limbo ==> s'.b.limbo[q] == s.b.limbo[q]
    ensures s'.st.mem.leaves == s.st.mem.leaves && Served(s'.st.mem, s'.b.at)
    ensures s'.hist == s.hist + [Entries(s'.st.mem, s'.b.at)]
  {
    hide Entries;
  }

  lemma TakeStock(s: Sys, s': Sys, i: nat)
    requires Stock(s) && Takes(s, s', i) && Tagged(s.w.k) in s.b.limbo && Inner(s.w.n) in s.b.up
    requires Inner(s.w.n) !in s.b.limbo
    requires Without(s.b.up, s'.b.up, Inner(s.w.n)) && (s.w.nParent.Slot? ==> Inner(s.w.nParent.n) in s.b.up)
    ensures Stock(s')
  {
    hide Owned, Ring;
    var c := s.st.mem.nodes[s.w.n].child[i];
    assert SafeNode(s.st.mem, Null, s.w.n);
    assert Hand(s.w) == {} && Hand(s'.w) == {};
    PutObjects(s.st.mem, s.w.nParent, c);
    BuryOwned(s.st.mem, s'.st.mem, s.b, s'.b, Inner(s.w.n));
    TidyRing(s, s');
    PutStock(s, s', s.w.nParent, c);
  }

  lemma TidyOk(s: Sys)
    requires Core(s) && Ready(s) && s.w.RemTidy?
    ensures Core(TidyRemove(s)) && Calm(s, TidyRemove(s))
  {
    hide Body, Stock, Calm;
    var s' := TidyRemove(s);
    if exists i: nat :: OnlyChild(s.st.mem.nodes[s.w.n], i) {
      var i: nat :| OnlyChild(s.st.mem.nodes[s.w.n], i);
      assert Takes(s, s', i);
      TakeTree(s, s', i);
      TakeBody(s, s', i);
      TakeStock(s, s', i);
    } else {
      KeepNodeOk(s);
    }
  }
}
