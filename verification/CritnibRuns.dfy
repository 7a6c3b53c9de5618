/** The guarantees of critnib.c over all runs: any number of inserts, removes and concurrent
    gets, interleaved in any way at the granularity of single loads and stores. */
module CritnibRuns {
  import opened Digits
  import opened RadixTree
  import opened RadixParts
  import opened RadixUpdates
  import opened CritnibModel
  import opened CritnibInv
  import opened CritnibReaders
  import opened CritnibQuiet
  import opened CritnibStores

  ghost predicate Inv(s: Sys) {
    Core(s) && forall r :: r in s.readers ==> ReaderOk(s, s.readers[r])
  }

  lemma InitInv()
    ensures Inv(Init())
  {
    var s := Init();
    forall p ensures Homes(s.b, {}, p) == if p != Null && Alloc(s.st.mem, p) then 1 else 0 {
    }
    forall d | 0 <= d < 16 ensures RingSlot(s.st, s.b, d) {
    }
  }

  // ---------------------------------------------------------------------------------------
  // Every step keeps the invariant

  lemma DiveInsertOk(s: Sys, mal: Malloc)
    requires Core(s) && Ready(s) && s.w.InsDive?
    ensures Core(DiveInsert(s, mal)) && Calm(s, DiveInsert(s, mal))
  {
    hide Core, Calm;
    var n := Load(s.st.mem, s.w.parent);
    if n == Null {
      PublishOk(s);
    } else if n.Inner? && Masked(s.w.key, s.st.mem.nodes[n.id].sh) == s.st.mem.nodes[n.id].path {
      DiveMoves(s);
    } else if Label(s.st.mem, n) == s.w.key {
      GiveBackOk(s, EEXIST);
    } else if AllocNode(s.st, s.b, mal).2 == Null {
      GiveBackOk(s, ENOMEM);
    } else {
      StartBuildOk(s, mal);
    }
  }

  lemma DiveRemoveOk(s: Sys)
    requires Core(s) && Ready(s) && s.w.RemDive?
    ensures Core(DiveRemove(s)) && Calm(s, DiveRemove(s))
  {
    var kn := Load(s.st.mem, s.w.kParent);
    if kn.Tagged? && s.st.mem.leaves[kn.id].key == s.w.key {
      CutOk(s);
    } else {
      RemoveDiveOk(s);
    }
  }

  lemma WriterStepOk(s: Sys, mal: Malloc)
    requires Core(s) && Ready(s) && !s.w.Idle?
    ensures Core(WriterStep(s, mal)) && Calm(s, WriterStep(s, mal))
  {
    hide Core, Calm;
    match s.w
    case InsKey(_, _, _) => WriteKeyOk(s);
    case InsVal(_, _, _) => WriteValOk(s);
    case InsDive(_, _, _, _) => DiveInsertOk(s, mal);
    case InsBuild(_, _, _, _, _, _, stage) =>
      if stage < 20 { BuildOk(s); } else { SpliceOk(s); }
    case RemNode(_) => RecycleNodeOk(s);
    case RemLeaf(_) => RecycleLeafOk(s);
    case RemDive(_, _, _) => DiveRemoveOk(s);
    case RemTidy(_, _, _, _) => TidyOk(s);
  }

  predicate Writes(s: Sys, a: Action) {
    match a
    case StartInsert(_, _, _) => s.w.Idle?
    case StartRemove(_) => s.w.Idle?
    case Write(_) => !s.w.Idle?
    case _ => false
  }

  lemma WriteOk(s: Sys, a: Action)
    requires Core(s) && Ready(s) && Writes(s, a)
    ensures Core(Step(s, a)) && Calm(s, Step(s, a))
  {
    match a
    case StartInsert(key, value, mal) => BeginInsertOk(s, key, value, mal);
    case StartRemove(key) => BeginRemoveOk(s, key);
    case Write(mal) => WriterStepOk(s, mal);
  }

  lemma ReadersKept(s: Sys, s': Sys)
    requires Inv(s) && Core(s') && Calm(s, s')
    ensures Inv(s')
  {
    forall r | r in s'.readers ensures ReaderOk(s', s'.readers[r]) {
      ReaderKept(s, s', s.readers[r]);
    }
  }

  /** Only the reader table differs. */
  lemma OtherReader(s: Sys, s': Sys, r: Reader)
    requires ReaderOk(s, r) && s' == s.(readers := s'.readers)
    ensures ReaderOk(s', r)
  {
  }

  lemma SameCore(s: Sys, s': Sys)
    requires Core(s) && s' == s.(readers := s'.readers)
    ensures Core(s')
  {
  }

  lemma ReadOk(s: Sys, a: Action)
    requires Inv(s) && Ready(s) && !Writes(s, a)
    ensures Inv(Step(s, a))
  {
    hide Core, Ready;
    var s' := Step(s, a);
    SameCore(s, s');
    forall r | r in s'.readers ensures ReaderOk(s', s'.readers[r]) {
      if a.Read? && r == a.r && r in s.readers { ReaderStepOk(s, s.readers[r]); }
      OtherReader(s, s', s'.readers[r]);
    }
  }

  lemma StepInv(s: Sys, a: Action)
    requires Inv(s)
    ensures Ready(s) && Inv(Step(s, a))
  {
    CoreReady(s);
    if Writes(s, a) {
      WriteOk(s, a);
      ReadersKept(s, Step(s, a));
    } else {
      ReadOk(s, a);
    }
  }

  /** The state after a run of any actions from a new critnib. By RunInv every state of a run is ready for a step. */
  ghost function Run(acts: seq<Action>): Sys
    decreases |acts|
  {
    if acts == [] then Init()
    else
      var s := Run(acts[..|acts| - 1]);
      if Ready(s) then Step(s, acts[|acts| - 1]) else s
  }

  lemma {:induction false} RunInv(acts: seq<Action>)
    ensures Inv(Run(acts)) && Ready(Run(acts))
    decreases |acts|
  {
    hide Inv, Ready, Step;
    if acts == [] {
      InitInv();
    } else {
      RunInv(acts[..|acts| - 1]);
      StepInv(Run(acts[..|acts| - 1]), acts[|acts| - 1]);
    }
    InvReady(Run(acts));
  }

  /** One more action. */
  lemma Then(acts: seq<Action>, a: Action)
    ensures Ready(Run(acts)) && Run(acts + [a]) == Step(Run(acts), a)
  {
    hide Ready, Step, Inv;
    RunInv(acts);
    assert (acts + [a])[..|acts + [a]| - 1] == acts;
  }

  lemma InvReady(s: Sys)
    requires Inv(s)
    ensures Ready(s)
  {
    CoreReady(s);
  }

  // ---------------------------------------------------------------------------------------
  // The guarantees

  /** The abstract map of a state. */
  function Current(s: Sys): map<Key, Word>
    requires s.hist != []
  {
    s.hist[|s.hist| - 1]
  }

  /** critnib.c:97-103: the answer of a get is the lookup of its key in the abstract map at some
      instant between the call and the return. */
  lemma GetIsCurrent(acts: seq<Action>, r: nat)
    requires r in Run(acts).readers && Run(acts).readers[r].Done?
    ensures var s := Run(acts); var Done(q, end, res) := s.readers[r];
            && q.call <= end < |s.hist|
            && Answer(s.hist, q.key, q.call, end, res)
  {
    RunInv(acts);
    var s := Run(acts);
    var Done(q, end, res) := s.readers[r];
    assert ReaderOk(s, s.readers[r]);
    var j :| q.start <= j <= end < |s.hist| && res == Lookup(s.hist[j], q.key);
    assert q.call <= j;
  }

  /** The pointer that a reader holds, if any. */
  function HeldPtr(r: Reader): Ptr {
    if r.AtPtr? || r.AtSlot? || r.AtValue? then r.cur else Null
  }

  /** critnib.c:87-93, 275-292: stale or not, a reader's pointer is NULL or leads to an object of
      the right kind that the critnib still owns, with sixteen slots and a shift in range. */
  lemma HeldPointersSound(acts: seq<Action>, r: nat)
    requires r in Run(acts).readers
    ensures var s := Run(acts); var p := HeldPtr(s.readers[r]);
            && Alloc(s.st.mem, p) && NodeOk(s.st.mem, p)
            && (p != Null ==> Homes(s.b, Hand(s.w), p) == 1)
  {
    RunInv(acts);
    var s := Run(acts);
    assert ReaderOk(s, s.readers[r]);
    var p := HeldPtr(s.readers[r]);
    assert Homes(s.b, Hand(s.w), p) == if p != Null && Alloc(s.st.mem, p) then 1 else 0;
    if p.Inner? { assert SafeNode(s.st.mem, Raw(s.w), p.id); }
  }

  /** The grace period suffices: while fewer than sixteen removes have begun since the snapshot w,
      what a reader holds is linked, or was unlinked by remove w-1 or a later one and still waits. */
  lemma GracePeriod(acts: seq<Action>, r: nat)
    requires r in Run(acts).readers && HeldPtr(Run(acts).readers[r]) != Null
    requires Timely(Run(acts), Run(acts).readers[r].q)
    ensures var s := Run(acts); var p := HeldPtr(s.readers[r]);
            && (p in s.b.up || (p in s.b.limbo && s.readers[r].q.w <= s.b.limbo[p].rem + 1))
            && !InPool(s.b, p) && p !in Hand(s.w)
  {
    RunInv(acts);
    var s := Run(acts);
    var p := HeldPtr(s.readers[r]);
    assert ReaderOk(s, s.readers[r]);
    assert Homes(s.b, Hand(s.w), p) == if p != Null && Alloc(s.st.mem, p) then 1 else 0;
  }

  /** The object that the remove under way recycles next. */
  function Due(s: Sys): Ptr
    requires (s.w.RemNode? || s.w.RemLeaf?) && s.st.count > 0 && |s.st.pendNodes| == 16 && |s.st.pendLeaves| == 16
  {
    if s.w.RemNode? then s.st.pendNodes[Del(s.st)] else s.st.pendLeaves[Del(s.st)]
  }

  /** What is recycled while the counter stands at c was unlinked by remove c-17, and no timely reader holds it. (That
      a reader with snapshot c-16 can hold it is shown by a run in CritnibWitness.) */
  lemma RecycledWhenDue(acts: seq<Action>)
    requires Run(acts).w.RemNode? || Run(acts).w.RemLeaf?
    ensures var s := Run(acts);
            && s.st.count > 0 && |s.st.pendNodes| == 16 && |s.st.pendLeaves| == 16
            && (Due(s) != Null ==>
                  && Due(s) in s.b.limbo && s.b.limbo[Due(s)].rem + LIFE + 1 == s.st.count
                  && forall r :: r in s.readers && HeldPtr(s.readers[r]) == Due(s) ==> !Timely(s, s.readers[r].q))
  {
    hide Core, Inv;
    RunInv(acts);
    var s := Run(acts);
    InvCore(s);
    DueRem(s);
    if Due(s) != Null {
      forall r | r in s.readers && HeldPtr(s.readers[r]) == Due(s) ensures !Timely(s, s.readers[r].q) {
        if Timely(s, s.readers[r].q) { GracePeriod(acts, r); }
      }
    }
  }

  lemma InvCore(s: Sys)
    requires Inv(s)
    ensures Core(s)
  {
  }

  lemma DueRem(s: Sys)
    requires Core(s) && (s.w.RemNode? || s.w.RemLeaf?)
    ensures s.st.count > 0 && |s.st.pendNodes| == 16 && |s.st.pendLeaves| == 16
    ensures Due(s) != Null ==>
              Due(s) in s.b.limbo && s.b.limbo[Due(s)].rem + LIFE + 1 == s.st.count && Due(s) !in s.b.up
  {
    hide Body, Safe, Chains, Bounded;
    assert RingSlot(s.st, s.b, Del(s.st));
    if Due(s) != Null {
      assert Waits(s.st, s.b, s.w, Due(s));
      assert Homes(s.b, Hand(s.w), Due(s)) <= 1;
    }
  }

  /** No step overwrites what a reader holds unless it makes the reader stale: key and value of a
      leaf, path and shift of a node stay. */
  lemma KeepsHeld(s: Sys, a: Action, rd: Reader)
    requires Core(s) && Ready(s) && ReaderOk(s, rd) && HeldPtr(rd) != Null && Writes(s, a) && Timely(Step(s, a), rd.q)
    ensures var mem, mem', p := s.st.mem, Step(s, a).st.mem, HeldPtr(rd);
            && Alloc(mem, p) && Alloc(mem', p)
            && (p.Tagged? ==> mem'.leaves[p.id] == mem.leaves[p.id])
            && (p.Inner? ==> mem'.nodes[p.id].path == mem.nodes[p.id].path && mem'.nodes[p.id].sh == mem.nodes[p.id].sh)
  {
    hide Core, Step;
    WriteOk(s, a);
    SeenStays(s, Step(s, a), rd.q, HeldPtr(rd));
  }

  /** Recycling changes no node but the one that is due. */
  lemma RecycleWrites(s: Sys, mal: Malloc, n: nat)
    requires Ready(s) && (s.w.RemNode? || s.w.RemLeaf?) && s.st.count > 0
    requires n in s.st.mem.nodes && (s.w.RemNode? ==> Inner(n) != Due(s))
    ensures var s' := WriterStep(s, mal); n in s'.st.mem.nodes && s'.st.mem.nodes[n] == s.st.mem.nodes[n]
  {
  }

  lemma RecycleCount(s: Sys, mal: Malloc)
    requires Ready(s) && (s.w.RemNode? || s.w.RemLeaf?)
    ensures WriterStep(s, mal).st.count == s.st.count
  {
  }

  /** The same over runs; and free_node and free_leaf leave the whole of a held node alone, child[0] included. */
  lemma NothingOverwritten(acts: seq<Action>, a: Action, r: nat)
    requires r in Run(acts).readers && HeldPtr(Run(acts).readers[r]) != Null
    requires Ready(Run(acts)) && Writes(Run(acts), a) && Timely(Step(Run(acts), a), Run(acts).readers[r].q)
    ensures var s := Run(acts); var mem, mem' := s.st.mem, Step(s, a).st.mem; var p := HeldPtr(s.readers[r]);
            && Alloc(mem, p) && Alloc(mem', p)
            && (p.Tagged? ==> mem'.leaves[p.id] == mem.leaves[p.id])
            && (p.Inner? ==> mem'.nodes[p.id].path == mem.nodes[p.id].path && mem'.nodes[p.id].sh == mem.nodes[p.id].sh)
            && (p.Inner? && (s.w.RemNode? || s.w.RemLeaf?) ==> mem'.nodes[p.id] == mem.nodes[p.id])
  {
    hide Core, Ready, ReaderOk, WriterStep;
    RunInv(acts);
    var s := Run(acts);
    assert ReaderOk(s, s.readers[r]);
    KeepsHeld(s, a, s.readers[r]);
    if HeldPtr(s.readers[r]).Inner? && (s.w.RemNode? || s.w.RemLeaf?) {
      RecycledWhenDue(acts);
      RecycleCount(s, a.mal);
      RecycleWrites(s, a.mal, HeldPtr(s.readers[r]).id);
    }
  }

  /** Progress: one timely attempt loads at most sixteen inner nodes. */
  lemma TimelyBound(s: Sys, rd: Reader)
    requires ReaderOk(s, rd) && (rd.AtPtr? || rd.AtSlot?) && Timely(s, rd.q)
    ensures rd.hops <= 16
    ensures rd.cur.Inner? ==> rd.cur.id in s.st.mem.nodes && rd.hops + s.st.mem.nodes[rd.cur.id].sh < 16
  {
  }

  /** The next load of a timely reader at a node takes it to a node with a smaller shift, a leaf or NULL. */
  lemma TimelyDescent(s: Sys, rd: Reader)
    requires Core(s) && ReaderOk(s, rd) && rd.AtSlot? && Timely(s, rd.q)
    ensures s.hist != [] && ReaderStep(s, rd).AtPtr? && ReaderStep(s, rd).hops == rd.hops + 1
    ensures rd.cur.Inner? && rd.cur.id in s.st.mem.nodes && s.st.mem.nodes[rd.cur.id].sh == rd.sh
    ensures var c := ReaderStep(s, rd).cur; c.Inner? ==> c.id in s.st.mem.nodes && s.st.mem.nodes[c.id].sh < rd.sh
  {
    hide Stock;
    SeenChild(s, rd.q.start, rd.cur.id, rd.q.key[rd.sh]);
  }

  /** Progress: one timely attempt loads at most sixteen inner nodes, and each load takes it to a smaller shift than
      that of the node it is at, even if that node was unlinked or another was spliced in below it meanwhile. */
  lemma TimelyProgress(acts: seq<Action>, r: nat)
    requires r in Run(acts).readers && (Run(acts).readers[r].AtPtr? || Run(acts).readers[r].AtSlot?)
    requires Timely(Run(acts), Run(acts).readers[r].q)
    ensures var s := Run(acts); var rd := s.readers[r];
            && rd.hops <= 16
            && (rd.cur.Inner? ==> rd.cur.id in s.st.mem.nodes && rd.hops + s.st.mem.nodes[rd.cur.id].sh < 16)
    ensures var s := Run(acts); var rd := s.readers[r];
            rd.AtSlot? ==>
              && s.hist != [] && rd.cur.Inner? && s.st.mem.nodes[rd.cur.id].sh == rd.sh
              && ReaderStep(s, rd).AtPtr?
              && var c := ReaderStep(s, rd).cur; c.Inner? ==> c.id in s.st.mem.nodes && s.st.mem.nodes[c.id].sh < rd.sh
  {
    hide Core, ReaderOk, ReaderStep;
    RunInv(acts);
    var s := Run(acts);
    assert ReaderOk(s, s.readers[r]);
    TimelyBound(s, s.readers[r]);
    if s.readers[r].AtSlot? { TimelyDescent(s, s.readers[r]); }
  }

  // ---------------------------------------------------------------------------------------
  // Conservation

  /** Some key leads from the root to p. */
  ghost predicate Reachable(mem: Mem, p: Ptr) {
    p != Null && mem.root != Null && Alloc(mem, mem.root) && exists k :: Leads(mem, mem.root, k, p)
  }

  predicate InRings(st: Store, p: Ptr) {
    p != Null && (p in st.pendNodes || p in st.pendLeaves)
  }

  /** p is on the free list of its kind. */
  ghost predicate InLists(st: Store, p: Ptr) {
    || (p.Inner? && exists pool :: ChainN(st.mem, st.deletedNode, pool) && p.id in pool)
    || (p.Tagged? && exists pool :: ChainL(st.mem, st.deletedLeaf, pool) && p.id in pool)
  }

  lemma {:induction false} OneChainN(mem: Mem, head: Ptr, a: seq<nat>, b: seq<nat>)
    requires ChainN(mem, head, a) && ChainN(mem, head, b)
    ensures a == b
    decreases |a|
  {
    if a != [] {
      assert LinkN(mem, a, 0) && LinkN(mem, b, 0);
      var next := mem.nodes[a[0]].child[0];
      forall i | 0 <= i < |a| - 1 ensures LinkN(mem, a[1..], i) { assert LinkN(mem, a, i + 1); }
      forall i | 0 <= i < |b| - 1 ensures LinkN(mem, b[1..], i) { assert LinkN(mem, b, i + 1); }
      OneChainN(mem, next, a[1..], b[1..]);
      assert a == [a[0]] + a[1..] && b == [b[0]] + b[1..];
    }
  }

  lemma {:induction false} OneChainL(mem: Mem, head: Word, a: seq<nat>, b: seq<nat>)
    requires ChainL(mem, head, a) && ChainL(mem, head, b)
    ensures a == b
    decreases |a|
  {
    if a != [] {
      assert LinkL(mem, a, 0) && LinkL(mem, b, 0);
      var next := mem.leaves[a[0]].value;
      forall i | 0 <= i < |a| - 1 ensures LinkL(mem, a[1..], i) { assert LinkL(mem, a, i + 1); }
      forall i | 0 <= i < |b| - 1 ensures LinkL(mem, b[1..], i) { assert LinkL(mem, b, i + 1); }
      OneChainL(mem, next, a[1..], b[1..]);
      assert a == [a[0]] + a[1..] && b == [b[0]] + b[1..];
    }
  }

  lemma PoolIsLists(st: Store, b: Book, p: Ptr)
    requires Chains(st, b)
    ensures InPool(b, p) <==> InLists(st, p)
  {
    if p.Inner? && InLists(st, p) {
      var pool :| ChainN(st.mem, st.deletedNode, pool) && p.id in pool;
      OneChainN(st.mem, st.deletedNode, pool, b.nodePool);
    } else if p.Tagged? && InLists(st, p) {
      var pool :| ChainL(st.mem, st.deletedLeaf, pool) && p.id in pool;
      OneChainL(st.mem, st.deletedLeaf, pool, b.leafPool);
    }
  }

  lemma LimboIsRings(st: Store, b: Book, w: Writer, p: Ptr)
    requires Ring(st, b, w) && w.Idle?
    ensures p in b.limbo <==> InRings(st, p)
  {
    if p in b.limbo {
      assert Waits(st, b, w, p);
    }
    if InRings(st, p) {
      var d :| 0 <= d < 16 && (st.pendNodes[d] == p || st.pendLeaves[d] == p);
      assert RingSlot(st, b, d);
    }
  }

  lemma LinkedIsReachable(mem: Mem, up: map<Ptr, Place>, p: Ptr)
    requires Linked(SZ, mem, up)
    ensures p in up <==> Reachable(mem, p)
  {
    if p in up {
      RootLeads(SZ, mem, up, p);
    } else if Reachable(mem, p) {
      var k :| Leads(mem, mem.root, k, p);
      LeadsUnder(SZ, mem, up, mem.root, k, p);
    }
  }

  lemma HomesOf(s: Sys, p: Ptr)
    requires Core(s) && s.w.Idle? && p != Null
    ensures (p in s.b.up <==> Reachable(s.st.mem, p)) && (p in s.b.limbo <==> InRings(s.st, p))
    ensures (InPool(s.b, p) <==> InLists(s.st, p))
    ensures Homes(s.b, {}, p) == if Alloc(s.st.mem, p) then 1 else 0
  {
    hide Linked, Limbo, History, Safe, Bounded, Reachable, InRings, InLists, Chains, Ring;
    LinkedIsReachable(s.st.mem, s.b.up, p);
    LimboIsRings(s.st, s.b, s.w, p);
    PoolIsLists(s.st, s.b, p);
    assert Homes(s.b, Hand(s.w), p) == if Alloc(s.st.mem, p) then 1 else 0;
  }

  /** Between operations every allocated object is reachable from the root, in a ring or on a free list, and only one
      of these; and what is in one of these is allocated. */
  lemma Conservation(acts: seq<Action>, p: Ptr)
    requires Run(acts).w.Idle? && p != Null
    ensures var st := Run(acts).st;
            && (Alloc(st.mem, p) <==> Reachable(st.mem, p) || InRings(st, p) || InLists(st, p))
            && !(Reachable(st.mem, p) && InRings(st, p))
            && !(Reachable(st.mem, p) && InLists(st, p))
            && !(InRings(st, p) && InLists(st, p))
  {
    hide Core, Reachable, InRings, InLists;
    RunInv(acts);
    HomesOf(Run(acts), p);
  }

  // ---------------------------------------------------------------------------------------
  // The memory bound

  lemma EntriesSize(mem: Mem, at: map<Key, nat>)
    requires Served(mem, at)
    ensures |Entries(mem, at)| == |at|
  {
    assert Entries(mem, at).Keys == at.Keys;
    assert |Entries(mem, at)| == |Entries(mem, at).Keys| && |at| == |at.Keys|;
  }

  lemma CalmPeak(s: Sys, s': Sys)
    requires Calm(s, s') && History(s'.st.mem, s'.b, s'.hist)
    ensures s'.b.peak == s.b.peak || |Current(s')| == s'.b.peak
  {
    EntriesSize(s'.st.mem, s'.b.at);
  }

  /** A step keeps the history and the peak, or the new map is the new peak. */
  lemma StepPeak(s: Sys, a: Action)
    requires Inv(s) && Ready(s)
    ensures var s' := Step(s, a);
            && |s.hist| <= |s'.hist| && s'.hist[..|s.hist|] == s.hist && s'.hist != []
            && (s'.b.peak == s.b.peak || |Current(s')| == s'.b.peak)
  {
    if Writes(s, a) {
      WriteOk(s, a);
      CalmPeak(s, Step(s, a));
    }
  }

  /** Some map of the history has `peak` entries. */
  ghost predicate Reached(hist: seq<map<Key, Word>>, peak: nat) {
    exists j :: 0 <= j < |hist| && |hist[j]| == peak
  }

  lemma {:induction false} PeakReached(acts: seq<Action>)
    ensures Reached(Run(acts).hist, Run(acts).b.peak)
    decreases |acts|
  {
    RunInv(acts);
    if acts == [] {
      assert |Run(acts).hist[0]| == 0;
    } else {
      var s := Run(acts[..|acts| - 1]);
      PeakReached(acts[..|acts| - 1]);
      RunInv(acts[..|acts| - 1]);
      StepPeak(s, acts[|acts| - 1]);
      var j :| 0 <= j < |s.hist| && |s.hist[j]| == s.b.peak;
      assert Run(acts).hist[j] == s.hist[j];
    }
  }

  /** At some instant so far the critnib held so many keys that leaves ever allocated exceed them
      by at most 17 and inner nodes by at most 16. */
  ghost predicate WithinBound(s: Sys) {
    exists j :: 0 <= j < |s.hist| && |s.st.mem.leaves| <= |s.hist[j]| + 17 && |s.st.mem.nodes| <= |s.hist[j]| + 16
  }

  lemma BoundAt(s: Sys)
    requires Bounded(s.st.mem, s.b) && Reached(s.hist, s.b.peak)
    ensures WithinBound(s)
  {
    var j :| 0 <= j < |s.hist| && |s.hist[j]| == s.b.peak;
  }

  /** Memory never grows beyond the largest number of keys held so far, plus what may wait. */
  lemma MemoryBound(acts: seq<Action>)
    ensures WithinBound(Run(acts))
  {
    RunInv(acts);
    PeakReached(acts);
    BoundAt(Run(acts));
  }

  // ---------------------------------------------------------------------------------------
  // Inserts and removes are steps of a map

  /** What the step from s to s' of the operation under way does to the map, and what it returns. */
  ghost predicate MapStep(s: Sys, s': Sys) {
    && s.hist != [] && s'.hist != []
    && var m, m' := Current(s), Current(s');
    match s.w
    case InsDive(key, value, _, _) => InsertStep(m, m', key, value, s'.w)
    case InsBuild(key, value, _, _, _, _, _) => InsertStep(m, m', key, value, s'.w)
    case RemDive(key, _, _) =>
      if s'.w.Idle? then s'.w == Idle(Value(Lookup(m, key))) && m' == m - {key}
      else if s'.w.RemTidy? then
        && key in m && m' == m - {key}
        && s'.w.k in s'.st.mem.leaves && s'.st.mem.leaves[s'.w.k].value == m[key]
      else m' == m
    case RemTidy(_, _, _, k) => m' == m && k in s.st.mem.leaves && s'.w == Idle(Value(s.st.mem.leaves[k].value))
    case _ => m' == m
  }

  /** An insert changes the map at most once, in the step that returns 0. */
  ghost predicate InsertStep(m: map<Key, Word>, m': map<Key, Word>, key: Key, value: Word, w: Writer) {
    && (w == Idle(Code(Ok)) ==> key !in m && m' == m[key := value])
    && (w == Idle(Code(EEXIST)) ==> key in m && m' == m)
    && (w != Idle(Code(Ok)) ==> m' == m)
    && (w.Idle? ==> w.ret.Code?)
  }

  /** If the index of keys stays, so does the map. */
  lemma SameMap(s: Sys, s': Sys)
    requires Body(s) && Fates(s, s') && s'.b.at == s.b.at && Served(s'.st.mem, s'.b.at)
    ensures Entries(s'.st.mem, s'.b.at) == Entries(s.st.mem, s.b.at)
  {
    forall k | k in s.b.at ensures s'.st.mem.leaves[s.b.at[k]] == s.st.mem.leaves[s.b.at[k]] {
      assert Fate(s, s', Tagged(s.b.at[k]));
    }
  }

  /** A leaf with the key at the end of the dive is the entry. */
  lemma StoppedAtLeaf(s: Sys)
    requires Core(s) && s.w.InsDive? && Ready(s) && Load(s.st.mem, s.w.parent) != Null
    ensures Load(s.st.mem, s.w.parent).Tagged? && Label(s.st.mem, Load(s.st.mem, s.w.parent)) == s.w.key ==>
              s.w.key in s.b.at
  {
    PlaceReady(s, s.w.parent);
  }

  lemma PublishMaps(s: Sys)
    requires Core(s) && Ready(s) && s.w.InsDive? && Load(s.st.mem, s.w.parent) == Null
    ensures MapStep(s, DiveInsert(s, NoMem))
  {
    var s' := DiveInsert(s, NoMem);
    PublishTree(s);
    PublishHistory(s, s'.st.mem, s'.b, s.w.key, s.w.k);
  }

  /** The label of the object at the place is the key, and that is not the path of a node to be passed. */
  predicate AtEqualLabel(s: Sys)
    requires Ready(s) && s.w.InsDive? && Load(s.st.mem, s.w.parent) != Null
  {
    var n := Load(s.st.mem, s.w.parent);
    && !(n.Inner? && Masked(s.w.key, s.st.mem.nodes[n.id].sh) == s.st.mem.nodes[n.id].path)
    && Label(s.st.mem, n) == s.w.key
  }

  lemma SameIndex(st: Store, b: Book, k: nat, mal: Malloc)
    requires Chains(st, b) && Served(st.mem, b.at) && k in st.mem.leaves
    ensures AllocNode(st, b, mal).1.at == b.at && Served(AllocNode(st, b, mal).0.mem, b.at)
    ensures FreeLeaf(st, b, k).1.at == b.at && Served(FreeLeaf(st, b, k).0.mem, b.at)
  {
  }

  lemma InsertDiveIndex(s: Sys, mal: Malloc)
    requires Ready(s) && s.w.InsDive? && Load(s.st.mem, s.w.parent) != Null
    ensures var s' := DiveInsert(s, mal);
            s'.b.at == s.b.at && Served(s'.st.mem, s'.b.at) && s'.hist == s.hist + [Entries(s'.st.mem, s'.b.at)]
  {
    hide Entries, Masked, AllocNode, FreeLeaf, Chains, Served;
    SameIndex(s.st, s.b, s.w.k, mal);
  }

  lemma InsertDiveCode(s: Sys, mal: Malloc)
    requires Ready(s) && s.w.InsDive? && Load(s.st.mem, s.w.parent) != Null
    ensures var s' := DiveInsert(s, mal);
            && s'.w != Idle(Code(Ok)) && (s'.w.Idle? ==> s'.w.ret.Code?)
            && (s'.w == Idle(Code(EEXIST)) ==> AtEqualLabel(s))
  {
    hide Entries, AllocNode, FreeLeaf;
  }

  lemma InsertDiveMaps(s: Sys, mal: Malloc)
    requires Core(s) && Ready(s) && s.w.InsDive? && Load(s.st.mem, s.w.parent) != Null
    ensures MapStep(s, DiveInsert(s, mal))
  {
    var s' := DiveInsert(s, mal);
    DiveInsertOk(s, mal);
    InsertDiveIndex(s, mal);
    InsertDiveCode(s, mal);
    StopsAtLeaf(s);
    KeepsMap(s, s');
  }

  /** Where the dive of an insert stops at another label, the key is absent. */
  lemma StopsAbsent(s: Sys)
    requires Core(s) && Ready(s) && s.w.InsDive? && Load(s.st.mem, s.w.parent) != Null
    requires var n := Load(s.st.mem, s.w.parent);
             (n.Inner? ==>
                 Masked(s.w.key, s.st.mem.nodes[n.id].sh) != s.st.mem.nodes[n.id].path) && Label(s.st.mem, n) != s.w.key
    ensures s.w.key !in s.b.at && s.hist != [] && s.w.key !in Current(s)
  {
    hide Stock;
    var mem, up, key, place := s.st.mem, s.b.up, s.w.key, s.w.parent;
    var n := Load(mem, place);
    if key in s.b.at {
      var t := Tagged(s.b.at[key]);
      if place.Slot? {
        OnPath(SZ, mem, up, Inner(place.n), t);
        assert ObjOk(SZ, mem, up, Inner(place.n)) && SlotOk(mem, up, place.n, place.i);
      } else {
        RootLeads(SZ, mem, up, t);
      }
      LeadsUnder(SZ, mem, up, n, key, t);
      if n.Inner? {
        assert ObjOk(SZ, mem, up, n);
        MaskedMatch(key, mem.nodes[n.id].path, mem.nodes[n.id].sh);
      }
    }
  }

  /** A step that keeps the index, returns no 0 and EEXIST only if the key is there, is a map step of an insert. */
  lemma KeepsMap(s: Sys, s': Sys)
    requires Body(s) && Calm(s, s') && (s.w.InsDive? || s.w.InsBuild?)
    requires s'.b.at == s.b.at && Served(s'.st.mem, s'.b.at) && s'.hist == s.hist + [Entries(s'.st.mem, s'.b.at)]
    requires s'.w != Idle(Code(Ok)) && (s'.w.Idle? ==> s'.w.ret.Code?)
    requires (s'.w == Idle(Code(EEXIST)) ==> s.w.key in s.b.at)
    ensures MapStep(s, s')
  {
    SameMap(s, s');
  }

  lemma StopsAtLeaf(s: Sys)
    requires Core(s) && Ready(s) && s.w.InsDive?
    requires Load(s.st.mem, s.w.parent) != Null
    ensures var n := Load(s.st.mem, s.w.parent);
            (n.Inner? ==> Masked(s.w.key, s.st.mem.nodes[n.id].sh) != s.st.mem.nodes[n.id].path) ==>
              Label(s.st.mem, n) == s.w.key ==> s.w.key in s.b.at
  {
    var n := Load(s.st.mem, s.w.parent);
    if !(n.Inner? && Masked(s.w.key, s.st.mem.nodes[n.id].sh) == s.st.mem.nodes[n.id].path) {
      StopReason(s);
      StoppedAtLeaf(s);
    }
  }

  lemma BuildMaps(s: Sys)
    requires Core(s) && Ready(s) && s.w.InsBuild?
    ensures MapStep(s, BuildInsert(s))
  {
    hide Stock, Tree, Limbo;
    if s.w.stage < 20 {
      BuildOk(s);
      KeepsMap(s, BuildInsert(s));
    } else {
      SpliceMaps(s);
    }
  }

  lemma SpliceMaps(s: Sys)
    requires Core(s) && Ready(s) && s.w.InsBuild? && s.w.stage == 20
    ensures MapStep(s, BuildInsert(s))
  {
    hide Stock, Tree, Limbo;
    SpliceBody(s);
    PublishHistory(s, BuildInsert(s).st.mem, BuildInsert(s).b, s.w.key, s.w.k);
  }

  /** A dive that ended at NULL or another leaf shows that the key is absent. */
  lemma RemoveDiveMaps(s: Sys)
    requires Core(s) && Ready(s) && s.w.RemDive?
    requires var kn := Load(s.st.mem, s.w.kParent); kn.Tagged? ==> s.st.mem.leaves[kn.id].key != s.w.key
    ensures MapStep(s, DiveRemove(s))
  {
    hide Stock, Limbo, DiveRemove;
    var s' := DiveRemove(s);
    var kn := Load(s.st.mem, s.w.kParent);
    RemoveDiveEffect(s);
    RemoveDiveOk(s);
    SameMap(s, s');
    if !kn.Inner? {
      DiveDecides(SZ, s.st.mem, s.b.up, s.b.at, s.w.key, kn);
      assert Current(s) - {s.w.key} == Current(s);
    }
  }

  lemma CutBook(s: Sys)
    requires Ready(s) && s.w.RemDive?
    requires var kn := Load(s.st.mem, s.w.kParent); kn.Tagged? && s.st.mem.leaves[kn.id].key == s.w.key
    ensures var s' := DiveRemove(s); var k := Load(s.st.mem, s.w.kParent).id;
            && s'.b.at == s.b.at - {s.w.key} && s'.st.mem.leaves == s.st.mem.leaves
            && s'.hist == s.hist + [Entries(s'.st.mem, s'.b.at)]
            && (s'.w == Idle(Value(s.st.mem.leaves[k].value)) || (s'.w.RemTidy? && s'.w.k == k))
  {
    hide Entries;
  }

  lemma CutKey(s: Sys)
    requires Core(s) && Ready(s) && s.w.RemDive?
    requires var kn := Load(s.st.mem, s.w.kParent); kn.Tagged? && s.st.mem.leaves[kn.id].key == s.w.key
    ensures s.w.key in s.b.at && s.b.at[s.w.key] == Load(s.st.mem, s.w.kParent).id
    ensures s.hist != [] && Current(s) == Entries(s.st.mem, s.b.at)
  {
    PlaceReady(s, s.w.kParent);
  }

  lemma CutMaps(s: Sys)
    requires Core(s) && Ready(s) && s.w.RemDive?
    requires var kn := Load(s.st.mem, s.w.kParent); kn.Tagged? && s.st.mem.leaves[kn.id].key == s.w.key
    ensures MapStep(s, DiveRemove(s))
  {
    hide Core, DiveRemove;
    CutBook(s);
    CutKey(s);
    var s' := DiveRemove(s);
    assert Entries(s'.st.mem, s'.b.at) == Entries(s.st.mem, s.b.at) - {s.w.key};
  }

  lemma TidyBook(s: Sys)
    requires Ready(s) && s.w.RemTidy?
    ensures var s' := TidyRemove(s);
            && s'.b.at == s.b.at && Served(s'.st.mem, s'.b.at) && s'.hist == s.hist + [Entries(s'.st.mem, s'.b.at)]
            && s.w.k in s.st.mem.leaves && s'.w == Idle(Value(s.st.mem.leaves[s.w.k].value))
  {
    hide Entries, OnlyChild;
  }

  lemma TidyMaps(s: Sys)
    requires Core(s) && Ready(s) && s.w.RemTidy?
    ensures MapStep(s, TidyRemove(s))
  {
    hide Stock, Tree, Limbo, TidyRemove;
    TidyOk(s);
    TidyBook(s);
    SameMap(s, TidyRemove(s));
  }

  lemma OtherBook(s: Sys, mal: Malloc)
    requires Ready(s) && (s.w.InsKey? || s.w.InsVal? || s.w.RemNode? || s.w.RemLeaf?)
    ensures var s' := WriterStep(s, mal);
            s'.b.at == s.b.at && Served(s'.st.mem, s'.b.at) && s'.hist == s.hist + [Entries(s'.st.mem, s'.b.at)]
  {
  }

  lemma OtherMaps(s: Sys, mal: Malloc)
    requires Core(s) && Ready(s) && (s.w.InsKey? || s.w.InsVal? || s.w.RemNode? || s.w.RemLeaf?)
    ensures MapStep(s, WriterStep(s, mal))
  {
    hide Stock, Tree, Limbo, WriterStep;
    WriterStepOk(s, mal);
    OtherBook(s, mal);
    SameMap(s, WriterStep(s, mal));
  }

  lemma MapSteps(s: Sys, mal: Malloc)
    requires Core(s) && Ready(s) && !s.w.Idle?
    ensures MapStep(s, WriterStep(s, mal))
  {
    match s.w
    case InsDive(_, _, _, parent) =>
      if Load(s.st.mem, parent) == Null { PublishMaps(s); } else { InsertDiveMaps(s, mal); }
    case InsBuild(_, _, _, _, _, _, _) => BuildMaps(s);
    case RemDive(_, _, kParent) =>
      var kn := Load(s.st.mem, kParent);
      if kn.Tagged? && s.st.mem.leaves[kn.id].key == s.w.key { CutMaps(s); } else { RemoveDiveMaps(s); }
    case RemTidy(_, _, _, _) => TidyMaps(s);
    case _ => OtherMaps(s, mal);
  }

  /** The step that takes the mutex leaves the map alone. An insert returns in it exactly if there is no leaf to be had,
      and then ENOMEM; a remove exactly if the tree is empty, and then NULL. */
  ghost predicate StartStep(s: Sys, a: Action, s': Sys) {
    && s.hist != [] && s'.hist != [] && Current(s') == Current(s)
    && (a.StartInsert? ==> if HasLeaf(s.st, a.mal) then !s'.w.Idle? else s'.w == Idle(Code(ENOMEM)))
    && (a.StartRemove? ==> if Current(s) != map[] then !s'.w.Idle? else s'.w == Idle(Value(Nil)))
  }

  lemma StartBook(s: Sys, a: Action)
    requires Ready(s) && s.w.Idle? && (a.StartInsert? || a.StartRemove?)
    ensures var s' := Step(s, a);
            && s'.b.at == s.b.at && Served(s'.st.mem, s'.b.at) && s'.hist == s.hist + [Entries(s'.st.mem, s'.b.at)]
            && (a.StartInsert? ==> if HasLeaf(s.st, a.mal) then !s'.w.Idle? else s'.w == Idle(Code(ENOMEM)))
            && (a.StartRemove? ==> if s.st.mem.root != Null then !s'.w.Idle? else s'.w == Idle(Value(Nil)))
  {
    hide Entries;
  }

  lemma EmptyTree(s: Sys)
    requires Body(s) && s.st.mem.root == Null
    ensures s.hist != [] && Current(s) == map[]
  {
    hide Limbo;
    NoRootNothing(SZ, s.st.mem, s.b.up);
  }

  lemma FullTree(s: Sys)
    requires Core(s) && s.w.Idle? && s.st.mem.root != Null
    ensures s.hist != [] && Current(s) != map[]
  {
    hide Stock, Limbo;
    var l := SomeLeaf(SZ, s.st.mem, s.b.up, s.st.mem.root);
    assert s.st.mem.leaves[l].key in Current(s);
  }

  lemma StartSteps(s: Sys, a: Action)
    requires Core(s) && Ready(s) && s.w.Idle? && (a.StartInsert? || a.StartRemove?)
    ensures StartStep(s, a, Step(s, a))
  {
    hide Stock, Tree, Limbo, Step;
    WriteOk(s, a);
    StartBook(s, a);
    SameMap(s, Step(s, a));
    if s.st.mem.root == Null { EmptyTree(s); } else { FullTree(s); }
  }

  /** Where an insert runs out of nodes, the key is absent and there is no node to be had. */
  lemma NodeShortage(s: Sys, mal: Malloc)
    requires Core(s) && Ready(s) && !s.w.Idle? && WriterStep(s, mal).w == Idle(Code(ENOMEM))
    ensures s.w.InsDive? && s.hist != [] && s.w.key !in Current(s) && !HasNode(s.st, mal)
  {
    hide Stock, Tree, Limbo, History;
    if s.w.InsDive? {
      StopsAbsent(s);
    }
  }

  /** critnib_insert and critnib_remove, step by step: the map changes at most once, in the step that
      publishes or cuts; the codes and values returned are those of a map. */
  lemma WritesAreMapSteps(acts: seq<Action>, a: Action)
    requires Writes(Run(acts), a)
    ensures Ready(Run(acts))
    ensures if a.Write? then MapStep(Run(acts), Step(Run(acts), a)) else StartStep(Run(acts), a, Step(Run(acts), a))
  {
    hide Core, Ready, MapStep, StartStep, WriterStep;
    RunInv(acts);
    if a.Write? { MapSteps(Run(acts), a.mal); } else { StartSteps(Run(acts), a); }
  }
}
