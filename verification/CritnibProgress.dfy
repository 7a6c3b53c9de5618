/** Progress of critnib: a get that is left alone returns, unless its snapshot is sixteen removes old and it holds a
    node that was recycled meanwhile; an insert or a remove always returns. */
module CritnibProgress {
  import opened Digits
  import opened RadixTree
  import opened RadixParts
  import opened RadixUpdates
  import opened CritnibModel
  import opened CritnibInv
  import opened CritnibReaders
  import opened CritnibRuns
  import opened CritnibCalls

  // ---------------------------------------------------------------------------------------
  // Readers

  function Reads(r: nat, n: nat): seq<Action> {
    seq(n, _ => Read(r))
  }

  /** Some number of loads of reader r alone brings it to its return. */
  ghost predicate Finishes(acts: seq<Action>, r: nat) {
    exists n :: Ends(acts, r, n)
  }

  ghost predicate Ends(acts: seq<Action>, r: nat, n: nat) {
    r in Run(acts + Reads(r, n)).readers && Run(acts + Reads(r, n)).readers[r].Done?
  }

  /** The reader does not hold a node that was recycled. */
  predicate OnKept(s: Sys, rd: Reader) {
    HeldPtr(rd).Inner? ==> Kept(s.b, HeldPtr(rd))
  }

  predicate IsStale(s: Sys, rd: Reader) {
    !rd.Begin? && rd.q.w + LIFE <= s.st.count
  }

  /** How many loads are left to the end of the attempt, at most, and to the end of the call. */
  function LoadsLeft(s: Sys, rd: Reader): nat {
    match rd
    case Begin(_, _) => 37
    case AtRoot(_) => 36
    case AtPtr(_, cur, _) => 3 + 2 * (if Alloc(s.st.mem, cur) then Rank(s.st.mem, cur) else 0)
    case AtSlot(_, cur, _, _) => 2 + 2 * (if Alloc(s.st.mem, cur) then Rank(s.st.mem, cur) else 0)
    case AtValue(_, _) => 2
    case AtCheck(_, _) => 1
    case Done(_, _, _) => 0
  }

  function Left(s: Sys, rd: Reader): nat {
    LoadsLeft(s, rd) + if IsStale(s, rd) then 37 else 0
  }

  /** A timely reader holds nothing that was recycled. */
  lemma TimelyOnKept(s: Sys, rd: Reader)
    requires ReaderOk(s, rd) && (HeldPtr(rd).Inner? ==> !IsStale(s, rd))
    ensures OnKept(s, rd)
  {
  }

  /** The node a reader goes on from, and its child for the key. */
  lemma KeptChild(s: Sys, n: nat, i: nat)
    requires Core(s) && Kept(s.b, Inner(n)) && i < 16
    ensures n in s.st.mem.nodes && |s.st.mem.nodes[n].child| == 16 && s.st.mem.nodes[n].sh < 16
    ensures var c := s.st.mem.nodes[n].child[i];
            && Alloc(s.st.mem, c) && Rank(s.st.mem, c) < Rank(s.st.mem, Inner(n))
            && (c != Null ==> Kept(s.b, c))
  {
    hide Stock;
    SeenChild(s, 0, n, i);
  }

  lemma RootKept(s: Sys)
    requires Core(s)
    ensures var p := s.st.mem.root; Alloc(s.st.mem, p) && Rank(s.st.mem, p) <= 16 && (p != Null ==> Kept(s.b, p))
  {
    hide Stock, Limbo;
    if s.st.mem.root.Inner? { assert ObjOk(SZ, s.st.mem, s.b.up, s.st.mem.root); }
  }

  /** A load brings a reader on what is kept nearer to its return, in the same attempt unless that is stale. */
  lemma LoadOk(s: Sys, rd: Reader)
    requires Core(s) && s.hist != [] && ReaderOk(s, rd) && OnKept(s, rd) && !rd.Done?
    ensures var rd' := ReaderStep(s, rd);
            && OnKept(s, rd') && Left(s, rd') < Left(s, rd)
            && (!rd.Begin? && !IsStale(s, rd) ==> !rd'.Begin? && !IsStale(s, rd') && rd'.q == rd.q)
  {
    hide Core;
    if rd.AtRoot? { RootKept(s); }
    if HeldPtr(rd).Inner? { KeptChild(s, rd.cur.id, 0); }
    if rd.AtSlot? { KeptChild(s, rd.cur.id, rd.q.key[rd.sh]); }
  }

  /** One more load. */
  lemma ReadsOn(acts: seq<Action>, r: nat, n: nat)
    ensures acts + Reads(r, n + 1) == acts + [Read(r)] + Reads(r, n)
    ensures acts + Reads(r, 0) == acts
  {
    assert Reads(r, n + 1) == [Read(r)] + Reads(r, n);
  }

  /** A load changes nothing but its reader. */
  lemma LoadAlone(acts: seq<Action>, r: nat)
    requires r in Run(acts).readers
    ensures var s, s' := Run(acts), Run(acts + [Read(r)]);
            && Core(s) && s.hist != [] && ReaderOk(s, s.readers[r])
            && s' == s.(readers := s.readers[r := ReaderStep(s, s.readers[r])])
  {
    hide Core, ReaderOk, Ready, ReaderStep;
    RunInv(acts);
    Then(acts, Read(r));
    InvCore(Run(acts));
    HistoryThere(Run(acts));
  }

  /** Only the reader's own loads count. */
  lemma SameLeft(s: Sys, s': Sys, rd: Reader)
    requires s' == s.(readers := s'.readers)
    ensures OnKept(s', rd) == OnKept(s, rd) && Left(s', rd) == Left(s, rd) && IsStale(s', rd) == IsStale(s, rd)
  {
  }

  /** From what is kept, at most Left loads end the call, and a timely reader's in the attempt it is in. */
  lemma {:induction false} KeptFinishes(acts: seq<Action>, r: nat) returns (n: nat)
    requires r in Run(acts).readers && OnKept(Run(acts), Run(acts).readers[r])
    ensures n <= Left(Run(acts), Run(acts).readers[r]) && Ends(acts, r, n)
    ensures var s, s' := Run(acts), Run(acts + Reads(r, n)); var rd := s.readers[r];
            && s' == s.(readers := s.readers[r := s'.readers[r]])
            && (!rd.Begin? && !IsStale(s, rd) ==> s'.readers[r].q == rd.q)
    decreases Left(Run(acts), Run(acts).readers[r])
  {
    hide Run, Core, ReaderOk, ReaderStep, OnKept, Left, IsStale;
    var s := Run(acts);
    ReadsOn(acts, r, 0);
    n := 0;
    if !s.readers[r].Done? {
      var acts' := acts + [Read(r)];
      LoadAlone(acts, r);
      LoadOk(s, s.readers[r]);
      SameLeft(s, Run(acts'), Run(acts').readers[r]);
      n := KeptFinishes(acts', r);
      ReadsOn(acts, r, n);
      n := n + 1;
    }
  }

  lemma LeftBound(s: Sys, rd: Reader)
    requires Core(s) && OnKept(s, rd)
    ensures Left(s, rd) <= if IsStale(s, rd) then 74 else 37
  {
    hide Core;
    if HeldPtr(rd).Inner? { KeptChild(s, rd.cur.id, 0); }
  }

  /** critnib.c:545-565: a get with no writer step in between ends within 37 loads, in the attempt it is in if it has
      begun one, whatever step the writer stopped at, unless sixteen removes have begun since its snapshot. */
  lemma TimelyGetFinishes(acts: seq<Action>, r: nat) returns (n: nat)
    requires r in Run(acts).readers && !IsStale(Run(acts), Run(acts).readers[r])
    ensures n <= 37 && Ends(acts, r, n)
    ensures var s, s' := Run(acts), Run(acts + Reads(r, n));
            && s' == s.(readers := s.readers[r := s'.readers[r]])
            && (!s.readers[r].Begin? ==> s'.readers[r].q == s.readers[r].q)
  {
    hide Run, Core, ReaderOk, ReaderStep, OnKept, Left;
    LoadAlone(acts, r);
    TimelyOnKept(Run(acts), Run(acts).readers[r]);
    LeftBound(Run(acts), Run(acts).readers[r]);
    n := KeptFinishes(acts, r);
  }

  /** Even then it ends within 74 loads, unless it holds a node that was recycled. */
  lemma StaleGetFinishes(acts: seq<Action>, r: nat) returns (n: nat)
    requires r in Run(acts).readers && OnKept(Run(acts), Run(acts).readers[r])
    ensures n <= 74 && Ends(acts, r, n)
    ensures var s, s' := Run(acts), Run(acts + Reads(r, n)); s' == s.(readers := s.readers[r := s'.readers[r]])
  {
    hide Run, Core, ReaderOk, ReaderStep, OnKept, Left, IsStale;
    LoadAlone(acts, r);
    LeftBound(Run(acts), Run(acts).readers[r]);
    n := KeptFinishes(acts, r);
  }

  /** A get that no writer step interrupts answers with the lookup of its key in the map, within 37 loads. */
  lemma LoneGet(acts: seq<Action>, r: nat, key: Nibbles) returns (n: nat)
    requires r in Run(acts).readers ==> Run(acts).readers[r].Done?
    ensures n <= 37 && Ends(acts + [StartGet(r, key)], r, n)
    ensures var s, s' := Run(acts), Run(acts + [StartGet(r, key)] + Reads(r, n));
            && s' == s.(readers := s.readers[r := s'.readers[r]])
            && s.hist != [] && s'.readers[r].res == Lookup(Current(s), key)
  {
    hide Run, Core, ReaderOk, ReaderStep, OnKept, Left;
    Then(acts, StartGet(r, key));
    Begins(Run(acts), r, key);
    var acts' := acts + [StartGet(r, key)];
    n := TimelyGetFinishes(acts', r);
    var acts'' := acts' + Reads(r, n);
    assert acts''[..|acts|] == acts;
    WorksOn(acts'', |acts|, r, key);
    GetIsCurrent(acts'', r);
  }

  // ---------------------------------------------------------------------------------------
  // The writer

  /** The child that a dive goes to has a smaller shift. */
  lemma NextFits(s: Sys)
    requires Core(s) && Ready(s) && s.w.InsDive? && Load(s.st.mem, s.w.parent).Inner?
    ensures var n := Load(s.st.mem, s.w.parent).id; var c := s.st.mem.nodes[n].child[s.w.key[s.st.mem.nodes[n].sh]];
            Alloc(s.st.mem, c) && Rank(s.st.mem, c) <= s.st.mem.nodes[n].sh
  {
    PlaceReady(s, s.w.parent);
    var n := Load(s.st.mem, s.w.parent).id;
    assert ObjOk(SZ, s.st.mem, s.b.up, Inner(n));
    assert SlotOk(s.st.mem, s.b.up, n, s.w.key[s.st.mem.nodes[n].sh]);
  }

  lemma NextFitsRemove(s: Sys)
    requires Core(s) && Ready(s) && s.w.RemDive? && Load(s.st.mem, s.w.kParent).Inner?
    ensures var n := Load(s.st.mem, s.w.kParent).id; var c := s.st.mem.nodes[n].child[s.w.key[s.st.mem.nodes[n].sh]];
            Alloc(s.st.mem, c) && Rank(s.st.mem, c) <= s.st.mem.nodes[n].sh
  {
    PlaceReady(s, s.w.kParent);
    var n := Load(s.st.mem, s.w.kParent).id;
    assert ObjOk(SZ, s.st.mem, s.b.up, Inner(n));
    assert SlotOk(s.st.mem, s.b.up, n, s.w.key[s.st.mem.nodes[n].sh]);
  }

  /** How many steps are left to the end of the operation under way, at most. */
  function StepsLeft(s: Sys): nat {
    match s.w
    case Idle(_) => 0
    case InsKey(_, _, _) => 40
    case InsVal(_, _, _) => 39
    case InsDive(_, _, _, parent) => 22 + RankAt(s.st.mem, parent)
    case InsBuild(_, _, _, _, _, _, stage) => if stage <= 20 then 21 - stage else 0
    case RemNode(_) => 20
    case RemLeaf(_) => 19
    case RemDive(_, _, kParent) => 2 + RankAt(s.st.mem, kParent)
    case RemTidy(_, _, _, _) => 1
  }

  /** The rank of what hangs at a place. */
  function RankAt(mem: Mem, place: Place): nat {
    if (place.Slot? ==> place.n in mem.nodes && place.i < |mem.nodes[place.n].child|) && Alloc(mem, Load(mem, place))
    then Rank(mem, Load(mem, place)) else 0
  }

  lemma RootRank(s: Sys, mal: Malloc)
    requires Core(s) && Ready(s) && (s.w.InsVal? || s.w.RemLeaf?)
    ensures RankAt(WriterStep(s, mal).st.mem, Top) <= 16
  {
    hide Stock, Limbo, Entries;
    RootKept(s);
  }

  lemma DiveInsertOn(s: Sys, mal: Malloc)
    requires Core(s) && Ready(s) && s.w.InsDive?
    ensures StepsLeft(DiveInsert(s, mal)) < StepsLeft(s)
  {
    hide Core, Entries, Masked;
    if Load(s.st.mem, s.w.parent).Inner? { NextFits(s); }
  }

  lemma DiveRemoveOn(s: Sys)
    requires Core(s) && Ready(s) && s.w.RemDive?
    ensures StepsLeft(DiveRemove(s)) < StepsLeft(s)
  {
    hide Core, Entries;
    if Load(s.st.mem, s.w.kParent).Inner? { NextFitsRemove(s); }
  }

  lemma OtherOn(s: Sys, mal: Malloc)
    requires Core(s) && Ready(s) && !s.w.Idle? && !s.w.InsDive? && !s.w.RemDive?
    ensures StepsLeft(WriterStep(s, mal)) < StepsLeft(s)
  {
    hide Core, Entries, DiveInsert, DiveRemove;
    if s.w.InsVal? || s.w.RemLeaf? { RootRank(s, mal); }
  }

  /** Every step of the writer brings it nearer to its return. */
  lemma WriteOn(s: Sys, mal: Malloc)
    requires Core(s) && Ready(s) && !s.w.Idle?
    ensures StepsLeft(WriterStep(s, mal)) < StepsLeft(s)
  {
    hide Core, Ready, StepsLeft, DiveInsert, DiveRemove;
    if s.w.InsDive? { DiveInsertOn(s, mal); }
    else if s.w.RemDive? { DiveRemoveOn(s); }
    else { OtherOn(s, mal); }
  }

  function Writes(mals: seq<Malloc>): seq<Action> {
    seq(|mals|, i requires 0 <= i < |mals| => Write(mals[i]))
  }

  lemma WritesOn(acts: seq<Action>, mals: seq<Malloc>, n: nat)
    requires n < |mals|
    ensures acts + Writes(mals[..n + 1]) == acts + [Write(mals[0])] + Writes(mals[1..][..n])
    ensures acts + Writes(mals[..0]) == acts
  {
    assert Writes(mals[..n + 1]) == [Write(mals[0])] + Writes(mals[1..][..n]);
  }

  lemma StepAlone(acts: seq<Action>, mal: Malloc)
    requires !Run(acts).w.Idle?
    ensures StepsLeft(Run(acts + [Write(mal)])) < StepsLeft(Run(acts))
  {
    hide Run, Core, Ready, StepsLeft, WriterStep;
    RunInv(acts);
    Then(acts, Write(mal));
    InvCore(Run(acts));
    WriteOn(Run(acts), mal);
  }

  /** Whatever malloc answers, an operation ends with its first step from which StepsLeft has none to go. */
  lemma {:induction false} WriterFinishes(acts: seq<Action>, mals: seq<Malloc>) returns (n: nat)
    requires StepsLeft(Run(acts)) <= |mals|
    ensures n <= |mals| && n <= StepsLeft(Run(acts)) && Run(acts + Writes(mals[..n])).w.Idle?
    ensures forall k :: 0 <= k < n ==> !Run(acts + Writes(mals[..k])).w.Idle?
    decreases StepsLeft(Run(acts))
  {
    hide Run, StepsLeft;
    if Run(acts).w.Idle? {
      n := 0;
      assert acts + Writes(mals[..0]) == acts;
    } else {
      StepAlone(acts, if mals == [] then NoMem else mals[0]);
      var acts' := acts + [Write(mals[0])];
      n := WriterFinishes(acts', mals[1..]);
      WritesOn(acts, mals, n);
      forall k | 0 <= k < n + 1 ensures !Run(acts + Writes(mals[..k])).w.Idle? {
        if k == 0 {
          WritesOn(acts, mals, 0);
        } else {
          WritesOn(acts, mals, k - 1);
        }
      }
      n := n + 1;
    }
  }

  lemma StepsAtStart(s: Sys, a: Action)
    requires Ready(s) && s.w.Idle? && (a.StartInsert? || a.StartRemove?)
    ensures StepsLeft(Step(s, a)) <= 40
  {
    hide Entries;
  }

  /** A call that takes the mutex returns within 40 steps of its own, whatever malloc answers: what its arguments ask
      for in the map it found, with its own change made to that map. */
  lemma CallCompletes(acts: seq<Action>, a: Action, mals: seq<Malloc>) returns (n: nat)
    requires Run(acts).w.Idle? && (a.StartInsert? || a.StartRemove?) && |mals| >= 40
    ensures n <= 40 && Run(acts + [a] + Writes(mals[..n])).w.Idle?
    ensures var s, s' := Run(acts), Run(acts + [a] + Writes(mals[..n]));
            s.hist != [] && s'.hist != [] && Returned(a, Current(s), Current(s'), s'.w.ret)
  {
    hide Run, Core, Ready, Step, StepsLeft, Returned;
    Then(acts, a);
    StepsAtStart(Run(acts), a);
    n := WriterFinishes(acts + [a], mals);
    var acts' := acts + [a] + Writes(mals[..n]);
    assert acts'[..|acts|] == acts && acts'[..|acts'|] == acts' && acts'[|acts|] == a;
    forall k | |acts| < k < |acts'| ensures !Run(acts'[..k]).w.Idle? {
      assert acts'[..k] == acts + [a] + Writes(mals[..k - |acts| - 1]);
    }
    CallReturns(acts', |acts|, |acts'|);
    HistoryOfRun(acts);
    HistoryOfRun(acts');
  }

  lemma HistoryOfRun(acts: seq<Action>)
    ensures Run(acts).hist != []
  {
    hide Run, Core, Ready;
    RunInv(acts);
    InvCore(Run(acts));
    HistoryThere(Run(acts));
  }
}
