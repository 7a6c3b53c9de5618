/** What a call returns, said of the actions of a run: the arguments are those of the action that starts the call, and
    the instants are prefixes of the run. */
module CritnibCalls {
  import opened Digits
  import opened RadixTree
  import opened RadixParts
  import opened RadixUpdates
  import opened CritnibModel
  import opened CritnibInv
  import opened CritnibReaders
  import opened CritnibRuns

  /** The map after the first j actions. */
  ghost function MapAt(acts: seq<Action>, j: nat): map<Key, Word>
    requires j <= |acts|
  {
    var s := Run(acts[..j]);
    if s.hist != [] then Current(s) else map[]
  }

  // ---------------------------------------------------------------------------------------
  // Instants are prefixes

  /** The last action of a run. */
  lemma LastStep(acts: seq<Action>)
    requires acts != []
    ensures var s := Run(acts[..|acts| - 1]); Inv(s) && Ready(s) && Run(acts) == Step(s, acts[|acts| - 1])
  {
    hide Inv, Ready, Step;
    RunInv(acts[..|acts| - 1]);
  }

  /** A step adds at most one map to the history. */
  lemma StepHistory(s: Sys, a: Action)
    requires Inv(s) && Ready(s)
    ensures var hist, hist' := s.hist, Step(s, a).hist;
            hist != [] && (hist' == hist || (|hist'| == |hist| + 1 && hist'[..|hist|] == hist))
  {
    hide Core, ReaderOk;
    InvCore(s);
    HistoryThere(s);
    if Writes(s, a) {
      WriteOk(s, a);
    }
  }

  lemma HistoryThere(s: Sys)
    requires Core(s)
    ensures s.hist != []
  {
    hide Stock, Tree, Limbo;
  }

  /** Every map of the history since the first i actions is the map after some prefix of the run. */
  lemma {:induction false} InstantIsPrefix(acts: seq<Action>, i: nat, h: nat) returns (j: nat)
    requires i <= |acts| && |Run(acts[..i]).hist| - 1 <= h < |Run(acts).hist|
    ensures i <= j <= |acts| && MapAt(acts, j) == Run(acts).hist[h]
    decreases |acts|
  {
    hide Inv, Ready, Step;
    if i == |acts| || h == |Run(acts).hist| - 1 {
      j := |acts|;
      assert acts[..|acts|] == acts;
    } else {
      var acts0 := acts[..|acts| - 1];
      LastStep(acts);
      StepHistory(Run(acts0), acts[|acts| - 1]);
      assert acts0[..i] == acts[..i];
      j := InstantIsPrefix(acts0, i, h);
      assert acts0[..j] == acts[..j];
    }
  }

  // ---------------------------------------------------------------------------------------
  // critnib_get

  function KeyOf(r: Reader): Nibbles {
    if r.Begin? then r.key else r.q.key
  }

  function CallOf(r: Reader): nat {
    if r.Begin? then r.call else r.q.call
  }

  /** acts[i] starts a get of key by reader r, and it is the last that r starts. */
  ghost predicate Starts(acts: seq<Action>, i: nat, r: nat, key: Nibbles) {
    && i < |acts| && acts[i] == StartGet(r, key)
    && (r in Run(acts[..i]).readers ==> Run(acts[..i]).readers[r].Done?)
    && (forall k :: i < k < |acts| ==> !(acts[k].StartGet? && acts[k].r == r))
  }

  /** A step that does not start a get of r keeps its key and call. */
  lemma Remembers(s: Sys, a: Action, r: nat)
    requires Inv(s) && Ready(s) && r in s.readers && !(a.StartGet? && a.r == r)
    ensures r in Step(s, a).readers
    ensures KeyOf(Step(s, a).readers[r]) == KeyOf(s.readers[r]) && CallOf(Step(s, a).readers[r]) == CallOf(s.readers[r])
  {
    hide Core, ReaderOk;
    InvCore(s);
    if Writes(s, a) { WriteOk(s, a); }
  }

  lemma Begins(s: Sys, r: nat, key: Nibbles)
    requires Ready(s) && (r in s.readers ==> s.readers[r].Done?)
    ensures var s' := Step(s, StartGet(r, key));
            s.hist != [] && r in s'.readers && KeyOf(s'.readers[r]) == key && CallOf(s'.readers[r]) == |s.hist| - 1
  {
  }

  /** The reader works on the key of its StartGet, and its call is the instant of that action. */
  lemma {:induction false} WorksOn(acts: seq<Action>, i: nat, r: nat, key: Nibbles)
    requires Starts(acts, i, r, key)
    ensures r in Run(acts).readers && Run(acts[..i]).hist != []
    ensures KeyOf(Run(acts).readers[r]) == key && CallOf(Run(acts).readers[r]) == |Run(acts[..i]).hist| - 1
    decreases |acts|
  {
    hide Inv, Ready, Step;
    var acts0 := acts[..|acts| - 1];
    LastStep(acts);
    if i == |acts| - 1 {
      Begins(Run(acts0), r, key);
    } else {
      assert acts0[..i] == acts[..i];
      WorksOn(acts0, i, r, key);
      Remembers(Run(acts0), acts[|acts| - 1], r);
    }
  }

  /** critnib.c:97-103: a get that acts[i] started and that has returned answered with the lookup of its own key in the
      map at some instant from that action on. */
  lemma GetAnswersItsCall(acts: seq<Action>, i: nat, r: nat, key: Nibbles) returns (j: nat)
    requires Starts(acts, i, r, key) && r in Run(acts).readers && Run(acts).readers[r].Done?
    ensures i <= j <= |acts| && Run(acts).readers[r].res == Lookup(MapAt(acts, j), key)
  {
    hide Inv, Ready, Step;
    WorksOn(acts, i, r, key);
    GetIsCurrent(acts, r);
    var s := Run(acts);
    var Done(q, end, res) := s.readers[r];
    var h :| q.call <= h <= end < |s.hist| && res == Lookup(s.hist[h], q.key);
    j := InstantIsPrefix(acts, i, h);
  }

  // ---------------------------------------------------------------------------------------
  // critnib_insert and critnib_remove

  /** acts[i] takes the mutex, and the next state in which it is free is the one after acts[..j]. */
  ghost predicate Spans(acts: seq<Action>, i: nat, j: nat) {
    && i < j <= |acts| && Run(acts[..i]).w.Idle? && Run(acts[..j]).w.Idle?
    && (forall k :: i < k < j ==> !Run(acts[..k]).w.Idle?)
  }

  predicate Inserts(w: Writer, key: Nibbles, value: Word) {
    (w.InsKey? || w.InsVal? || w.InsDive? || w.InsBuild?) && w.key == key && w.value == value
  }

  predicate Removes(w: Writer, key: Nibbles) {
    (w.RemNode? || w.RemLeaf? || w.RemDive? || w.RemTidy?) && w.key == key
  }

  /** The operation that action a started on map m is under way: an insert has changed nothing, a remove nothing but its
      entry, whose value it keeps in the leaf. */
  ghost predicate Working(s: Sys, a: Action, m: map<Key, Word>) {
    s.hist != [] &&
    match a
    case StartInsert(key, value, _) => Inserts(s.w, key, value) && Current(s) == m
    case StartRemove(key) =>
      && Removes(s.w, key)
      && (if s.w.RemTidy? then
            && key in m && Current(s) == m - {key}
            && s.w.k in s.st.mem.leaves && s.st.mem.leaves[s.w.k].value == m[key]
          else Current(s) == m)
    case _ => false
  }

  /** What the operation that action a started on map m returned, and the map it leaves. */
  ghost predicate Returned(a: Action, m: map<Key, Word>, m': map<Key, Word>, ret: Return) {
    match a
    case StartInsert(key, value, _) =>
      || (ret == Code(Ok) && key !in m && m' == m[key := value])
      || (ret == Code(EEXIST) && key in m && m' == m)
      || (ret == Code(ENOMEM) && m' == m)
    case StartRemove(key) => ret == Value(Lookup(m, key)) && m' == m - {key}
    case _ => false
  }

  /** A step of an operation either returns or goes on with the same arguments. */
  lemma SameCall(s: Sys, mal: Malloc, key: Nibbles, value: Word)
    requires Ready(s)
    ensures Inserts(s.w, key, value) ==> WriterStep(s, mal).w.Idle? || Inserts(WriterStep(s, mal).w, key, value)
    ensures Removes(s.w, key) ==> WriterStep(s, mal).w.Idle? || Removes(WriterStep(s, mal).w, key)
    ensures s.w.InsKey? || s.w.InsVal? || s.w.RemNode? || s.w.RemLeaf? ==>
              !WriterStep(s, mal).w.Idle? && !WriterStep(s, mal).w.RemTidy?
  {
    hide Entries;
  }

  lemma BeginsCall(s: Sys, a: Action)
    requires Core(s) && Ready(s) && s.w.Idle? && (a.StartInsert? || a.StartRemove?)
    ensures var s' := Step(s, a);
            && s.hist != [] && s'.hist != []
            && (if s'.w.Idle? then Returned(a, Current(s), Current(s'), s'.w.ret) else Working(s', a, Current(s)))
            && (a.StartInsert? && s'.w.Idle? ==> !HasLeaf(s.st, a.mal))
  {
    hide Core, HasLeaf, Entries;
    StartSteps(s, a);
  }

  lemma GoesOn(s: Sys, a: Action, mal: Malloc, m: map<Key, Word>)
    requires Core(s) && Ready(s) && Working(s, a, m)
    ensures var s' := WriterStep(s, mal);
            && s'.hist != []
            && (if s'.w.Idle? then Returned(a, m, Current(s'), s'.w.ret) else Working(s', a, m))
            && (s'.w == Idle(Code(ENOMEM)) ==> s.w.key !in m && !HasNode(s.st, mal))
  {
    hide Core, Ready, WriterStep, HasNode;
    MapSteps(s, mal);
    if a.StartInsert? { SameCall(s, mal, a.key, a.value); } else { SameCall(s, mal, a.key, Nil); }
    var w' := WriterStep(s, mal).w;
    if w' == Idle(Code(ENOMEM)) { NodeShortage(s, mal); }
    assert w'.Idle? && w'.ret.Code? ==> w'.ret.errno.Ok? || w'.ret.errno.EEXIST? || w'.ret.errno.ENOMEM?;
  }

  /** An action of a reader, or one that has to wait for the mutex, leaves the operation where it is. */
  lemma OtherAction(s: Sys, a: Action, b: Action, m: map<Key, Word>)
    requires Ready(s) && Working(s, a, m) && !b.Write?
    ensures Working(Step(s, b), a, m)
  {
  }

  /** As long as the mutex is held, the operation that acts[i] started is under way. */
  lemma {:induction false} Works(acts: seq<Action>, i: nat, j: nat)
    requires i < j <= |acts| && Run(acts[..i]).w.Idle? && (acts[i].StartInsert? || acts[i].StartRemove?)
    requires forall k :: i < k <= j ==> !Run(acts[..k]).w.Idle?
    ensures Working(Run(acts[..j]), acts[i], MapAt(acts, i))
  {
    hide Inv, Ready, Step, Working;
    Before(acts, j);
    var s := Run(acts[..j - 1]);
    if j == i + 1 {
      InvCore(s);
      BeginsCall(s, acts[i]);
    } else {
      Works(acts, i, j - 1);
      Continues(s, acts[i], acts[j - 1], MapAt(acts, i));
    }
  }

  /** The state before the last of the first j actions. */
  lemma Before(acts: seq<Action>, j: nat)
    requires 0 < j <= |acts|
    ensures var s := Run(acts[..j - 1]); Inv(s) && Ready(s) && Run(acts[..j]) == Step(s, acts[j - 1])
  {
    hide Inv, Ready, Step;
    LastStep(acts[..j]);
    assert acts[..j][..j - 1] == acts[..j - 1];
  }

  lemma Continues(s: Sys, a: Action, b: Action, m: map<Key, Word>)
    requires Inv(s) && Ready(s) && Working(s, a, m)
    ensures var s' := Step(s, b);
            if !s'.w.Idle? then Working(s', a, m)
            else b.Write? && s'.hist != [] && Returned(a, m, Current(s'), s'.w.ret)
                 && (s'.w == Idle(Code(ENOMEM)) ==> s.w.key !in m && !HasNode(s.st, b.mal))
  {
    hide Core, Ready, HasNode, Returned, WriterStep;
    InvCore(s);
    if b.Write? { GoesOn(s, a, b.mal, m); } else { OtherAction(s, a, b, m); }
  }

  /** critnib.c:350-527 over runs: a call that acts[i] starts and that is over after acts[..j] returned what its own
      arguments ask for in the map at i, and the map at j is the map at i with its own change. */
  lemma CallReturns(acts: seq<Action>, i: nat, j: nat)
    requires Spans(acts, i, j) && (acts[i].StartInsert? || acts[i].StartRemove?)
    ensures Returned(acts[i], MapAt(acts, i), MapAt(acts, j), Run(acts[..j]).w.ret)
  {
    hide Inv, Ready, Step, Working, Returned;
    Before(acts, j);
    var s := Run(acts[..j - 1]);
    if j == i + 1 {
      InvCore(s);
      BeginsCall(s, acts[i]);
    } else {
      Works(acts, i, j - 1);
      Continues(s, acts[i], acts[j - 1], MapAt(acts, i));
    }
  }

  /** An insert fails for want of memory only if there was no leaf to be had when it began, or the key is absent and
      there was no node to be had when it asked for one. */
  lemma ShortOfMemory(acts: seq<Action>, i: nat, j: nat)
    requires Spans(acts, i, j) && acts[i].StartInsert? && Run(acts[..j]).w.ret == Code(ENOMEM)
    ensures || (j == i + 1 && !HasLeaf(Run(acts[..i]).st, acts[i].mal))
            || (&& acts[i].key !in MapAt(acts, i)
                && acts[j - 1].Write? && !HasNode(Run(acts[..j - 1]).st, acts[j - 1].mal))
  {
    hide Inv, Ready, Step, Returned, HasLeaf, HasNode;
    Before(acts, j);
    var s := Run(acts[..j - 1]);
    if j == i + 1 {
      InvCore(s);
      BeginsCall(s, acts[i]);
    } else {
      Works(acts, i, j - 1);
      Continues(s, acts[i], acts[j - 1], MapAt(acts, i));
    }
  }

  /** A leaf to be had when the insert of a stored key begins decides its answer. */
  lemma DuplicateIsRefused(acts: seq<Action>, i: nat, j: nat)
    requires Spans(acts, i, j) && acts[i].StartInsert? && acts[i].key in MapAt(acts, i)
    requires HasLeaf(Run(acts[..i]).st, acts[i].mal)
    ensures Run(acts[..j]).w.ret == Code(EEXIST)
  {
    CallReturns(acts, i, j);
    if Run(acts[..j]).w.ret == Code(ENOMEM) { ShortOfMemory(acts, i, j); }
  }
}
