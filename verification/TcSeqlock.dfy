/** The read side of tcradix.c under a concurrent writer.

The writer holds the mutex, makes write_status odd, stores what it likes into any node, and makes
write_status even again when the tree represents the new map. Readers take no lock; each load of a
shared field is one step. Steps of the writer and of any number of readers interleave freely. */
module TcSeqlock {
  import opened Digits
  import opened TcTree
  import opened TcLook

  datatype Op = Ins(key: Nibbles, value: int) | Rem(key: Nibbles)

  /** What tcradix_insert and tcradix_remove do to the map. */
  function Apply(m: map<Key, int>, op: Op): map<Key, int> {
    match op
    case Ins(key, value) => if value == 0 then m else m[key := value]
    case Rem(key) => m - {key}
  }

  /** A call of tcradix_get: `call` is write_status when it began, w its snapshot wrs1. A reader is lost when it
      follows something that is not a node. */
  datatype Reader =
    | Begin(key: Nibbles, call: nat)
    | AtOnly(key: Nibbles, call: nat, w: nat, n: nat, lev: nat)
    | AtVal(key: Nibbles, call: nat, w: nat, n: nat)
    | AtSlot(key: Nibbles, call: nat, w: nat, n: nat, lev: nat)
    | AtCheck(key: Nibbles, call: nat, w: nat, word: Cell)
    | Lost
    | Early(key: Nibbles, call: nat, w: nat, now: nat, value: int)
    | Validated(key: Nibbles, call: nat, w: nat, now: nat, word: Cell)

  /** maps[i] is the map that the tree represents while write_status is 2i. */
  datatype Sys = Sys(nodes: map<nat, TNode>, status: nat, readers: map<nat, Reader>, info: map<nat, Pos>,
      maps: seq<map<Key, int>>)

  datatype Action =
    | Enter
    | StoreNode(id: nat, node: TNode)
    | Leave(op: Op, info: map<nat, Pos>)
    | StartGet(r: nat, key: Nibbles)
    | Read(r: nat)

  function Init(): Sys {
    Sys(map[0 := TNode(seq(16, _ => Empty), seq(16, _ => 15), 0, 0)], 0, map[], map[0 := Root()], [map[]])
  }

  function Last(s: Sys): map<Key, int>
    requires s.maps != []
  {
    s.maps[|s.maps| - 1]
  }

  /** tcradix.c:303-318, 329-358 and 367-390; a slot at level 0 holds the value. */
  function ReaderStep(s: Sys, r: Reader): Reader {
    match r
    case Begin(key, call) => if s.status % 2 == 1 then r else AtOnly(key, call, s.status, 0, 15)
    case AtOnly(key, call, w, n, lev) =>
      if n !in s.nodes then Lost
      else if lev == 0 || IsZero(s.nodes[n].onlyKey) then AtSlot(key, call, w, n, lev)
      else if s.nodes[n].onlyKey == key then AtVal(key, call, w, n)
      else Early(key, call, w, s.status, 0)
    case AtVal(key, call, w, n) =>
      if n !in s.nodes then Lost else Early(key, call, w, s.status, s.nodes[n].onlyVal)
    case AtSlot(key, call, w, n, lev) =>
      if n !in s.nodes || lev >= 16 || |s.nodes[n].slot| != 16 then Lost
      else
        var c := s.nodes[n].slot[key[lev]];
        if c == Empty then Early(key, call, w, s.status, 0)
        else if lev == 0 then AtCheck(key, call, w, c)
        else if c.Sub? then AtOnly(key, call, w, c.id, lev - 1)
        else Lost
    case AtCheck(key, call, w, word) =>
      if s.status == w then Validated(key, call, w, s.status, word) else Begin(key, call)
    case _ => r
  }

  /** An action that is not enabled changes nothing. */
  ghost function Step(s: Sys, a: Action): Sys {
    match a
    case Enter => if s.status % 2 == 0 then s.(status := s.status + 1) else s
    case StoreNode(id, node) => if s.status % 2 == 1 then s.(nodes := s.nodes[id := node]) else s
    case Leave(op, info) =>
      if s.status % 2 == 1 && s.maps != [] && Whole(s.nodes, info, Apply(Last(s), op))
      then s.(status := s.status + 1, info := info, maps := s.maps + [Apply(Last(s), op)]) else s
    case StartGet(r, key) => s.(readers := s.readers[r := Begin(key, s.status)])
    case Read(r) => if r in s.readers then s.(readers := s.readers[r := ReaderStep(s, s.readers[r])]) else s
  }

  // ---------------------------------------------------------------------------------------
  // The invariant

  ghost predicate Core(s: Sys) {
    && |s.maps| == (s.status + 1) / 2 + (if s.status % 2 == 0 then 1 else 0)
    && (s.status % 2 == 0 ==> Whole(s.nodes, s.info, Last(s)))
  }

  /** The value of key while write_status was w. */
  function ValueAt(s: Sys, w: nat, key: Key): int
    requires w / 2 < |s.maps|
  {
    ValueOf(s.maps[w / 2], key)
  }

  /** The snapshot was taken at or after the call, with no writer active. */
  predicate Snapshot(s: Sys, call: nat, w: nat) {
    call <= w <= s.status && w % 2 == 0 && w / 2 < |s.maps|
  }

  /** While write_status is unchanged a reader is at a linked node above its key, or holds its value. */
  ghost predicate ReaderOk(s: Sys, r: Reader) {
    match r
    case Begin(_, call) => call <= s.status
    case AtOnly(key, call, w, n, lev) =>
      Snapshot(s, call, w) && (s.status == w ==> n in s.info && s.info[n].lev == lev && In(key, s.info[n]))
    case AtVal(key, call, w, n) =>
      Snapshot(s, call, w) && (s.status == w ==> n in s.nodes && s.nodes[n].onlyVal == ValueAt(s, w, key))
    case AtSlot(key, call, w, n, lev) =>
      Snapshot(s, call, w) && (s.status == w ==> n in s.info && s.info[n].lev == lev && In(key, s.info[n])
                                                 && n in s.nodes && (lev == 0 || IsZero(s.nodes[n].onlyKey)))
    case AtCheck(key, call, w, word) =>
      Snapshot(s, call, w) && (s.status == w ==> key in s.maps[w / 2] && word == Val(s.maps[w / 2][key]))
    case Early(key, call, w, now, value) =>
      Snapshot(s, call, w) && w <= now <= s.status && (now == w ==> value == ValueAt(s, w, key))
    case Validated(key, call, w, now, word) =>
      Snapshot(s, call, w) && now == w && key in s.maps[w / 2] && word == Val(s.maps[w / 2][key])
    case Lost => true
  }

  ghost predicate Inv(s: Sys) {
    Core(s) && forall r :: r in s.readers ==> ReaderOk(s, s.readers[r])
  }

  lemma InitInv()
    ensures Inv(Init())
  {
    var s := Init();
    CountZero(s.nodes[0].slot);
    assert forall i :: 0 <= i < 16 ==> SlotFits(s.nodes, s.info, s.info[0], s.nodes[0].slot[i], i);
    assert s.nodes[0].onlyKey[0] == 15;
  }

  lemma StepReader(s: Sys, r: Reader)
    requires Core(s) && ReaderOk(s, r)
    ensures ReaderOk(s, ReaderStep(s, r))
  {
    hide Whole, In;
    match r
    case Begin(key, _) =>
      if s.status % 2 == 0 { AllKeys(s.nodes, s.info, Last(s), key); }
    case AtOnly(key, _, w, n, lev) =>
      if s.status == w { WalkStep(s.nodes, s.info, Last(s), n, key); }
    case AtSlot(key, _, w, n, lev) =>
      if s.status == w { WalkStep(s.nodes, s.info, Last(s), n, key); }
    case _ =>
  }

  /** A step of the writer keeps each reader's invariant: it changes nothing that a reader with an unchanged
      snapshot depends on. */
  lemma WriterKeeps(s: Sys, a: Action, r: Reader)
    requires Core(s) && ReaderOk(s, r) && (a.Enter? || a.StoreNode? || a.Leave?)
    ensures ReaderOk(Step(s, a), r)
  {
    hide Whole, In;
  }

  lemma StepInv(s: Sys, a: Action)
    requires Inv(s)
    ensures Inv(Step(s, a))
  {
    hide Whole, In, ReaderOk;
    var s' := Step(s, a);
    if a.StartGet? || a.Read? {
      forall r | r in s'.readers ensures ReaderOk(s', s'.readers[r]) {
        if r in s.readers && a.Read? { StepReader(s, s.readers[r]); }
        OtherReader(s, s', s'.readers[r]);
      }
    } else {
      forall r | r in s'.readers ensures ReaderOk(s', s'.readers[r]) {
        WriterKeeps(s, a, s.readers[r]);
      }
    }
  }

  lemma OtherReader(s: Sys, s': Sys, r: Reader)
    requires s' == s.(readers := s'.readers)
    ensures ReaderOk(s, r) ==> ReaderOk(s', r)
    ensures r.Begin? && r.call == s.status ==> ReaderOk(s', r)
  {
  }

  /** The state after a run of any actions from a new tree. */
  ghost function Run(acts: seq<Action>): Sys
    decreases |acts|
  {
    if acts == [] then Init() else Step(Run(acts[..|acts| - 1]), acts[|acts| - 1])
  }

  lemma {:induction false} RunInv(acts: seq<Action>)
    ensures Inv(Run(acts))
    decreases |acts|
  {
    hide Inv, Step;
    if acts == [] {
      InitInv();
    } else {
      RunInv(acts[..|acts| - 1]);
      StepInv(Run(acts[..|acts| - 1]), acts[|acts| - 1]);
    }
  }

  /** One more action. */
  lemma Then(acts: seq<Action>, a: Action)
    ensures Run(acts + [a]) == Step(Run(acts), a)
  {
    assert (acts + [a])[..|acts + [a]| - 1] == acts;
  }

  /** A value returned through the validated exit is not NULL and is the map's value for the key in a state that had
      no writer active and lay between the call and the return. */
  lemma ValidatedIsCurrent(acts: seq<Action>, r: nat)
    requires r in Run(acts).readers && Run(acts).readers[r].Validated?
    ensures var s := Run(acts); var Validated(key, call, w, now, word) := s.readers[r];
            && call <= w == now <= s.status && w % 2 == 0 && w / 2 < |s.maps|
            && key in s.maps[w / 2] && word == Val(s.maps[w / 2][key]) && s.maps[w / 2][key] != 0
  {
    RunInv(acts);
    var s := Run(acts);
    assert ReaderOk(s, s.readers[r]);
    MapsOk(acts, s.readers[r].w / 2);
  }

  /** An early return is right if write_status is still the snapshot when it loads the last word. */
  lemma EarlyWhileCalm(acts: seq<Action>, r: nat)
    requires r in Run(acts).readers && Run(acts).readers[r].Early? && Run(acts).readers[r].now == Run(acts).readers[r].w
    ensures var s := Run(acts); var Early(key, call, w, now, value) := s.readers[r];
            call <= w <= s.status && w % 2 == 0 && w / 2 < |s.maps| && value == ValueOf(s.maps[w / 2], key)
  {
    RunInv(acts);
    var s := Run(acts);
    assert ReaderOk(s, s.readers[r]);
  }

  /** While its snapshot is current a reader never follows anything but a node. */
  lemma CalmNeverLost(acts: seq<Action>, r: nat)
    requires r in Run(acts).readers
    requires var rd := Run(acts).readers[r]; (rd.AtOnly? || rd.AtSlot? || rd.AtVal?) && rd.w == Run(acts).status
    ensures var s := Run(acts); !ReaderStep(s, s.readers[r]).Lost?
  {
    RunInv(acts);
    var s := Run(acts);
    assert ReaderOk(s, s.readers[r]);
    if !s.readers[r].AtVal? {
      WalkStep(s.nodes, s.info, Last(s), s.readers[r].n, s.readers[r].key);
    }
  }

  ghost predicate OneOp(m: map<Key, int>, m': map<Key, int>) {
    exists op: Op :: m' == Apply(m, op)
  }

  /** A step leaves the history alone or adds the next map. */
  lemma StepMaps(s: Sys, a: Action)
    requires s.maps != []
    ensures var maps, maps' := s.maps, Step(s, a).maps;
            || maps' == maps
            || (&& |maps'| == |maps| + 1 && maps'[..|maps|] == maps
                && OneOp(maps[|maps| - 1], maps'[|maps|]) && MapOk(maps'[|maps|]))
  {
    hide ReaderStep;
  }

  lemma SomeMap(s: Sys)
    requires Inv(s)
    ensures s.maps != []
  {
  }

  /** Every map of the history holds non-NULL values, and is the one before with one operation applied. */
  lemma {:induction false} MapsOk(acts: seq<Action>, i: nat)
    requires i < |Run(acts).maps|
    ensures MapOk(Run(acts).maps[i])
    ensures i > 0 ==> OneOp(Run(acts).maps[i - 1], Run(acts).maps[i])
    decreases |acts|
  {
    hide Inv, Step, OneOp;
    if acts != [] {
      var acts0 := acts[..|acts| - 1];
      RunInv(acts0);
      SomeMap(Run(acts0));
      StepMaps(Run(acts0), acts[|acts| - 1]);
      if i < |Run(acts0).maps| {
        MapsOk(acts0, i);
        assert Run(acts).maps[i] == Run(acts0).maps[i];
      }
    }
  }
}
