/** tcradix_get said of the actions of a run: when it waits, when it returns, and what it answers. */
module TcCalls {
  import opened Digits
  import opened TcTree
  import opened TcLook
  import opened TcSeqlock

  // ---------------------------------------------------------------------------------------
  // The call

  /** acts[i] starts a get of key by reader r, the last that r starts. */
  predicate Starts(acts: seq<Action>, i: nat, r: nat, key: Nibbles) {
    && i < |acts| && acts[i] == StartGet(r, key)
    && (forall k :: i < k < |acts| ==> !(acts[k].StartGet? && acts[k].r == r))
  }

  /** The state before the last action. */
  lemma LastStep(acts: seq<Action>)
    requires acts != []
    ensures var s := Run(acts[..|acts| - 1]); Inv(s) && Run(acts) == Step(s, acts[|acts| - 1])
  {
    hide Inv, Step;
    RunInv(acts[..|acts| - 1]);
  }

  lemma Remembers(s: Sys, a: Action, r: nat)
    requires r in s.readers && !(a.StartGet? && a.r == r)
    ensures r in Step(s, a).readers
    ensures var rd, rd' := s.readers[r], Step(s, a).readers[r];
            rd'.Lost? || (!rd.Lost? && rd'.key == rd.key && rd'.call == rd.call)
  {
  }

  /** The reader works on the key of its call, and its call is write_status at that instant. */
  lemma {:induction false} WorksOn(acts: seq<Action>, i: nat, r: nat, key: Nibbles)
    requires Starts(acts, i, r, key)
    ensures r in Run(acts).readers
    ensures var rd := Run(acts).readers[r]; rd.Lost? || (rd.key == key && rd.call == Run(acts[..i]).status)
    decreases |acts|
  {
    hide Inv;
    var acts0 := acts[..|acts| - 1];
    LastStep(acts);
    if i < |acts| - 1 {
      hide Step;
      assert acts0[..i] == acts[..i];
      WorksOn(acts0, i, r, key);
      Remembers(Run(acts0), acts[|acts| - 1], r);
    }
  }

  /** Steps add to write_status and to the maps. */
  lemma StepStatus(s: Sys, a: Action)
    requires Inv(s)
    ensures var s' := Step(s, a);
            && s.status <= s'.status <= s.status + 1 && |s.maps| <= |s'.maps| && s'.maps[..|s.maps|] == s.maps
            && (s'.status == s.status ==> s'.maps == s.maps)
  {
    hide ReaderStep, Whole, Apply;
  }

  /** Every value of write_status since the first i actions was its value after some prefix of the run. */
  lemma {:induction false} StatusIsPrefix(acts: seq<Action>, i: nat, w: nat) returns (j: nat)
    requires i <= |acts| && Run(acts[..i]).status <= w <= Run(acts).status && w % 2 == 0
    ensures i <= j <= |acts| && Run(acts[..j]).status == w
    ensures var s := Run(acts[..j]); s.maps != [] && w / 2 < |Run(acts).maps| && Last(s) == Run(acts).maps[w / 2]
    decreases |acts|
  {
    hide Inv, Step;
    RunInv(acts);
    EvenMaps(Run(acts));
    assert acts[..|acts|] == acts;
    if w == Run(acts).status {
      j := |acts|;
    } else {
      var acts0 := acts[..|acts| - 1];
      assert i < |acts|;
      LastStep(acts);
      StepStatus(Run(acts0), acts[|acts| - 1]);
      assert acts0[..i] == acts[..i];
      j := StatusIsPrefix(acts0, i, w);
      assert acts0[..j] == acts[..j];
    }
  }

  lemma EvenMaps(s: Sys)
    requires Inv(s)
    ensures s.maps != [] && (s.status % 2 == 0 ==> |s.maps| == s.status / 2 + 1)
  {
  }

  /** tcradix.c:387-390: what the get that acts[i] started returns by the validated exit is the value of its own key in
      the map at an instant since the call at which no writer was active. */
  lemma ValidatedAnswersItsCall(acts: seq<Action>, i: nat, r: nat, key: Nibbles) returns (j: nat)
    requires Starts(acts, i, r, key) && r in Run(acts).readers && Run(acts).readers[r].Validated?
    ensures i <= j <= |acts| && Run(acts[..j]).status % 2 == 0 && Run(acts[..j]).maps != []
    ensures key in Last(Run(acts[..j])) && Run(acts).readers[r].word == Val(Last(Run(acts[..j]))[key])
  {
    hide Run, Inv, Step;
    WorksOn(acts, i, r, key);
    ValidatedIsCurrent(acts, r);
    j := StatusIsPrefix(acts, i, Run(acts).readers[r].w);
  }

  // ---------------------------------------------------------------------------------------
  // While a writer is active

  lemma Waits(s: Sys, a: Action, r: nat)
    requires s.status % 2 == 1 && r in s.readers && s.readers[r].Begin? && !(a.StartGet? && a.r == r)
    ensures r in Step(s, a).readers && Step(s, a).readers[r] == s.readers[r]
  {
  }

  /** tcradix.c:338-342, 373-374: a reader that has not taken its snapshot does not return, and loads nothing of the
      tree, while write_status is odd. */
  lemma {:induction false} WaitsWhileOdd(acts: seq<Action>, i: nat, r: nat)
    requires i <= |acts| && r in Run(acts[..i]).readers && Run(acts[..i]).readers[r].Begin?
    requires forall k :: i <= k < |acts| ==> Run(acts[..k]).status % 2 == 1
    requires forall k :: i <= k < |acts| ==> !(acts[k].StartGet? && acts[k].r == r)
    ensures r in Run(acts).readers && Run(acts).readers[r] == Run(acts[..i]).readers[r]
    decreases |acts|
  {
    hide Step;
    if i == |acts| {
      assert acts[..i] == acts;
    } else {
      var acts0 := acts[..|acts| - 1];
      assert acts0[..i] == acts[..i];
      forall k | i <= k < |acts0| ensures Run(acts0[..k]).status % 2 == 1 {
        assert acts0[..k] == acts[..k];
      }
      WaitsWhileOdd(acts0, i, r);
      Waits(Run(acts0), acts[|acts| - 1], r);
    }
  }

  // ---------------------------------------------------------------------------------------
  // Without a writer

  function Reads(r: nat, n: nat): seq<Action> {
    seq(n, _ => Read(r))
  }

  /** How many loads are left, at most. */
  function LoadsLeft(rd: Reader): nat {
    match rd
    case Begin(_, _) => 34
    case AtOnly(_, _, _, _, lev) => 2 * lev + 3
    case AtSlot(_, _, _, _, lev) => 2 * lev + 2
    case AtVal(_, _, _, _) => 1
    case AtCheck(_, _, _, _) => 1
    case _ => 0
  }

  predicate Returned(rd: Reader) {
    rd.Early? || rd.Validated?
  }

  /** The returned pointer, 0 standing for NULL. */
  function ResultOf(rd: Reader): Cell
    requires Returned(rd)
  {
    if rd.Validated? then rd.word else if rd.value == 0 then Empty else Val(rd.value)
  }

  /** The map's answer for the key. */
  function AnswerFor(m: map<Key, int>, key: Key): Cell {
    if ValueOf(m, key) == 0 then Empty else Val(ValueOf(m, key))
  }

  /** The reader has not begun to look, looks at the present tree, or has looked at it. */
  predicate Present(s: Sys, rd: Reader) {
    match rd
    case Begin(_, _) => true
    case Lost => false
    case Early(_, _, w, now, _) => w == now == s.status
    case Validated(_, _, w, _, _) => w == s.status
    case _ => rd.w == s.status
  }

  /** Only a key that is not zero is taken from only_val. */
  predicate FromCache(rd: Reader) {
    && (rd.AtVal? ==> !IsZero(rd.key))
    && (rd.Early? && rd.value != 0 ==> !IsZero(rd.key))
  }

  lemma LoadOk(s: Sys, rd: Reader)
    requires Core(s) && s.status % 2 == 0 && ReaderOk(s, rd) && Present(s, rd) && !Returned(rd) && FromCache(rd)
    ensures var rd' := ReaderStep(s, rd);
            Present(s, rd') && FromCache(rd') && rd'.key == rd.key && LoadsLeft(rd') < LoadsLeft(rd)
  {
    hide Whole, In;
    if rd.AtOnly? || rd.AtSlot? {
      WalkStep(s.nodes, s.info, Last(s), rd.n, rd.key);
      Linked0(s.nodes, s.info, Last(s), rd.n);
    }
  }

  lemma PresentAnswer(s: Sys, rd: Reader)
    requires Core(s) && s.status % 2 == 0 && ReaderOk(s, rd) && Present(s, rd) && Returned(rd)
    ensures s.maps != [] && ResultOf(rd) == AnswerFor(Last(s), rd.key)
    ensures rd.Validated? ==> rd.key in Last(s)
  {
    assert MapOk(Last(s));
  }

  lemma LoadAlone(acts: seq<Action>, r: nat)
    requires r in Run(acts).readers
    ensures var s, s' := Run(acts), Run(acts + [Read(r)]);
            Inv(s) && ReaderOk(s, s.readers[r]) && s' == s.(readers := s.readers[r := ReaderStep(s, s.readers[r])])
  {
    hide ReaderStep, ReaderOk;
    RunInv(acts);
    Then(acts, Read(r));
  }

  lemma ReadsOn(acts: seq<Action>, r: nat, n: nat)
    ensures acts + Reads(r, n + 1) == acts + [Read(r)] + Reads(r, n)
    ensures acts + Reads(r, 0) == acts
  {
    assert Reads(r, n + 1) == [Read(r)] + Reads(r, n);
  }

  /** With write_status even, a reader that looks at the present tree returns the map's answer. */
  lemma {:induction false} ReturnsAlone(acts: seq<Action>, r: nat) returns (n: nat)
    requires var s := Run(acts);
             s.status % 2 == 0 && r in s.readers && Present(s, s.readers[r]) && FromCache(s.readers[r])
    ensures n <= LoadsLeft(Run(acts).readers[r]) && Run(acts).maps != []
    ensures var s, s' := Run(acts), Run(acts + Reads(r, n)); var key := s.readers[r].key;
            && r in s'.readers && s' == s.(readers := s.readers[r := s'.readers[r]]) && Returned(s'.readers[r])
            && ResultOf(s'.readers[r]) == AnswerFor(Last(s), key) && FromCache(s'.readers[r])
            && s'.readers[r].key == key
    decreases LoadsLeft(Run(acts).readers[r])
  {
    hide Run, Core, ReaderOk, ReaderStep, FromCache, LoadsLeft, AnswerFor, ResultOf;
    var s := Run(acts);
    LoadAlone(acts, r);
    ReadsOn(acts, r, 0);
    n := 0;
    if Returned(s.readers[r]) {
      PresentAnswer(s, s.readers[r]);
    } else {
      LoadOk(s, s.readers[r]);
      n := ReturnsAlone(acts + [Read(r)], r);
      ReadsOn(acts, r, n);
      n := n + 1;
    }
  }

  /** tcradix.c:366-390: a get that begins with write_status even and that no writer interrupts returns within 34 loads,
      by either exit, with the map's value for its key, and NULL if the key is absent. By the early exit it returns a
      value only for a key that is not zero. */
  lemma LoneGet(acts: seq<Action>, r: nat, key: Nibbles) returns (n: nat)
    requires Run(acts).status % 2 == 0
    ensures n <= 34 && Run(acts).maps != []
    ensures var s, s' := Run(acts), Run(acts + [StartGet(r, key)] + Reads(r, n));
            && r in s'.readers && s' == s.(readers := s.readers[r := s'.readers[r]]) && Returned(s'.readers[r])
            && ResultOf(s'.readers[r]) == AnswerFor(Last(s), key)
            && (IsZero(key) && key in Last(s) ==> s'.readers[r].Validated?)
  {
    hide Run, Core, ReaderOk, ReaderStep, AnswerFor;
    Then(acts, StartGet(r, key));
    n := ReturnsAlone(acts + [StartGet(r, key)], r);
    RunInv(acts);
    if key in Last(Run(acts)) { StoredAnswer(Run(acts), key); }
  }

  lemma StoredAnswer(s: Sys, key: Key)
    requires Inv(s) && s.status % 2 == 0 && s.maps != [] && key in Last(s)
    ensures AnswerFor(Last(s), key) == Val(Last(s)[key]) && AnswerFor(Last(s), key) != Empty
  {
    assert MapOk(Last(s));
  }

  // ---------------------------------------------------------------------------------------
  // Across writers that stay off the path

  /** The nodes that a walk for the key from node n visits. */
  function Path(nodes: map<nat, TNode>, n: nat, lev: nat, key: Nibbles): set<nat>
    decreases lev
  {
    {n} +
    if n !in nodes || |nodes[n].slot| != 16 || lev >= 16 || lev == 0 || !IsZero(nodes[n].onlyKey) then {}
    else match nodes[n].slot[key[lev]]
      case Sub(c) => Path(nodes, c, lev - 1, key)
      case _ => {}
  }

  /** The walk meets only nodes, with a child or nothing above level 0 and a value or nothing at level 0. */
  predicate Sound(nodes: map<nat, TNode>, n: nat, lev: nat, key: Nibbles)
    decreases lev
  {
    && n in nodes && |nodes[n].slot| == 16 && lev < 16
    && (lev == 0 || IsZero(nodes[n].onlyKey) ==>
          match nodes[n].slot[key[lev]]
          case Empty => true
          case Val(v) => lev == 0 && v != 0
          case Sub(c) => lev > 0 && Sound(nodes, c, lev - 1, key))
  }

  /** The nodes of p are the same. */
  predicate SameOn(p: set<nat>, nodes: map<nat, TNode>, nodes': map<nat, TNode>) {
    forall n :: n in p ==> (n in nodes <==> n in nodes') && (n in nodes ==> nodes'[n] == nodes[n])
  }

  lemma {:induction false} SameWalk(nodes: map<nat, TNode>, nodes': map<nat, TNode>, n: nat, lev: nat, key: Nibbles)
    requires SameOn(Path(nodes, n, lev, key), nodes, nodes')
    ensures Path(nodes', n, lev, key) == Path(nodes, n, lev, key)
    ensures Look(nodes', n, lev, key) == Look(nodes, n, lev, key)
    ensures Sound(nodes', n, lev, key) == Sound(nodes, n, lev, key)
    decreases lev
  {
    assert n in Path(nodes, n, lev, key);
    if n in nodes && |nodes[n].slot| == 16 && 0 < lev < 16 && IsZero(nodes[n].onlyKey) {
      match nodes[n].slot[key[lev]]
      case Sub(c) => SameWalk(nodes, nodes', c, lev - 1, key);
      case _ =>
    }
  }

  lemma {:induction false} WholeIsSound(nodes: map<nat, TNode>, info: map<nat, Pos>, m: map<Key, int>, n: nat,
                                        key: Nibbles)
    requires Whole(nodes, info, m) && n in info && In(key, info[n])
    ensures Sound(nodes, n, info[n].lev, key)
    decreases if n in info then info[n].lev else 0
  {
    hide Whole, In;
    Linked0(nodes, info, m, n);
    WalkStep(nodes, info, m, n, key);
    ValuesInMap(nodes, info, m);
    var lev := info[n].lev;
    if lev == 0 || IsZero(nodes[n].onlyKey) {
      match nodes[n].slot[key[lev]]
      case Sub(c) => WholeIsSound(nodes, info, m, c, key);
      case _ =>
    }
  }

  lemma ValuesInMap(nodes: map<nat, TNode>, info: map<nat, Pos>, m: map<Key, int>)
    requires Whole(nodes, info, m)
    ensures forall k :: k in m ==> m[k] != 0
  {
  }

  /** Where a reader of the key stands that has seen only the nodes as they were when its call began: on the way to what
      they lead to, or with that in hand. */
  ghost predicate OnPath(nodes: map<nat, TNode>, key: Nibbles, rd: Reader) {
    var v, p := Look(nodes, 0, 15, key), Path(nodes, 0, 15, key);
    match rd
    case Begin(k, _) => k == key
    case AtOnly(k, _, _, n, lev) =>
      k == key && Look(nodes, n, lev, key) == v && Sound(nodes, n, lev, key) && Path(nodes, n, lev, key) <= p
    case AtSlot(k, _, _, n, lev) =>
      && k == key && Look(nodes, n, lev, key) == v && Sound(nodes, n, lev, key) && Path(nodes, n, lev, key) <= p
      && (lev == 0 || IsZero(nodes[n].onlyKey))
    case AtVal(k, _, _, n) => k == key && n in nodes && n in p && nodes[n].onlyVal == v
    case AtCheck(k, _, _, word) => k == key && word == Val(v) && v != 0
    case Early(k, _, _, _, value) => k == key && value == v
    case Validated(k, _, _, _, word) => k == key && word == Val(v) && v != 0
    case Lost => false
  }

  /** With write_status even the nodes of the path lead to the map's value. */
  lemma PathAnswers(s: Sys, nodes: map<nat, TNode>, key: Nibbles)
    requires Inv(s) && s.status % 2 == 0 && SameOn(Path(nodes, 0, 15, key), nodes, s.nodes)
    ensures s.maps != [] && Look(nodes, 0, 15, key) == ValueOf(Last(s), key) && Sound(nodes, 0, 15, key)
  {
    hide Whole, In, ReaderOk;
    AllKeys(s.nodes, s.info, Last(s), key);
    LookRight(s.nodes, s.info, Last(s), 0, key);
    WholeIsSound(s.nodes, s.info, Last(s), 0, key);
    SameWalk(nodes, s.nodes, 0, 15, key);
  }

  /** The first load at a node of the path. */
  lemma LoadOnly(s: Sys, nodes: map<nat, TNode>, key: Nibbles, rd: Reader)
    requires OnPath(nodes, key, rd) && (rd.AtOnly? || rd.AtVal?)
    requires rd.n in nodes && rd.n in s.nodes && s.nodes[rd.n] == nodes[rd.n]
    ensures OnPath(nodes, key, ReaderStep(s, rd))
  {
    PathPart(nodes, key, rd);
    hide Path;
  }

  /** Where the walk goes from a node that is not compressed. */
  lemma WalkOn(nodes: map<nat, TNode>, n: nat, lev: nat, key: Nibbles)
    requires Sound(nodes, n, lev, key) && (lev == 0 || IsZero(nodes[n].onlyKey))
    ensures match nodes[n].slot[key[lev]]
            case Empty => Look(nodes, n, lev, key) == 0
            case Val(v) => lev == 0 && v != 0 && Look(nodes, n, lev, key) == v
            case Sub(c) =>
              && lev > 0 && Sound(nodes, c, lev - 1, key) && Look(nodes, c, lev - 1, key) == Look(nodes, n, lev, key)
              && Path(nodes, c, lev - 1, key) <= Path(nodes, n, lev, key)
  {
  }

  /** The second load, of the slot. */
  lemma SlotStep(s: Sys, rd: Reader)
    requires rd.AtSlot? && rd.n in s.nodes && rd.lev < 16 && |s.nodes[rd.n].slot| == 16
    ensures var c, rd' := s.nodes[rd.n].slot[rd.key[rd.lev]], ReaderStep(s, rd);
            && (c == Empty ==> rd' == Early(rd.key, rd.call, rd.w, s.status, 0))
            && (c.Val? && rd.lev == 0 ==> rd' == AtCheck(rd.key, rd.call, rd.w, c))
            && (c.Sub? && rd.lev > 0 ==> rd' == AtOnly(rd.key, rd.call, rd.w, c.id, rd.lev - 1))
  {
  }

  lemma LoadSlot(s: Sys, nodes: map<nat, TNode>, key: Nibbles, rd: Reader)
    requires OnPath(nodes, key, rd) && rd.AtSlot?
    requires rd.n in nodes && rd.n in s.nodes && s.nodes[rd.n] == nodes[rd.n]
    ensures OnPath(nodes, key, ReaderStep(s, rd))
  {
    hide Path, Look, Sound, ReaderStep, IsZero;
    SoundNode(nodes, rd.n, rd.lev, key);
    WalkOn(nodes, rd.n, rd.lev, key);
    SlotStep(s, rd);
  }

  lemma SoundNode(nodes: map<nat, TNode>, n: nat, lev: nat, key: Nibbles)
    requires Sound(nodes, n, lev, key)
    ensures n in nodes && |nodes[n].slot| == 16 && lev < 16
  {
  }

  lemma PathPart(nodes: map<nat, TNode>, key: Nibbles, rd: Reader)
    requires OnPath(nodes, key, rd) && (rd.AtOnly? || rd.AtSlot? || rd.AtVal?)
    ensures rd.n in nodes && rd.n in Path(nodes, 0, 15, key)
  {
    if !rd.AtVal? { assert rd.n in Path(nodes, rd.n, rd.lev, key); }
  }

  lemma LoadOnPath(s: Sys, nodes: map<nat, TNode>, key: Nibbles, rd: Reader)
    requires Inv(s) && SameOn(Path(nodes, 0, 15, key), nodes, s.nodes) && OnPath(nodes, key, rd)
    ensures OnPath(nodes, key, ReaderStep(s, rd))
  {
    hide Inv;
    if rd.AtOnly? || rd.AtSlot? || rd.AtVal? {
      hide ReaderStep, OnPath, Path;
      PathPart(nodes, key, rd);
      if rd.AtSlot? { LoadSlot(s, nodes, key, rd); } else { LoadOnly(s, nodes, key, rd); }
    } else if rd.Begin? && s.status % 2 == 0 {
      hide Look, Path, Sound;
      PathAnswers(s, nodes, key);
    }
  }

  /** The action stores into a node of p. */
  predicate StoresInto(a: Action, p: set<nat>) {
    a.StoreNode? && a.id in p
  }

  lemma StepOnPath(s: Sys, a: Action, nodes: map<nat, TNode>, r: nat, key: Nibbles)
    requires Inv(s) && SameOn(Path(nodes, 0, 15, key), nodes, s.nodes) && !StoresInto(a, Path(nodes, 0, 15, key))
    requires r in s.readers && OnPath(nodes, key, s.readers[r]) && !(a.StartGet? && a.r == r)
    ensures SameOn(Path(nodes, 0, 15, key), nodes, Step(s, a).nodes)
    ensures r in Step(s, a).readers && OnPath(nodes, key, Step(s, a).readers[r])
  {
    hide Inv, OnPath, ReaderStep;
    if a.Read? && a.r == r { LoadOnPath(s, nodes, key, s.readers[r]); }
  }

  /** Since acts[i] no action stores into a node on the way to the key. */
  ghost predicate PathUntouched(acts: seq<Action>, i: nat, key: Nibbles)
    requires i <= |acts|
  {
    forall k :: i < k < |acts| ==> !StoresInto(acts[k], Path(Run(acts[..i]).nodes, 0, 15, key))
  }

  lemma {:induction false} StaysOnPath(acts: seq<Action>, i: nat, r: nat, key: Nibbles)
    requires Starts(acts, i, r, key) && PathUntouched(acts, i, key)
    ensures var nodes := Run(acts[..i]).nodes; var s := Run(acts);
            SameOn(Path(nodes, 0, 15, key), nodes, s.nodes) && r in s.readers && OnPath(nodes, key, s.readers[r])
    decreases |acts|
  {
    hide Inv, SameOn;
    var acts0, a := acts[..|acts| - 1], acts[|acts| - 1];
    LastStep(acts);
    if i == |acts| - 1 {
      SameItself(Path(Run(acts0).nodes, 0, 15, key), Run(acts0).nodes);
    } else {
      hide Step, OnPath, StoresInto;
      assert acts0[..i] == acts[..i];
      StaysOnPath(acts0, i, r, key);
      StepOnPath(Run(acts0), a, Run(acts[..i]).nodes, r, key);
    }
  }

  lemma SameItself(p: set<nat>, nodes: map<nat, TNode>)
    ensures SameOn(p, nodes, nodes)
  {
  }

  /** tcradix.c:366-390: a get of whose path no node is stored into between call and return answers with the map's value
      for its key, by either exit, however many writers came and went: the value is the same at every instant since the
      call at which none was active. Such a get is never lost. */
  lemma UntouchedPath(acts: seq<Action>, i: nat, r: nat, key: Nibbles)
    requires Starts(acts, i, r, key) && PathUntouched(acts, i, key)
    ensures r in Run(acts).readers && !Run(acts).readers[r].Lost?
    ensures Returned(Run(acts).readers[r]) ==>
              forall k :: i <= k <= |acts| && Run(acts[..k]).status % 2 == 0 ==>
                Run(acts[..k]).maps != [] && ResultOf(Run(acts).readers[r]) == AnswerFor(Last(Run(acts[..k])), key)
  {
    hide Run, Inv, Path, Sound, Look, ValueOf;
    StaysOnPath(acts, i, r, key);
    var nodes := Run(acts[..i]).nodes;
    forall k | i <= k <= |acts| && Run(acts[..k]).status % 2 == 0
      ensures Run(acts[..k]).maps != [] && Look(nodes, 0, 15, key) == ValueOf(Last(Run(acts[..k])), key)
    {
      RunInv(acts[..k]);
      SameSince(acts, i, k, r, key);
      PathAnswers(Run(acts[..k]), nodes, key);
    }
  }

  /** The path is as it was at the call after every prefix of the run since. */
  lemma SameSince(acts: seq<Action>, i: nat, k: nat, r: nat, key: Nibbles)
    requires Starts(acts, i, r, key) && PathUntouched(acts, i, key) && i <= k <= |acts|
    ensures var nodes := Run(acts[..i]).nodes; SameOn(Path(nodes, 0, 15, key), nodes, Run(acts[..k]).nodes)
  {
    hide Run, OnPath, StoresInto, Path;
    if i < k {
      assert acts[..k][..i] == acts[..i];
      StaysOnPath(acts[..k], i, r, key);
    }
  }
}
