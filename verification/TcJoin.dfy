/** The sequential tree and the seqlock system are one: readers do not disturb the writer's run, so the run that class
    TcRadix records stands for all interleavings with readers; and the validated exit is reached. */
module TcJoin {
  import opened Digits
  import opened TcTree
  import opened TcLook
  import opened TcSeqlock
  import opened TcCalls
  import opened TcRadix

  predicate IsWrite(a: Action) {
    a.Enter? || a.StoreNode? || a.Leave?
  }

  /** A run without its readers. */
  function WriterPart(acts: seq<Action>): seq<Action>
    decreases |acts|
  {
    if acts == [] then []
    else
      var w := WriterPart(acts[..|acts| - 1]);
      if IsWrite(acts[|acts| - 1]) then w + [acts[|acts| - 1]] else w
  }

  /** The step of a writer does not depend on the readers. */
  lemma WriterAlone(s: Sys, s': Sys, a: Action)
    requires s' == s.(readers := s'.readers) && IsWrite(a)
    ensures Step(s', a) == Step(s, a).(readers := s'.readers)
  {
  }

  /** Whatever readers do in between, nodes, write_status and maps are those of the writer's run. */
  lemma {:induction false} ReadersDoNotDisturb(acts: seq<Action>)
    ensures Run(acts) == Run(WriterPart(acts)).(readers := Run(acts).readers)
    decreases |acts|
  {
    hide Step;
    if acts != [] {
      var acts0, a := acts[..|acts| - 1], acts[|acts| - 1];
      ReadersDoNotDisturb(acts0);
      var s := Run(acts0);
      if IsWrite(a) {
        WriterAlone(Run(WriterPart(acts0)), s, a);
        Then(WriterPart(acts0), a);
        KeepsReaders(s, a);
      } else {
        ReaderOnly(s, a);
      }
    }
  }

  lemma KeepsReaders(s: Sys, a: Action)
    requires IsWrite(a)
    ensures Step(s, a).readers == s.readers
  {
  }

  lemma ReaderOnly(s: Sys, a: Action)
    requires !IsWrite(a)
    ensures Step(s, a) == s.(readers := Step(s, a).readers)
  {
  }

  /** Every value that a reader validates, in any interleaving of readers with a run of the tree's own inserts and
      removes, is the value of the key in one of the maps that these operations produced. */
  lemma ValidatedFromTree(t: TcRadix, acts: seq<Action>, r: nat)
    requires t.Valid() && WriterPart(acts) == t.acts
    requires r in Run(acts).readers && Run(acts).readers[r].Validated?
    ensures var maps := Run(t.acts).maps; var v := Run(acts).readers[r];
            v.w % 2 == 0 && v.w <= t.status && v.w / 2 < |maps| && v.key in maps[v.w / 2]
                && v.word == Val(maps[v.w / 2][v.key])
  {
    hide Whole, Net, PoolOk;
    ReadersDoNotDisturb(acts);
    ValidatedIsCurrent(acts, r);
  }

  // ---------------------------------------------------------------------------------------
  // The validated exit is reached

  /** An undisturbed get of key 0, if it is stored, leaves by the validated exit. */
  lemma ZeroValidated(acts: seq<Action>, r: nat, z: Nibbles) returns (acts': seq<Action>)
    requires var s := Run(acts); s.status % 2 == 0 && s.maps != [] && IsZero(z) && z in Last(s)
    ensures r in Run(acts').readers && Run(acts').readers[r].Validated?
  {
    hide Run;
    var n := LoneGet(acts, r, z);
    acts' := acts + [StartGet(r, z)] + Reads(r, n);
  }

  /** There is a run of the tree's own operations with a reader that leaves by the validated exit. */
  method ValidatedExit(value: int) returns (ghost acts: seq<Action>)
    requires value != 0
    ensures 0 in Run(acts).readers && Run(acts).readers[0].Validated?
  {
    hide Run;
    var t := new TcRadix();
    var z: Key := seq(16, _ => 0);
    t.Insert(z, value);
    assert z in t.m;
    acts := ZeroValidated(t.acts, 0, z);
  }
}
