/** Runs that the theorems over runs are about.

Operations on a tree of one leaf, as extensions of any run that has come to such a tree, and from them two runs: a get
that overlaps a remove returns the removed value, and a reader holds a leaf at the moment the leaf is recycled. */
module CritnibWitness {
  import opened Digits
  import opened RadixTree
  import opened CritnibModel
  import opened CritnibRuns

  /** The ring slot of the next remove is empty. */
  predicate NothingDue(st: Store) {
    && |st.pendNodes| == 16 && |st.pendLeaves| == 16
    && st.pendNodes[st.count % LIFE] == Null && st.pendLeaves[st.count % LIFE] == Null
  }

  /** An insert gets a new leaf from malloc. */
  lemma GetsLeaf(acts: seq<Action>, key: Nibbles, value: Word, id: nat) returns (acts': seq<Action>)
    requires var s := Run(acts); s.w.Idle? && s.st.deletedLeaf == Nil && id !in s.st.mem.leaves
    ensures var s, s' := Run(acts), Run(acts');
            && s'.w == InsKey(key, value, id) && s'.readers == s.readers
            && s'.st == s.st.(mem := s.st.mem.(leaves := s.st.mem.leaves[id := Leaf(key, Nil)]))
  {
    hide Ready;
    Then(acts, StartInsert(key, value, LeafBlock(id, Leaf(key, Nil))));
    acts' := acts + [StartInsert(key, value, LeafBlock(id, Leaf(key, Nil)))];
  }

  /** It fills it in. */
  lemma FillsLeaf(acts: seq<Action>) returns (acts': seq<Action>)
    requires var s := Run(acts); s.w.InsKey? && s.w.k in s.st.mem.leaves
    ensures var s, s' := Run(acts), Run(acts');
            && s'.w == InsDive(s.w.key, s.w.value, s.w.k, Top) && s'.readers == s.readers
            && s'.st == s.st.(mem := s.st.mem.(leaves := s.st.mem.leaves[s.w.k := Leaf(s.w.key, s.w.value)]))
  {
    hide Ready;
    Then(acts, Write(NoMem));
    acts' := acts + [Write(NoMem)];
    assert Run(acts').w.InsVal?;
    Then(acts', Write(NoMem));
    acts' := acts' + [Write(NoMem)];
  }

  /** An insert into an empty tree, with an empty pool. */
  lemma PlantFirst(acts: seq<Action>, key: Nibbles, value: Word, id: nat) returns (acts': seq<Action>)
    requires var s := Run(acts);
             s.w.Idle? && s.st.mem.root == Null && s.st.deletedLeaf == Nil && id !in s.st.mem.leaves
    ensures var s, s' := Run(acts), Run(acts');
            && s'.w == Idle(Code(Ok)) && s'.readers == s.readers
            && s'.st == s.st.(mem := s.st.mem.(root := Tagged(id), leaves := s.st.mem.leaves[id := Leaf(key, value)]))
  {
    hide Ready;
    acts' := GetsLeaf(acts, key, value, id);
    acts' := FillsLeaf(acts');
    Then(acts', Write(NoMem));
    acts' := acts' + [Write(NoMem)];
  }

  /** A remove begins and has nothing to recycle. */
  lemma BeginsRemove(acts: seq<Action>, key: Nibbles) returns (acts': seq<Action>)
    requires var s := Run(acts); s.w.Idle? && s.st.mem.root != Null && NothingDue(s.st)
    ensures var s, s' := Run(acts), Run(acts');
            s'.w == RemDive(key, Top, Top) && s'.readers == s.readers && s'.st == s.st.(count := s.st.count + 1)
  {
    hide Ready;
    Then(acts, StartRemove(key));
    acts' := acts + [StartRemove(key)];
    assert Run(acts').w == RemNode(key);
    Then(acts', Write(NoMem));
    acts' := acts' + [Write(NoMem)];
    assert Run(acts').w == RemLeaf(key);
    Then(acts', Write(NoMem));
    acts' := acts' + [Write(NoMem)];
  }

  /** A reader takes its snapshot and loads the root. */
  lemma LoadsRoot(acts: seq<Action>, r: nat, key: Nibbles) returns (acts': seq<Action>)
    requires r !in Run(acts).readers
    ensures var s, s' := Run(acts), Run(acts');
            && s'.w == s.w && s'.st == s.st && s'.hist == s.hist && r in s'.readers && s'.readers[r].AtPtr?
            && s'.readers[r].cur == s.st.mem.root && s'.readers[r].q.key == key && s'.readers[r].q.w == s.st.count
  {
    hide Ready;
    Then(acts, StartGet(r, key));
    acts' := acts + [StartGet(r, key)];
    Then(acts', Read(r));
    acts' := acts' + [Read(r)];
    assert Run(acts').readers[r].AtRoot?;
    Then(acts', Read(r));
    acts' := acts' + [Read(r)];
  }

  /** A reader that holds the leaf of its key finishes with the leaf's value. */
  lemma ReadsLeaf(acts: seq<Action>, r: nat) returns (acts': seq<Action>)
    requires var s := Run(acts);
             && r in s.readers && s.readers[r].AtPtr? && s.readers[r].cur.Tagged?
             && s.readers[r].cur.id in s.st.mem.leaves
             && s.st.mem.leaves[s.readers[r].cur.id].key == s.readers[r].q.key && s.st.count < s.readers[r].q.w + LIFE
    ensures var s, s' := Run(acts), Run(acts');
            && s'.w == s.w && s'.hist == s.hist && r in s'.readers && s'.readers[r].Done?
            && s'.readers[r].res == s.st.mem.leaves[s.readers[r].cur.id].value
  {
    hide Ready;
    Then(acts, Read(r));
    acts' := acts + [Read(r)];
    assert Run(acts').readers[r].AtValue?;
    Then(acts', Read(r));
    acts' := acts' + [Read(r)];
    assert Run(acts').readers[r].AtCheck?;
    Then(acts', Read(r));
    acts' := acts' + [Read(r)];
  }

  /** The remove under way cuts off the leaf at the root. */
  lemma CutsRoot(acts: seq<Action>, key: Nibbles, id: nat) returns (acts': seq<Action>)
    requires var s := Run(acts);
             && s.w == RemDive(key, Top, Top) && s.st.mem.root == Tagged(id) && s.st.count > 0
             && |s.st.pendLeaves| == 16
             && id in s.st.mem.leaves && s.st.mem.leaves[id].key == key
    ensures var s, s' := Run(acts), Run(acts');
            && s'.w == Idle(Value(s.st.mem.leaves[id].value)) && s'.readers == s.readers
            && s'.st == s.st.(mem := s.st.mem.(root := Null),
                pendLeaves := s.st.pendLeaves[(s.st.count - 1) % LIFE := Tagged(id)])
            && s'.hist != [] && key !in Current(s')
  {
    hide Ready;
    Then(acts, Write(NoMem));
    acts' := acts + [Write(NoMem)];
  }

  /** The remove of an absent key from a tree of one leaf counts, and does nothing else. */
  lemma MissesRemove(acts: seq<Action>, key: Nibbles, id: nat) returns (acts': seq<Action>)
    requires var s := Run(acts);
             && s.w.Idle? && NothingDue(s.st) && s.st.mem.root == Tagged(id)
             && id in s.st.mem.leaves && s.st.mem.leaves[id].key != key
    ensures var s, s' := Run(acts), Run(acts');
            s'.w.Idle? && s'.readers == s.readers && s'.st == s.st.(count := s.st.count + 1)
  {
    hide Ready;
    acts' := BeginsRemove(acts, key);
    Then(acts', Write(NoMem));
    acts' := acts' + [Write(NoMem)];
  }

  /** Nothing is due in the next n removes. */
  predicate NothingDueFor(st: Store, n: nat) {
    && |st.pendNodes| == 16 && |st.pendLeaves| == 16
    && forall c :: st.count <= c < st.count + n ==> st.pendNodes[c % LIFE] == Null && st.pendLeaves[c % LIFE] == Null
  }

  /** As many misses recycle nothing. */
  lemma {:induction false} ManyMisses(acts: seq<Action>, key: Nibbles, id: nat, n: nat) returns (acts': seq<Action>)
    requires var s := Run(acts);
             && s.w.Idle? && NothingDueFor(s.st, n) && s.st.mem.root == Tagged(id)
             && id in s.st.mem.leaves && s.st.mem.leaves[id].key != key
    ensures var s, s' := Run(acts), Run(acts');
            s'.w.Idle? && s'.readers == s.readers && s'.st == s.st.(count := s.st.count + n)
    decreases n
  {
    hide Run;
    acts' := acts;
    if n > 0 {
      assert NothingDue(Run(acts).st);
      acts' := MissesRemove(acts, key, id);
      acts' := ManyMisses(acts', key, id, n - 1);
    }
  }

  /** Leaf 0 waits in ring slot 0, nothing else waits, and leaf 1 is the tree. */
  predicate OneWaits(s: Sys, key: Nibbles) {
    && s.w.Idle? && s.st.mem.root == Tagged(1) && 1 in s.st.mem.leaves && s.st.mem.leaves[1].key != key
    && s.st.pendNodes == Empties(LIFE) && s.st.pendLeaves == Empties(LIFE)[0 := Tagged(0)]
  }

  /** A reader holds the leaf of its key and a remove has cut the leaf off, with the counter at the reader's snapshot.
      */
  lemma HoldsCutLeaf(key: Nibbles, value: Word) returns (acts: seq<Action>)
    ensures var s := Run(acts);
            && s.w.Idle? && s.hist != [] && key !in Current(s) && s.st.count == 1 && s.st.deletedLeaf == Nil
            && s.st.mem == Mem(Null, map[], map[0 := Leaf(key, value)])
            && s.st.pendNodes == Empties(LIFE) && s.st.pendLeaves == Empties(LIFE)[0 := Tagged(0)]
            && 0 in s.readers && s.readers[0].AtPtr? && s.readers[0].cur == Tagged(0) && s.readers[0].q.key == key
            && s.readers[0].q.w == 1
  {
    hide Ready;
    acts := PlantFirst([], key, value, 0);
    acts := BeginsRemove(acts, key);
    acts := LoadsRoot(acts, 0, key);
    acts := CutsRoot(acts, key, 0);
  }

  /** critnib.c:97-103: a get that overlaps a remove returns the value, although the key is absent when it returns. */
  lemma OverlappedGet(key: Nibbles, value: Word) returns (acts: seq<Action>)
    ensures var s := Run(acts); 0 in s.readers && s.readers[0].Done? && s.readers[0].res == value
    ensures var s := Run(acts); s.w.Idle? && s.hist != [] && key !in Current(s)
  {
    acts := HoldsCutLeaf(key, value);
    acts := ReadsLeaf(acts, 0);
  }

  /** The seventeenth remove begins and comes to its leaf. */
  lemma ComesDue(acts: seq<Action>, key: Nibbles) returns (acts': seq<Action>)
    requires OneWaits(Run(acts), key) && Run(acts).st.count == 16
    ensures var s, s' := Run(acts), Run(acts');
            s'.w == RemLeaf(key) && s'.readers == s.readers && s'.st == s.st.(count := 17)
  {
    hide Ready;
    Then(acts, StartRemove(key));
    acts' := acts + [StartRemove(key)];
    assert Run(acts').w == RemNode(key) && Run(acts').st.count == 17;
    Then(acts', Write(NoMem));
    acts' := acts' + [Write(NoMem)];
  }

  /** Recycling overwrites the value of the leaf with the link of the free list. */
  lemma RecyclesLeaf(s: Sys)
    requires Ready(s) && s.w.RemLeaf? && s.st.count > 0 && Due(s).Tagged? && Due(s).id in s.st.mem.leaves
    ensures var s' := Step(s, Write(NoMem));
            Due(s).id in s'.st.mem.leaves && s'.st.mem.leaves[Due(s).id].value == s.st.deletedLeaf
  {
  }

  /** critnib.c:448-452, 563: the grace period is no longer than needed. A reader with snapshot w can hold an object at
      the moment the object is recycled, with the counter at w + 16; one remove earlier it would have been timely. */
  lemma HeldWhenDue(key: Nibbles, other: Nibbles, value: Word) returns (acts: seq<Action>)
    requires other != key
    ensures var s := Run(acts);
            && s.w.RemLeaf? && s.st.count > 0 && |s.st.pendNodes| == 16 && |s.st.pendLeaves| == 16
            && 0 in s.readers && HeldPtr(s.readers[0]) == Due(s) != Null && s.readers[0].q.w + LIFE == s.st.count
            && Due(s).Tagged? && Due(s).id in s.st.mem.leaves && s.st.mem.leaves[Due(s).id] == Leaf(key, value)
    ensures var s := Run(acts);
            && Ready(s) && Due(s).id in Step(s, Write(NoMem)).st.mem.leaves
            && Step(s, Write(NoMem)).st.mem.leaves[Due(s).id].value == Nil
  {
    hide Ready, Step;
    acts := HoldsCutLeaf(key, value);
    acts := PlantFirst(acts, other, value, 1);
    acts := ManyMisses(acts, key, 1, 15);
    acts := ComesDue(acts, key);
    Then(acts, Write(NoMem));
    RecyclesLeaf(Run(acts));
  }
}
