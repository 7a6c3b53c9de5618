/** When a get that is left alone returns: exactly while fewer than sixteen removes have begun since its snapshot.

For every larger distance there is a run in which the reader holds a node that was recycled: the link of the free list
in child[0] and a child pointer left over from the tree lead it round two nodes for good. */
module CritnibStale {
  import opened Digits
  import opened RadixTree
  import opened RadixUpdates
  import opened CritnibModel
  import opened CritnibInv
  import opened CritnibReaders
  import opened CritnibRuns
  import opened CritnibProgress
  import opened CritnibWitness
  import opened CritnibClass

  // ---------------------------------------------------------------------------------------
  // An insert that forks at the root

  /** The block that malloc gives: its fields are already those of the fork, its slots are empty. */
  function Block(key: Nibbles, sh: nat): Node {
    Node(Empties(LIFE), Masked(key, sh), sh)
  }

  /** The tree is rooted at p, whose label forks from the key at digit sh. */
  ghost predicate ForksAtRoot(mem: Mem, p: Ptr, key: Nibbles, sh: nat) {
    && mem.root == p != Null && Alloc(mem, p) && |Label(mem, p)| == 16 && Label(mem, p) != key
    && (p.Inner? ==> Masked(key, mem.nodes[p.id].sh) != mem.nodes[p.id].path)
    && TopDiff(Label(mem, p), key) == sh
  }

  /** The insert stops at the root and gets the block. */
  lemma GetsNode(acts: seq<Action>, m: nat, sh: nat) returns (acts': seq<Action>)
    requires var s := Run(acts);
             && s.w.InsDive? && s.w.parent == Top && ForksAtRoot(s.st.mem, s.st.mem.root, s.w.key, sh)
             && s.st.deletedNode == Null && m !in s.st.mem.nodes
    ensures var s, s' := Run(acts), Run(acts');
            && s'.w.InsBuild? && s'.w == InsBuild(s.w.key, s.w.value, s.w.k, Top, m, s'.w.raw, 0)
            && s'.readers == s.readers
            && s'.st == s.st.(mem := s.st.mem.(nodes := s.st.mem.nodes[m := Block(s.w.key, sh)]))
  {
    hide Run, Ready, Entries, Masked;
    var mal := NodeBlock(m, Block(Run(acts).w.key, sh));
    Then(acts, Write(mal));
    acts' := acts + [Write(mal)];
    AllocStep(Run(acts), mal);
  }

  /** The insert under way builds node m, whose block is b, below p at the root. */
  ghost predicate BuildsAtRoot(s: Sys, m: nat, p: Ptr, b: Node) {
    && s.w.InsBuild? && s.w.parent == Top && s.w.m == m && s.st.mem.root == p && p != Inner(m)
    && m in s.st.mem.nodes && s.st.mem.nodes[m] == b && |b.child| == 16
  }

  lemma ClearStep(s: Sys)
    requires Ready(s) && s.w.InsBuild? && s.w.stage < 16
    ensures var s' := WriterStep(s, NoMem); var nd := s.st.mem.nodes[s.w.m];
            && s.w.m in s.st.mem.nodes && |nd.child| == 16 && s'.w == s.w.(stage := s.w.stage + 1)
            && s'.st == s.st.(mem := SetNode(s.st.mem, s.w.m, nd.(child := nd.child[s.w.stage := Null])))
  {
    hide Entries;
  }

  /** Emptying empty slots changes nothing. */
  lemma {:induction false} ClearsSlots(acts: seq<Action>, m: nat, p: Ptr, b: Node) returns (acts': seq<Action>)
    requires BuildsAtRoot(Run(acts), m, p, b) && b.child == Empties(LIFE) && Run(acts).w.stage <= 16
    ensures var s, s' := Run(acts), Run(acts');
            s'.w == s.w.(stage := 16) && s'.readers == s.readers && s'.st == s.st
    decreases 16 - Run(acts).w.stage
  {
    hide Run, Ready;
    acts' := acts;
    var s := Run(acts);
    if s.w.stage < 16 {
      Then(acts, Write(NoMem));
      acts' := acts + [Write(NoMem)];
      ClearStep(s);
      assert b.child[s.w.stage := Null] == b.child;
      assert s.st.mem.nodes[m := b] == s.st.mem.nodes;
      acts' := ClearsSlots(acts', m, p, b);
    }
  }

  /** The block with the two children in their slots. */
  function Filled(key: Nibbles, k: nat, p: Ptr, path: Key, sh: nat): Node
    requires sh < 16 && |path| == 16 && 0 <= path[sh] < 16
  {
    Block(key, sh).(child := Empties(LIFE)[key[sh] := Tagged(k)][path[sh] := p])
  }

  /** critnib.c:422-425: what the store number `stage` makes of the node. */
  lemma StageStep(s: Sys, p: Ptr, path: Key, sh: nat)
    requires Ready(s) && s.w.InsBuild? && s.w.parent == Top && 16 <= s.w.stage < 20
    requires ForksAtRoot(s.st.mem, p, s.w.key, sh) && path == Label(s.st.mem, p)
    ensures Keyed(SZ, path) && sh < 16 && s.w.m in s.st.mem.nodes && |s.st.mem.nodes[s.w.m].child| == 16
    ensures var s' := WriterStep(s, NoMem); var nd := s.st.mem.nodes[s.w.m];
            var nd' := if s.w.stage == 16 then nd.(child := nd.child[s.w.key[sh] := Tagged(s.w.k)])
            else if s.w.stage == 17 then nd.(child := nd.child[path[sh] := p])
            else if s.w.stage == 18 then nd.(sh := sh)
            else nd.(path := Masked(s.w.key, sh));
            && s'.w == s.w.(stage := s.w.stage + 1) && s'.readers == s.readers
            && s'.st == s.st.(mem := SetNode(s.st.mem, s.w.m, nd'))
  {
    hide Entries, Masked;
  }

  /** Making node m something else does not move the fork. */
  lemma ForkStaysAtRoot(mem: Mem, p: Ptr, key: Nibbles, sh: nat, m: nat, nd: Node)
    requires ForksAtRoot(mem, p, key, sh) && p != Inner(m)
    ensures ForksAtRoot(SetNode(mem, m, nd), p, key, sh) && Label(SetNode(mem, m, nd), p) == Label(mem, p)
  {
  }

  lemma PutsChildren(acts: seq<Action>, m: nat, p: Ptr, path: Key, sh: nat) returns (acts': seq<Action>)
    requires var s := Run(acts);
             && s.w.InsBuild? && BuildsAtRoot(s, m, p, Block(s.w.key, sh)) && s.w.stage == 16
             && ForksAtRoot(s.st.mem, p, s.w.key, sh) && path == Label(s.st.mem, p)
    ensures Keyed(SZ, path) && sh < 16
    ensures var s, s' := Run(acts), Run(acts');
            && s'.w == s.w.(stage := 18) && s'.readers == s.readers
            && s'.st == s.st.(mem := SetNode(s.st.mem, m, Filled(s.w.key, s.w.k, p, path, sh)))
  {
    hide Run, Ready, ForksAtRoot, Masked, WriterStep;
    var s := Run(acts);
    Then(acts, Write(NoMem));
    acts' := acts + [Write(NoMem)];
    StageStep(s, p, path, sh);
    ForkStaysAtRoot(s.st.mem, p, s.w.key, sh, m, Run(acts').st.mem.nodes[m]);
    var s1 := Run(acts');
    Then(acts', Write(NoMem));
    acts' := acts' + [Write(NoMem)];
    StageStep(s1, p, path, sh);
  }

  /** Digit and path are there already. */
  lemma PutsLabels(acts: seq<Action>, m: nat, p: Ptr, path: Key, sh: nat) returns (acts': seq<Action>)
    requires sh < 16 && |path| == 16 && 0 <= path[sh] < 16
    requires var s := Run(acts);
             && s.w.InsBuild? && BuildsAtRoot(s, m, p, Filled(s.w.key, s.w.k, p, path, sh)) && s.w.stage == 18
             && ForksAtRoot(s.st.mem, p, s.w.key, sh) && path == Label(s.st.mem, p)
    ensures var s, s' := Run(acts), Run(acts');
            s'.w == s.w.(stage := 20) && s'.readers == s.readers && s'.st == s.st
  {
    hide Run, Ready, ForksAtRoot, Masked, WriterStep;
    var s := Run(acts);
    Then(acts, Write(NoMem));
    acts' := acts + [Write(NoMem)];
    StageStep(s, p, path, sh);
    assert s.st.mem.nodes[m := s.st.mem.nodes[m]] == s.st.mem.nodes;
    var s1 := Run(acts');
    Then(acts', Write(NoMem));
    acts' := acts' + [Write(NoMem)];
    StageStep(s1, p, path, sh);
  }

  lemma PublishesFork(acts: seq<Action>) returns (acts': seq<Action>)
    requires Run(acts).w.InsBuild? && Run(acts).w.stage == 20 && Run(acts).w.parent == Top
    ensures var s, s' := Run(acts), Run(acts');
            && s'.w == Idle(Code(Ok)) && s'.readers == s.readers
            && s'.st == s.st.(mem := s.st.mem.(root := Inner(s.w.m)))
  {
    hide Run, Ready, Entries;
    Then(acts, Write(NoMem));
    acts' := acts + [Write(NoMem)];
  }

  /** An insert comes to the root with its leaf filled in. */
  lemma ComesToRoot(acts: seq<Action>, key: Nibbles, value: Word, id: nat) returns (acts': seq<Action>)
    requires var s := Run(acts); s.w.Idle? && s.st.deletedLeaf == Nil && id !in s.st.mem.leaves
    ensures var s, s' := Run(acts), Run(acts');
            && s'.w == InsDive(key, value, id, Top) && s'.readers == s.readers
            && s'.st == s.st.(mem := s.st.mem.(leaves := s.st.mem.leaves[id := Leaf(key, value)]))
  {
    hide Run;
    acts' := GetsLeaf(acts, key, value, id);
    acts' := FillsLeaf(acts');
    var leaves := Run(acts).st.mem.leaves;
    var raw := leaves[id := Leaf(key, Nil)];
    assert raw[id := Leaf(key, value)] == leaves[id := Leaf(key, value)];
  }

  /** It builds the node and publishes it. */
  lemma BuildsFork(acts: seq<Action>, m: nat, path: Key, sh: nat) returns (acts': seq<Action>)
    requires var s := Run(acts);
             && s.w.InsDive? && s.w.parent == Top && ForksAtRoot(s.st.mem, s.st.mem.root, s.w.key, sh)
             && s.st.deletedNode == Null && m !in s.st.mem.nodes && path == Label(s.st.mem, s.st.mem.root)
    ensures Keyed(SZ, path) && sh < 16
    ensures var s, s' := Run(acts), Run(acts');
            && s'.w == Idle(Code(Ok)) && s'.readers == s.readers
            && s'.st == s.st.(mem := s.st.mem.(root := Inner(m),
                nodes := s.st.mem.nodes[m := Filled(s.w.key, s.w.k, s.st.mem.root, path, sh)]))
  {
    hide Run, Ready, Masked;
    var mem, key, k := Run(acts).st.mem, Run(acts).w.key, Run(acts).w.k;
    var p := mem.root;
    acts' := GetsNode(acts, m, sh);
    ForkStaysAtRoot(mem, p, key, sh, m, Block(key, sh));
    hide ForksAtRoot;
    acts' := ClearsSlots(acts', m, p, Block(key, sh));
    acts' := PutsChildren(acts', m, p, path, sh);
    var filled := Filled(key, k, p, path, sh);
    var raw := mem.nodes[m := Block(key, sh)];
    assert raw[m := filled] == mem.nodes[m := filled];
    ForkStaysAtRoot(mem, p, key, sh, m, filled);
    acts' := PutsLabels(acts', m, p, path, sh);
    acts' := PublishesFork(acts');
  }

  /** An insert of a new leaf id below a new node m at the root, with empty pools. */
  lemma GrowsFork(acts: seq<Action>, key: Nibbles, value: Word, id: nat, m: nat, path: Key, sh: nat)
    returns (acts': seq<Action>)
    requires var s := Run(acts);
             && s.w.Idle? && s.st.deletedLeaf == Nil && s.st.deletedNode == Null
             && id !in s.st.mem.leaves && m !in s.st.mem.nodes
             && ForksAtRoot(s.st.mem, s.st.mem.root, key, sh) && path == Label(s.st.mem, s.st.mem.root)
    ensures Keyed(SZ, path) && sh < 16
    ensures var s, s' := Run(acts), Run(acts');
            && s'.w == Idle(Code(Ok)) && s'.readers == s.readers
            && s'.st == s.st.(mem := Mem(Inner(m), s.st.mem.nodes[m := Filled(key, id, s.st.mem.root, path, sh)],
                                         s.st.mem.leaves[id := Leaf(key, value)]))
  {
    hide Run, Masked, ForksAtRoot, Filled;
    var mem := Run(acts).st.mem;
    acts' := ComesToRoot(acts, key, value, id);
    ForkStaysInLeaves(mem, mem.root, key, sh, mem.leaves[id := Leaf(key, value)]);
    acts' := BuildsFork(acts', m, path, sh);
  }

  /** Nor does adding a leaf. */
  lemma ForkStaysInLeaves(mem: Mem, p: Ptr, key: Nibbles, sh: nat, leaves: map<nat, Leaf>)
    requires ForksAtRoot(mem, p, key, sh) && (forall l :: l in mem.leaves ==> l in leaves && leaves[l] == mem.leaves[l])
    ensures Alloc(mem, p) && ForksAtRoot(mem.(leaves := leaves), p, key, sh)
    ensures Label(mem.(leaves := leaves), p) == Label(mem, p)
  {
  }

  // ---------------------------------------------------------------------------------------
  // A remove below a node of two leaves at the root

  /** The root is node n, whose slot i holds leaf k of the key and whose only other child is in slot j. */
  ghost predicate PairAtRoot(mem: Mem, key: Nibbles, n: nat, i: nat, j: nat, k: nat) {
    && mem.root == Inner(n) && n in mem.nodes && |mem.nodes[n].child| == 16
    && mem.nodes[n].sh < 16 && i == key[mem.nodes[n].sh] && mem.nodes[n].child[i] == Tagged(k)
    && k in mem.leaves && mem.leaves[k].key == key
    && OnlyChild(WithoutLeaf(mem.nodes[n], i), j)
  }

  function WithoutLeaf(nd: Node, i: nat): Node
    requires i < |nd.child|
  {
    nd.(child := nd.child[i := Null])
  }

  lemma DivesOnce(acts: seq<Action>, n: nat, i: nat, j: nat, k: nat) returns (acts': seq<Action>)
    requires var s := Run(acts); s.w.RemDive? && s.w.kParent == Top && PairAtRoot(s.st.mem, s.w.key, n, i, j, k)
    ensures var s, s' := Run(acts), Run(acts');
            s'.w == RemDive(s.w.key, Top, Slot(n, i)) && s'.readers == s.readers && s'.st == s.st
  {
    hide Run, Ready, Entries;
    Then(acts, Write(NoMem));
    acts' := acts + [Write(NoMem)];
  }

  lemma CutsLeaf(acts: seq<Action>, n: nat, i: nat, j: nat, k: nat) returns (acts': seq<Action>)
    requires var s := Run(acts);
             s.w.RemDive? && s.w == RemDive(s.w.key, Top, Slot(n, i)) && PairAtRoot(s.st.mem, s.w.key, n, i, j, k)
    ensures var s, s' := Run(acts), Run(acts');
            && s'.w == RemTidy(s.w.key, Top, n, k) && s'.readers == s.readers
            && s'.st == s.st.(mem := SetNode(s.st.mem, n, WithoutLeaf(s.st.mem.nodes[n], i)))
  {
    hide Run, Ready, Entries, OnlyChild;
    Then(acts, Write(NoMem));
    acts' := acts + [Write(NoMem)];
  }

  lemma Tidies(acts: seq<Action>, n: nat, j: nat) returns (acts': seq<Action>)
    requires var s := Run(acts);
             && s.w.RemTidy? && s.w.nParent == Top && s.w.n == n && n in s.st.mem.nodes
             && OnlyChild(s.st.mem.nodes[n], j)
    ensures var s, s' := Run(acts), Run(acts');
            && s.st.count > 0 && |s.st.pendLeaves| == 16 && |s.st.pendNodes| == 16
            && s'.w.Idle? && s'.readers == s.readers
            && s'.st == s.st.(mem := s.st.mem.(root := s.st.mem.nodes[n].child[j]),
                              pendLeaves := s.st.pendLeaves[Del(s.st) := Tagged(s.w.k)],
                              pendNodes := s.st.pendNodes[Del(s.st) := Inner(n)])
  {
    hide Run, Ready, OnlyChild, Entries;
    Then(acts, Write(NoMem));
    acts' := acts + [Write(NoMem)];
    TidyStep(Run(acts), j);
  }

  /** The remove under way cuts off the leaf and hands the node's place to the other child. */
  lemma CutsFork(acts: seq<Action>, key: Nibbles, n: nat, i: nat, j: nat, k: nat) returns (acts': seq<Action>)
    requires Run(acts).w == RemDive(key, Top, Top) && PairAtRoot(Run(acts).st.mem, key, n, i, j, k)
    ensures var s, s' := Run(acts), Run(acts');
            && s.st.count > 0 && |s.st.pendLeaves| == 16 && |s.st.pendNodes| == 16
            && s'.w.Idle? && s'.readers == s.readers
            && var nd := WithoutLeaf(s.st.mem.nodes[n], i);
            s'.st == s.st.(mem := s.st.mem.(root := nd.child[j], nodes := s.st.mem.nodes[n := nd]),
                           pendLeaves := s.st.pendLeaves[Del(s.st) := Tagged(k)],
                           pendNodes := s.st.pendNodes[Del(s.st) := Inner(n)])
  {
    hide Run, OnlyChild;
    acts' := DivesOnce(acts, n, i, j, k);
    acts' := CutsLeaf(acts', n, i, j, k);
    acts' := Tidies(acts', n, j);
  }

  // ---------------------------------------------------------------------------------------
  // A remove that misses and recycles

  /** The next remove recycles node n and leaf k. */
  predicate BothDue(st: Store, n: nat, k: nat) {
    && |st.pendNodes| == 16 && |st.pendLeaves| == 16
    && st.pendNodes[st.count % LIFE] == Inner(n) && st.pendLeaves[st.count % LIFE] == Tagged(k)
    && n in st.mem.nodes && |st.mem.nodes[n].child| == 16 && k in st.mem.leaves
  }

  /** Node and leaf head the free lists. */
  function Recycled(st: Store, n: nat, k: nat): Store
    requires BothDue(st, n, k)
  {
    var c := st.count % LIFE;
    Store(Put(SetLeaf(st.mem, k, st.mem.leaves[k].(value := st.deletedLeaf)), Slot(n, 0), st.deletedNode),
          Inner(n), Link(k), st.pendNodes[c := Null], st.pendLeaves[c := Null], st.count + 1)
  }

  lemma Recycles(acts: seq<Action>, key: Nibbles, n: nat, k: nat) returns (acts': seq<Action>)
    requires var s := Run(acts); s.w.Idle? && s.st.mem.root != Null && BothDue(s.st, n, k)
    ensures var s, s' := Run(acts), Run(acts');
            s'.w == RemDive(key, Top, Top) && s'.readers == s.readers && s'.st == Recycled(s.st, n, k)
  {
    hide Run, Ready, Entries;
    Then(acts, StartRemove(key));
    acts' := acts + [StartRemove(key)];
    assert Run(acts').w == RemNode(key);
    Then(acts', Write(NoMem));
    acts' := acts' + [Write(NoMem)];
    assert Run(acts').w == RemLeaf(key);
    Then(acts', Write(NoMem));
    acts' := acts' + [Write(NoMem)];
  }

  lemma MissesAtRoot(acts: seq<Action>, key: Nibbles, id: nat) returns (acts': seq<Action>)
    requires var s := Run(acts);
             && s.w == RemDive(key, Top, Top) && s.st.mem.root == Tagged(id) && id in s.st.mem.leaves
             && s.st.mem.leaves[id].key != key
    ensures var s, s' := Run(acts), Run(acts'); s'.w.Idle? && s'.readers == s.readers && s'.st == s.st
  {
    hide Run, Ready, Entries;
    Then(acts, Write(NoMem));
    acts' := acts + [Write(NoMem)];
  }

  lemma RecyclingMiss(acts: seq<Action>, key: Nibbles, id: nat, n: nat, k: nat) returns (acts': seq<Action>)
    requires var s := Run(acts);
             && s.w.Idle? && BothDue(s.st, n, k) && s.st.mem.root == Tagged(id) && id != k
             && id in s.st.mem.leaves && s.st.mem.leaves[id].key != key
    ensures var s, s' := Run(acts), Run(acts'); s'.w.Idle? && s'.readers == s.readers && s'.st == Recycled(s.st, n, k)
  {
    hide Run;
    acts' := Recycles(acts, key, n, k);
    acts' := MissesAtRoot(acts', key, id);
  }

  // ---------------------------------------------------------------------------------------
  // The run

  /** The key with the two lowest digits a and b. */
  function Low(a: nat, b: nat): Nibbles
    requires a < 16 && b < 16
  {
    seq(16, i => if i == 0 then b else if i == 1 then a else 0)
  }

  lemma LowKeys()
    ensures Low(1, 1) != Low(1, 2) && TopDiff(Low(1, 1), Low(1, 2)) == 0 && Masked(Low(1, 2), 0) == Low(1, 0)
    ensures Low(1, 0) != Low(2, 0) && TopDiff(Low(1, 0), Low(2, 0)) == 1 && Masked(Low(2, 0), 0) != Low(1, 0)
    ensures Low(1, 0) != Low(1, 1) && Low(1, 0)[0] == 0 && Low(1, 0)[1] == 1
  {
    var a, b, c, d := Low(1, 1), Low(1, 2), Low(2, 0), Low(1, 0);
    assert a[0] == 1 && b[0] == 2 && c[0] == 0 && d[0] == 0 && a[1] == 1 && b[1] == 1 && c[1] == 2 && d[1] == 1;
    LessAt(a, b, 0);
    LessAt(d, c, 1);
    assert Masked(c, 0)[1] == 2;
  }

  /** The lower node, above leaves 0 and 1. */
  function LowNode(): Node {
    Node(Empties(LIFE)[2 := Tagged(1)][1 := Tagged(0)], Low(1, 0), 0)
  }

  /** The upper node, above leaf 2 and the lower node. */
  function HighNode(): Node {
    Node(Empties(LIFE)[2 := Tagged(2)][1 := Inner(0)], Masked(Low(2, 0), 1), 1)
  }

  function ThreeLeaves(): map<nat, Leaf> {
    map[0 := Leaf(Low(1, 1), Nil), 1 := Leaf(Low(1, 2), Nil), 2 := Leaf(Low(2, 0), Nil)]
  }

  lemma OneKey() returns (acts: seq<Action>)
    ensures var s := Run(acts);
            && s.w.Idle? && s.readers == map[]
            && s.st == Store(Mem(Tagged(0), map[], map[0 := Leaf(Low(1, 1), Nil)]), Null, Nil, Empties(LIFE),
                             Empties(LIFE), 0)
  {
    acts := [];
    assert Run(acts) == Init();
    hide Run;
    acts := PlantFirst(acts, Low(1, 1), Nil, 0);
  }

  lemma TwoKeys() returns (acts: seq<Action>)
    ensures var s := Run(acts);
            && s.w.Idle? && s.readers == map[]
            && s.st == Store(Mem(Inner(0), map[0 := LowNode()],
                                 map[0 := Leaf(Low(1, 1), Nil), 1 := Leaf(Low(1, 2), Nil)]),
                             Null, Nil, Empties(LIFE), Empties(LIFE), 0)
  {
    hide Run, Masked;
    acts := OneKey();
    LowKeys();
    acts := GrowsFork(acts, Low(1, 2), Nil, 1, 0, Low(1, 1), 0);
  }

  lemma ThreeKeys() returns (acts: seq<Action>)
    ensures var s := Run(acts);
            && s.w.Idle? && s.readers == map[]
            && s.st == Store(Mem(Inner(1), map[0 := LowNode(), 1 := HighNode()], ThreeLeaves()),
                             Null, Nil, Empties(LIFE), Empties(LIFE), 0)
  {
    hide Run, Masked;
    acts := TwoKeys();
    LowKeys();
    acts := GrowsFork(acts, Low(2, 0), Nil, 2, 1, Low(1, 0), 1);
  }

  /** The upper node and leaf 2 have been unlinked by remove 0. */
  lemma HighCut() returns (acts: seq<Action>)
    ensures var s := Run(acts);
            && s.w.Idle? && s.readers == map[]
            && s.st == Store(Mem(Inner(0), map[0 := LowNode(), 1 := WithoutLeaf(HighNode(), 2)], ThreeLeaves()),
                             Null, Nil, Empties(LIFE)[0 := Inner(1)], Empties(LIFE)[0 := Tagged(2)], 1)
  {
    hide Run, Masked;
    acts := ThreeKeys();
    acts := BeginsRemove(acts, Low(2, 0));
    acts := CutsFork(acts, Low(2, 0), 1, 2, 1, 2);
  }

  /** Reader 0 took its snapshot and loaded the root while remove 1 was on its way to unlink the lower node. */
  predicate HoldsLow(s: Sys) {
    0 in s.readers && s.readers[0].AtPtr? && s.readers[0].cur == Inner(0) && s.readers[0].q.key == Low(1, 0)
    && s.readers[0].q.w == 2
  }

  lemma BothCut() returns (acts: seq<Action>)
    ensures var s := Run(acts);
            && s.w.Idle? && HoldsLow(s)
            && s.st == Store(Mem(Tagged(0), map[0 := WithoutLeaf(LowNode(), 2), 1 := WithoutLeaf(HighNode(), 2)],
                                 ThreeLeaves()),
                             Null, Nil, Empties(LIFE)[0 := Inner(1)][1 := Inner(0)],
                             Empties(LIFE)[0 := Tagged(2)][1 := Tagged(1)], 2)
  {
    hide Run, Masked;
    acts := HighCut();
    acts := BeginsRemove(acts, Low(1, 2));
    acts := LoadsRoot(acts, 0, Low(1, 0));
    acts := CutsFork(acts, Low(1, 2), 0, 2, 1, 1);
  }

  /** From node 0 the key leads to node 1 and from there back. */
  predicate Circle(mem: Mem, key: Nibbles) {
    && 0 in mem.nodes && |mem.nodes[0].child| == 16 && mem.nodes[0].sh == 0 && mem.nodes[0].child[key[0]] == Inner(1)
    && 1 in mem.nodes && |mem.nodes[1].child| == 16 && mem.nodes[1].sh == 1 && mem.nodes[1].child[key[1]] == Inner(0)
  }

  /** Remove 16 recycles the upper node and leaf 2. */
  lemma HighRecycled() returns (acts: seq<Action>)
    ensures var s := Run(acts);
            && s.w.Idle? && HoldsLow(s)
            && s.st == Store(Mem(Tagged(0), map[0 := WithoutLeaf(LowNode(), 2),
                                                1 := WithoutLeaf(WithoutLeaf(HighNode(), 2), 0)], ThreeLeaves()),
                             Inner(1), Link(2), Empties(LIFE)[1 := Inner(0)], Empties(LIFE)[1 := Tagged(1)], 17)
  {
    hide Run, Masked, Low;
    acts := BothCut();
    LowKeys();
    acts := ManyMisses(acts, Low(1, 0), 0, 14);
    acts := RecyclingMiss(acts, Low(1, 0), 0, 1, 2);
    assert Empties(LIFE)[0 := Inner(1)][1 := Inner(0)][0 := Null] == Empties(LIFE)[1 := Inner(0)];
    assert Empties(LIFE)[0 := Tagged(2)][1 := Tagged(1)][0 := Null] == Empties(LIFE)[1 := Tagged(1)];
  }

  /** Remove 17 recycles the lower node and leaf 1. */
  lemma BothRecycled() returns (acts: seq<Action>)
    ensures var s := Run(acts);
            && s.w.Idle? && HoldsLow(s) && Circle(s.st.mem, Low(1, 0)) && s.st.count == 18
            && s.st.pendNodes == Empties(LIFE) && s.st.pendLeaves == Empties(LIFE)
            && s.st.mem.root == Tagged(0) && 0 in s.st.mem.leaves && s.st.mem.leaves[0].key == Low(1, 1)
  {
    hide Run, Masked, Low;
    acts := HighRecycled();
    LowKeys();
    acts := RecyclingMiss(acts, Low(1, 0), 0, 0, 1);
    assert Empties(LIFE)[1 := Inner(0)][1 := Null] == Empties(LIFE);
    assert Empties(LIFE)[1 := Tagged(1)][1 := Null] == Empties(LIFE);
  }

  /** The reader is on the circle. */
  predicate Circling(s: Sys, r: nat) {
    && r in s.readers && (s.readers[r].AtPtr? || s.readers[r].AtSlot?) && Circle(s.st.mem, s.readers[r].q.key)
    && (s.readers[r].cur == Inner(0) || s.readers[r].cur == Inner(1))
    && (s.readers[r].AtSlot? ==> s.readers[r].sh == s.readers[r].cur.id)
  }

  lemma {:induction false} NeverEnds(acts: seq<Action>, r: nat, n: nat)
    requires Circling(Run(acts), r)
    ensures Circling(Run(acts + Reads(r, n)), r)
    decreases n
  {
    hide Run;
    ReadsOn(acts, r, 0);
    if n > 0 {
      Circles(acts, r);
      NeverEnds(acts + [Read(r)], r, n - 1);
      ReadsOn(acts, r, n - 1);
    }
  }

  lemma Circles(acts: seq<Action>, r: nat)
    requires Circling(Run(acts), r)
    ensures Circling(Run(acts + [Read(r)]), r)
  {
    hide Run, Ready;
    Then(acts, Read(r));
    HistoryOfRun(acts);
  }

  // ---------------------------------------------------------------------------------------
  // The condition

  /** The writer is at rest and d removes have begun since the snapshot of reader r. */
  ghost predicate Behind(acts: seq<Action>, r: nat, d: nat) {
    var s := Run(acts);
    s.w.Idle? && r in s.readers && !s.readers[r].Begin? && s.st.count == s.readers[r].q.w + d
  }

  /** A run in which the reader is that far behind and never returns by itself. */
  lemma StuckBehind(d: nat) returns (acts: seq<Action>)
    requires d >= LIFE
    ensures Behind(acts, 0, d) && !Finishes(acts, 0)
  {
    hide Run, Masked;
    acts := BothRecycled();
    LowKeys();
    acts := ManyMisses(acts, Low(1, 0), 0, d - LIFE);
    assert Circling(Run(acts), 0);
    forall n | Ends(acts, 0, n) ensures false {
      NeverEnds(acts, 0, n);
    }
  }

  /** critnib.c:545-565: with the writer at rest every get that is d removes behind its snapshot returns by itself, if
      and only if d is below sixteen. */
  lemma ReturnsIffTimely(d: nat)
    ensures (forall acts, r :: Behind(acts, r, d) ==> Finishes(acts, r)) <==> d < LIFE
  {
    hide Run;
    if d < LIFE {
      forall acts, r | Behind(acts, r, d) ensures Finishes(acts, r) {
        var n := TimelyGetFinishes(acts, r);
      }
    } else {
      var acts := StuckBehind(d);
      assert Behind(acts, 0, d) && !Finishes(acts, 0);
    }
  }
}
