/** When an early return of tcradix_get is right: exactly while write_status has not moved since the snapshot.

The early exits skip the second look at write_status. For every distance that write_status can have moved there is a run
in which a get of a key that is never stored returns the value of another key. */
module TcTorn {
  import opened Digits
  import opened TcTree
  import opened TcLook
  import opened TcSeqlock
  import opened TcCalls

  /** Reader r has returned early, with write_status d beyond its snapshot at its last load. */
  ghost predicate EarlyAt(acts: seq<Action>, r: nat, d: nat) {
    var s := Run(acts);
    r in s.readers && s.readers[r].Early? && s.readers[r].now == s.readers[r].w + d
  }

  /** Map j was the map while write_status was 2j, which it was during the call, and it gives the returned value. */
  predicate RightAt(s: Sys, rd: Reader, j: nat)
    requires rd.Early?
  {
    j < |s.maps| && rd.call <= 2 * j <= rd.now && rd.value == ValueOf(s.maps[j], rd.key)
  }

  ghost predicate EarlyRight(acts: seq<Action>, r: nat)
    requires r in Run(acts).readers && Run(acts).readers[r].Early?
  {
    exists j :: RightAt(Run(acts), Run(acts).readers[r], j)
  }

  // ---------------------------------------------------------------------------------------
  // A tree of one entry

  /** The all-ones key, which is only_key of a blank root. */
  function Ones(): Nibbles { seq(16, _ => 15) }

  function Other(): Nibbles { seq(16, _ => 1) }

  function BlankRoot(): TNode {
    TNode(seq(16, _ => Empty), seq(16, _ => 15), 0, 0)
  }

  /** The root after the first insert, of the other key. */
  function FirstRoot(v: int): TNode {
    TNode(seq(16, _ => Empty)[1 := Sub(1)], Other(), v, 1)
  }

  /** Its child. */
  function FirstChild(v: int): TNode {
    TNode(seq(16, _ => Empty), Other(), v, 0)
  }

  function FirstNodes(v: int): map<nat, TNode> {
    map[0 := FirstRoot(v), 1 := FirstChild(v)]
  }

  function FirstInfo(): map<nat, Pos> {
    map[0 := Root(), 1 := ChildPos(Root(), 1)]
  }

  lemma FirstNet(v: int)
    ensures Net(FirstNodes(v), FirstInfo(), {0})
  {
    var p := ChildPos(Root(), 1);
    assert Root().pre == seq(16, _ => 0);
    assert p.pre == Masked(p.pre, 14);
    assert Above(FirstInfo(), 0, 1);
    assert HasParent(FirstInfo(), 1);
  }

  lemma FirstWhole(v: int)
    requires v != 0
    ensures Whole(FirstNodes(v), FirstInfo(), map[Other() := v])
  {
    var nodes, info, m := FirstNodes(v), FirstInfo(), map[Other() := v];
    FirstNet(v);
    var none: seq<Cell> := seq(16, _ => Empty);
    CountZero(none);
    CountSet(none, 1, Sub(1));
    assert Other()[15] == 1 && Other()[0] == 1;
    var p := ChildPos(Root(), 1);
    assert forall k :: k in m ==> k == Other();
    assert In(Other(), Root()) && In(Other(), p);
    assert NodeOk(nodes, info, m, 0);
    assert NodeOk(nodes, info, m, 1);
    assert Occupied(m, p);
    assert PartOk(nodes, info, m, 1);
  }

  // ---------------------------------------------------------------------------------------
  // The runs

  /** Reader 0 has found the all-ones key in only_key of the root, at write_status 0, and is about to load only_val. The
      key was never stored. */
  ghost predicate Cached(s: Sys) {
    && s.readers == map[0 := AtVal(Ones(), 0, 0, 0)] && 0 in s.nodes
    && s.maps != [] && forall i :: 0 <= i < |s.maps| ==> Ones() !in s.maps[i]
  }

  lemma FirstLoads(s: Sys)
    requires s.nodes == map[0 := BlankRoot()] && s.status == 0
    ensures ReaderStep(s, Begin(Ones(), 0)) == AtOnly(Ones(), 0, 0, 0, 15)
    ensures ReaderStep(s, AtOnly(Ones(), 0, 0, 0, 15)) == AtVal(Ones(), 0, 0, 0)
  {
    assert BlankRoot().onlyKey == Ones();
    assert Ones()[0] == 15;
  }

  lemma ComesToCache() returns (acts: seq<Action>)
    ensures Cached(Run(acts)) && Run(acts).status == 0 && Run(acts).maps == [map[]]
    ensures Run(acts).nodes == map[0 := BlankRoot()]
  {
    acts := [];
    assert Run(acts) == Init();
    hide Run, Whole, ReaderStep, Ones, BlankRoot;
    assert Init().nodes == map[0 := BlankRoot()] by { StartsBlank(); }
    Then(acts, StartGet(0, Ones()));
    acts := acts + [StartGet(0, Ones())];
    FirstLoads(Run(acts));
    Then(acts, Read(0));
    acts := acts + [Read(0)];
    FirstLoads(Run(acts));
    Then(acts, Read(0));
    acts := acts + [Read(0)];
  }

  lemma StartsBlank()
    ensures Init().nodes == map[0 := BlankRoot()]
  {
  }

  /** tcradix.c:226-228: the first insert has stored only_val, and not yet only_key. */
  lemma FirstStore(v: int) returns (acts: seq<Action>)
    ensures Cached(Run(acts)) && Run(acts).status == 1 && Run(acts).nodes[0].onlyVal == v
  {
    hide Run;
    acts := ComesToCache();
    Then(acts, Enter);
    acts := acts + [Enter];
    Then(acts, StoreNode(0, BlankRoot().(onlyVal := v)));
    acts := acts + [StoreNode(0, BlankRoot().(onlyVal := v))];
  }

  lemma InsertEnds(acts: seq<Action>, v: int)
    requires var s := Run(acts); Cached(s) && s.status == 1 && s.maps == [map[]] && s.nodes == FirstNodes(v) && v != 0
    ensures var s := Run(acts + [Leave(Ins(Other(), v), FirstInfo())]);
            Cached(s) && s.status == 2 && s.nodes[0].onlyVal == v
  {
    hide Run, Whole;
    FirstWhole(v);
    Then(acts, Leave(Ins(Other(), v), FirstInfo()));
    assert Last(Run(acts)) == map[];
    assert Apply(map[], Ins(Other(), v)) == map[Other() := v];
    assert Ones()[0] != Other()[0];
  }

  /** The first insert is done. */
  lemma FirstInsert(v: int) returns (acts: seq<Action>)
    requires v != 0
    ensures Cached(Run(acts)) && Run(acts).status == 2 && Run(acts).nodes[0].onlyVal == v
  {
    hide Run;
    acts := ComesToCache();
    Then(acts, Enter);
    acts := acts + [Enter];
    Then(acts, StoreNode(0, FirstRoot(v)));
    acts := acts + [StoreNode(0, FirstRoot(v))];
    Then(acts, StoreNode(1, FirstChild(v)));
    acts := acts + [StoreNode(1, FirstChild(v))];
    assert Run(acts).nodes == FirstNodes(v);
    InsertEnds(acts, v);
    acts := acts + [Leave(Ins(Other(), v), FirstInfo())];
  }

  /** Removes of the absent key come and go. */
  lemma {:induction false} Idles(acts: seq<Action>, j: nat) returns (acts': seq<Action>)
    requires Cached(Run(acts)) && Run(acts).status % 2 == 0
    ensures Cached(Run(acts')) && Run(acts').status == Run(acts).status + 2 * j
    ensures Run(acts').nodes == Run(acts).nodes
    decreases j
  {
    hide Run, Whole, Cached;
    acts' := acts;
    if j > 0 {
      acts' := IdlesOnce(acts);
      acts' := Idles(acts', j - 1);
    }
  }

  lemma IdlesOnce(acts: seq<Action>) returns (acts': seq<Action>)
    requires Cached(Run(acts)) && Run(acts).status % 2 == 0
    ensures Cached(Run(acts')) && Run(acts').status == Run(acts).status + 2 && Run(acts').nodes == Run(acts).nodes
  {
    hide Run, Whole;
    RunInv(acts);
    var s := Run(acts);
    Then(acts, Enter);
    acts' := acts + [Enter];
    assert Apply(Last(s), Rem(Ones())) == Last(s);
    Then(acts', Leave(Rem(Ones()), s.info));
    acts' := acts' + [Leave(Rem(Ones()), s.info)];
  }

  /** Reader 0 is about to load v from only_val, at write_status d. */
  lemma Arrives(d: nat, v: int) returns (acts: seq<Action>)
    requires d > 0 && v != 0
    ensures Cached(Run(acts)) && Run(acts).status == d && Run(acts).nodes[0].onlyVal == v
  {
    hide Run;
    if d == 1 {
      acts := FirstStore(v);
    } else {
      acts := FirstInsert(v);
      acts := Idles(acts, (d - 2) / 2);
      if d % 2 == 1 {
        Then(acts, Enter);
        acts := acts + [Enter];
      }
    }
  }

  /** tcradix.c:308-317: a get of a key that is never stored returns v, the value of another key, with write_status d
      beyond its snapshot. */
  lemma TornRead(d: nat, v: int) returns (acts: seq<Action>)
    requires d > 0 && v != 0
    ensures EarlyAt(acts, 0, d) && Run(acts).readers[0].value == v
    ensures var s := Run(acts); forall i :: 0 <= i < |s.maps| ==> s.readers[0].key !in s.maps[i]
    ensures !EarlyRight(acts, 0)
  {
    hide Run;
    acts := Arrives(d, v);
    Then(acts, Read(0));
    acts := acts + [Read(0)];
    assert forall j :: RightAt(Run(acts), Run(acts).readers[0], j) ==> false;
  }

  /** The early exits are right for every reader that is d writer steps behind its snapshot, if and only if d is 0. */
  lemma EarlyRightIffCalm(d: nat)
    ensures (forall acts, r :: EarlyAt(acts, r, d) ==> EarlyRight(acts, r)) <==> d == 0
  {
    hide Run;
    if d == 0 {
      forall acts, r | EarlyAt(acts, r, d) ensures EarlyRight(acts, r) {
        EarlyWhileCalm(acts, r);
        assert RightAt(Run(acts), Run(acts).readers[r], Run(acts).readers[r].w / 2);
      }
    } else {
      var acts := TornRead(d, 1);
      assert EarlyAt(acts, 0, d) && !EarlyRight(acts, 0);
    }
  }
}
