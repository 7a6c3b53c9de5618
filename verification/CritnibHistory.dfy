/** History independence of critnib over runs. */
module CritnibHistory {
  import opened Digits
  import opened RadixTree
  import opened CritnibModel
  import opened CritnibInv
  import opened CritnibRuns
  import opened CritnibShape
  import opened CritnibClass

  /** The shape of the tree of a state. */
  ghost function ShapeNow(s: Sys): Shape
    requires Linked(SZ, s.st.mem, s.b.up)
  {
    ShapeOf(SZ, s.st.mem, s.b.up, s.st.mem.root)
  }

  lemma CoreSound(s: Sys)
    requires Core(s) && s.w.Idle?
    ensures s.hist != [] && Current(s).Keys == s.b.at.Keys
    ensures Sound(SZ, Grown(s.st.mem, s.b.up, s.b.at))
  {
  }

  lemma SameStates(s: Sys, s': Sys)
    requires Core(s) && Core(s') && s.w.Idle? && s'.w.Idle? && s.hist != [] && s'.hist != []
    requires Current(s).Keys == Current(s').Keys
    ensures Linked(SZ, s.st.mem, s.b.up) && Linked(SZ, s'.st.mem, s'.b.up) && ShapeNow(s) == ShapeNow(s')
  {
    hide Core, Sound, Linked;
    CoreSound(s);
    CoreSound(s');
    SameKeysSameShape(SZ, Grown(s.st.mem, s.b.up, s.b.at), Grown(s'.st.mem, s'.b.up, s'.b.at));
  }

  /** critnib.c:394-426, 498-522: the shape between operations depends on the keys alone: two runs that
      end with the same keys end with the same tree of shifts, paths and occupied slots. */
  lemma ShapeDependsOnKeys(acts: seq<Action>, acts': seq<Action>)
    requires Run(acts).w.Idle? && Run(acts').w.Idle?
    requires Run(acts).hist != [] && Run(acts').hist != [] && Current(Run(acts)).Keys == Current(Run(acts')).Keys
    ensures Linked(SZ, Run(acts).st.mem, Run(acts).b.up) && Linked(SZ, Run(acts').st.mem, Run(acts').b.up)
    ensures ShapeNow(Run(acts)) == ShapeNow(Run(acts'))
  {
    RunInv(acts);
    RunInv(acts');
    SameStates(Run(acts), Run(acts'));
  }

  /** Removing a key that was just inserted gives back its value, the map and the shape of the tree. */
  method UndoInsert(c: Critnib, key: Nibbles, value: Word, leafMal: Malloc, nodeMal: Malloc) returns (e: Errno, v: Word)
    requires c.Valid()
    modifies c
    ensures c.Valid()
    ensures c.Map() == old(c.Map()) && ShapeNow(c.sys) == old(ShapeNow(c.sys))
    ensures e == Ok ==> v == value
  {
    hide Core, Linked;
    v := Nil;
    e := c.Insert(key, value, leafMal, nodeMal);
    if e == Ok {
      v := c.Remove(key);
      assert old(c.Map())[key := value] - {key} == old(c.Map());
    }
    SameStates(old(c.sys), c.sys);
  }
}
