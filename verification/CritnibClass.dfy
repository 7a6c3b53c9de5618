/** critnib.c as it runs in one thread: the methods below do what the C functions do to the fields of
    `struct critnib` and to the nodes and leaves. The ghost field `sys` follows the transition system:
    every store of a method is a step of the protocol, so the protocol's invariant and its map
    hold of the fields. */
module CritnibClass {
  import opened Digits
  import opened RadixTree
  import opened RadixParts
  import opened RadixUpdates
  import opened CritnibModel
  import opened CritnibInv
  import opened CritnibReaders
  import opened CritnibQuiet
  import opened CritnibStores
  import opened CritnibRuns
  import opened CritnibProgress
  import CritnibShape
  import CritnibFindLe

  class Critnib {
    var root: Ptr
    var nodes: map<nat, Node>
    var leaves: map<nat, Leaf>
    var deletedNode: Ptr
    var deletedLeaf: Word
    var pendNodes: seq<Ptr>
    var pendLeaves: seq<Ptr>
    var removeCount: nat
    ghost var sys: Sys
    /** The actions that led to sys. */
    ghost var acts: seq<Action>

    function Fields(): Store
      reads this
    {
      Store(Mem(root, nodes, leaves), deletedNode, deletedLeaf, pendNodes, pendLeaves, removeCount)
    }

    /** sys is a state of a run. */
    ghost predicate Recorded()
      reads this
    {
      sys == Run(acts)
    }

    /** The fields are in a state of the protocol. */
    ghost predicate Follows()
      reads this
    {
      Core(sys) && Recorded() && sys.st == Fields() && sys.hist != []
    }

    ghost predicate Valid()
      reads this
    {
      Follows() && sys.w.Idle?
    }

    ghost function Map(): map<Key, Word>
      requires sys.hist != []
      reads this
    {
      Current(sys)
    }

    /** critnib_new */
    constructor ()
      ensures Valid() && Map() == map[]
    {
      root, deletedNode, deletedLeaf, removeCount := Null, Null, Nil, 0;
      nodes, leaves := map[], map[];
      pendNodes, pendLeaves := seq(16, _ => Null), seq(16, _ => Null);
      sys := Init();
      acts := [];
      InitInv();
    }

    /** One writer step of the protocol. */
    ghost method Advance(mal: Malloc)
      requires Core(sys) && Recorded() && !sys.w.Idle?
      modifies this`sys, this`acts
      ensures Recorded() && Ready(old(sys)) && sys == WriterStep(old(sys), mal)
      ensures Core(sys) && sys.hist != [] && MapStep(old(sys), sys)
    {
      hide Run, Stock, Tree, Limbo;
      CoreReady(sys);
      WriterStepOk(sys, mal);
      MapSteps(sys, mal);
      Then(acts, Write(mal));
      acts := acts + [Write(mal)];
      sys := Step(sys, Write(mal));
    }

    // -------------------------------------------------------------------------------------
    // Pools

    /** alloc_leaf */
    method TakeLeaf(mal: Malloc) returns (p: Ptr)
      requires Chains(Fields(), sys.b)
      modifies this`deletedLeaf, this`leaves
      ensures (Fields(), p) == (AllocLeaf(old(Fields()), sys.b, mal).0, AllocLeaf(old(Fields()), sys.b, mal).2)
      ensures p == Null <==> !HasLeaf(old(Fields()), mal)
      ensures old(deletedLeaf) != Nil ==>
                && old(deletedLeaf).Link? && old(deletedLeaf).id in old(leaves) && p == Tagged(old(deletedLeaf).id)
                && leaves == old(leaves) && deletedLeaf == old(leaves)[old(deletedLeaf).id].value
      ensures old(deletedLeaf) == Nil && p != Null ==>
                deletedLeaf == Nil && p == Tagged(mal.id) && leaves == old(leaves)[mal.id := mal.leaf]
    {
      if deletedLeaf.Link? {
        var k := deletedLeaf.id;
        assert LinkL(Fields().mem, sys.b.leafPool, 0);
        deletedLeaf := leaves[k].value;
        p := Tagged(k);
      } else if mal.LeafBlock? && mal.id !in leaves {
        leaves := leaves[mal.id := mal.leaf];
        p := Tagged(mal.id);
      } else {
        p := Null;
      }
    }

    /** alloc_node */
    method TakeNode(mal: Malloc) returns (p: Ptr)
      requires Chains(Fields(), sys.b)
      modifies this`deletedNode, this`nodes
      ensures (Fields(), p) == (AllocNode(old(Fields()), sys.b, mal).0, AllocNode(old(Fields()), sys.b, mal).2)
      ensures p == Null <==> !HasNode(old(Fields()), mal)
      ensures old(deletedNode) != Null ==>
                && old(deletedNode).Inner? && old(deletedNode).id in old(nodes) && p == old(deletedNode)
                && nodes == old(nodes) && |nodes[p.id].child| == 16 && deletedNode == nodes[p.id].child[0]
      ensures old(deletedNode) == Null && p != Null ==>
                deletedNode == Null && p == Inner(mal.id) && nodes == old(nodes)[mal.id := mal.node]
    {
      if deletedNode.Inner? {
        var n := deletedNode.id;
        assert LinkN(Fields().mem, sys.b.nodePool, 0);
        deletedNode := nodes[n].child[0];
        p := Inner(n);
      } else if mal.NodeBlock? && mal.id !in nodes && |mal.node.child| == 16 {
        nodes := nodes[mal.id := mal.node];
        p := Inner(mal.id);
      } else {
        p := Null;
      }
    }

    /** free_leaf */
    method GiveLeaf(p: Ptr)
      requires p == Null || (p.Tagged? && p.id in leaves)
      modifies this`deletedLeaf, this`leaves
      ensures p == Null ==> Fields() == old(Fields())
      ensures p != Null ==> Fields() == FreeLeaf(old(Fields()), sys.b, p.id).0
      ensures p != Null ==> deletedLeaf == Link(p.id)
      ensures p != Null ==> leaves == old(leaves)[p.id := old(leaves)[p.id].(value := old(deletedLeaf))]
    {
      if p == Null { return; }
      leaves := leaves[p.id := leaves[p.id].(value := deletedLeaf)];
      deletedLeaf := Link(p.id);
    }

    /** free_node */
    method GiveNode(p: Ptr)
      requires p == Null || (p.Inner? && p.id in nodes && |nodes[p.id].child| == 16)
      modifies this`deletedNode, this`nodes
      ensures p == Null ==> Fields() == old(Fields())
      ensures p != Null ==> Fields() == FreeNode(old(Fields()), sys.b, p.id).0
      ensures p != Null ==> deletedNode == p
      ensures p != Null ==>
                nodes == old(nodes)[p.id := old(nodes)[p.id].(child := old(nodes)[p.id].child[0 := old(deletedNode)])]
    {
      if p == Null { return; }
      nodes := nodes[p.id := nodes[p.id].(child := nodes[p.id].child[0 := deletedNode])];
      deletedNode := Inner(p.id);
    }

    // -------------------------------------------------------------------------------------
    // critnib_insert

    /** The step that takes the mutex for an insert. */
    ghost method BeginIns(key: Nibbles, value: Word, mal: Malloc)
      requires Core(sys) && Recorded() && sys.w.Idle?
      modifies this`sys, this`acts
      ensures Recorded() && Ready(old(sys)) && sys == BeginInsert(old(sys), key, value, mal)
      ensures Core(sys) && sys.hist != [] && old(sys).hist != [] && Current(sys) == Current(old(sys))
    {
      hide Stock, Tree, Limbo;
      CoreReady(sys);
      BeginInsertOk(sys, key, value, mal);
      SameMap(sys, BeginInsert(sys, key, value, mal));
      Then(acts, StartInsert(key, value, mal));
      acts := acts + [StartInsert(key, value, mal)];
      sys := Step(sys, StartInsert(key, value, mal));
    }

    /** critnib.c:355-360 */
    method NewLeaf(key: Nibbles, value: Word, mal: Malloc) returns (p: Ptr)
      requires Valid()
      modifies this
      ensures Follows() && Map() == old(Map())
      ensures p == Null <==> !HasLeaf(old(Fields()), mal)
      ensures p == Null ==> sys.w.Idle?
      ensures p != Null ==> p.Tagged? && sys.w == InsKey(key, value, p.id)
      ensures nodes == old(nodes) && deletedNode == old(deletedNode)
    {
      hide Run, Core;
      CoreReady(sys);
      p := TakeLeaf(mal);
      BeginIns(key, value, mal);
    }

    /** critnib.c:362-363 */
    method FillLeaf(key: Nibbles, value: Word, k: nat)
      requires Follows() && sys.w == InsKey(key, value, k)
      modifies this
      ensures Follows() && Map() == old(Map()) && sys.w == InsDive(key, value, k, Top)
      ensures nodes == old(nodes) && deletedNode == old(deletedNode)
    {
      hide Run, Core;
      CoreReady(sys);
      leaves := leaves[k := leaves[k].(key := key)];
      Advance(NoMem);
      CoreReady(sys);
      leaves := leaves[k := leaves[k].(value := value)];
      Advance(NoMem);
    }

    /** critnib.c:376-383: follow the key while its path agrees. */
    method DiveToInsert(key: Nibbles, value: Word, k: nat) returns (parent: Place, n: Ptr)
      requires Follows() && sys.w == InsDive(key, value, k, Top)
      modifies this
      ensures Follows() && Map() == old(Map()) && sys.w == InsDive(key, value, k, parent)
      ensures PlaceOk(Fields().mem, parent) && n == Load(Fields().mem, parent) && Alloc(Fields().mem, n)
      ensures n.Inner? ==> Masked(key, nodes[n.id].sh) != nodes[n.id].path
      ensures nodes == old(nodes) && deletedNode == old(deletedNode)
    {
      hide Run, Core;
      parent, n := Top, root;
      CoreReady(sys);
      while n.Inner? && Masked(key, nodes[n.id].sh) == nodes[n.id].path
        invariant Follows() && Map() == old(Map()) && sys.w == InsDive(key, value, k, parent)
        invariant Ready(sys) && n == Load(Fields().mem, parent)
        invariant nodes == old(nodes) && deletedNode == old(deletedNode)
        decreases Rank(Fields().mem, n)
      {
        NextFits(sys);
        Advance(NoMem);
        CoreReady(sys);
        parent := Slot(n.id, key[nodes[n.id].sh]);
        n := nodes[n.id].child[key[nodes[n.id].sh]];
      }
    }

    /** critnib.c:419-420 */
    method ClearSlots(m: nat, ghost key: Nibbles, ghost n: Ptr, ghost path: Key, ghost sh: nat)
      requires Follows() && ForkAt(sys, key, n, path, sh) && sys.w.m == m && sys.w.stage == 0
      modifies this
      ensures Follows() && ForkAt(sys, key, n, path, sh) && Map() == old(Map()) && sys.w == old(sys.w).(stage := 16)
    {
      hide Run, Core, Ready;
      var i := 0;
      while i < 16
        invariant 0 <= i <= 16 && Follows() && Map() == old(Map()) && sys.w == old(sys.w).(stage := i)
        invariant ForkAt(sys, key, n, path, sh)
      {
        ClearSlot(m, i, key, n, path, sh);
        i := i + 1;
      }
    }

    /** One turn of the loop that empties the slots. */
    method ClearSlot(m: nat, i: nat, ghost key: Nibbles, ghost n: Ptr, ghost path: Key, ghost sh: nat)
      requires Follows() && ForkAt(sys, key, n, path, sh) && sys.w.m == m && sys.w.stage == i < 16
      modifies this
      ensures Follows() && ForkAt(sys, key, n, path, sh) && Map() == old(Map()) && sys.w == old(sys.w).(stage := i + 1)
    {
      hide Run, Core;
      nodes := nodes[m := nodes[m].(child := nodes[m].child[i := Null])];
      StageAdvance(key, n, path, sh);
    }

    /** critnib.c:408, 419-425: fork at the highest digit where key and label differ. */
    method FillNode(key: Nibbles, k: nat, parent: Place, n: Ptr, m: nat)
      requires Follows() && sys.w.InsBuild? && sys.w.stage == 0
      requires sys.w.key == key && sys.w.k == k && sys.w.parent == parent && sys.w.m == m
      requires PlaceOk(Fields().mem, parent) && n == Load(Fields().mem, parent)
      modifies this
      ensures Follows() && Map() == old(Map()) && sys.w == old(sys.w).(stage := 20)
    {
      hide Run, Core;
      CoreReady(sys);
      var path := if n.Tagged? then leaves[n.id].key else nodes[n.id].path;
      var sh := TopDiff(path, key);
      hide Ready;
      ClearSlots(m, key, n, path, sh);
      SetKids(key, k, n, path, sh, m);
      SetDigit(key, n, path, sh, m);
    }

    method SetKids(key: Nibbles, k: nat, n: Ptr, path: Key, sh: nat, m: nat)
      requires Follows() && ForkAt(sys, key, n, path, sh) && sys.w.stage == 16 && sys.w.k == k && sys.w.m == m
      modifies this
      ensures Follows() && ForkAt(sys, key, n, path, sh) && Map() == old(Map()) && sys.w == old(sys.w).(stage := 18)
    {
      hide Run, Core;
      nodes := nodes[m := nodes[m].(child := nodes[m].child[key[sh] := Tagged(k)])];
      StageAdvance(key, n, path, sh);
      nodes := nodes[m := nodes[m].(child := nodes[m].child[path[sh] := n])];
      StageAdvance(key, n, path, sh);
    }

    method SetDigit(key: Nibbles, n: Ptr, path: Key, sh: nat, m: nat)
      requires Follows() && ForkAt(sys, key, n, path, sh) && sys.w.stage == 18 && sys.w.m == m
      modifies this
      ensures Follows() && Map() == old(Map()) && sys.w == old(sys.w).(stage := 20)
    {
      hide Run, Core;
      nodes := nodes[m := nodes[m].(sh := sh)];
      StageAdvance(key, n, path, sh);
      nodes := nodes[m := nodes[m].(path := Masked(key, sh))];
      StageAdvance(key, n, path, sh);
    }

    /** A step of filling in the node under construction. */
    ghost method StageAdvance(key: Nibbles, n: Ptr, path: Key, sh: nat)
      requires Core(sys) && Recorded() && ForkAt(sys, key, n, path, sh) && sys.w.stage < 20
      modifies this`sys, this`acts
      ensures Core(sys) && Recorded() && ForkAt(sys, key, n, path, sh) && sys.hist != [] && old(sys).hist != []
      ensures Current(sys) == Current(old(sys))
      ensures sys.w == old(sys.w).(stage := old(sys.w.stage) + 1)
      ensures sys.st == old(sys.st).(mem := SetNode(old(sys).st.mem, sys.w.m, Built(old(sys))))
    {
      hide Run, Core;
      ghost var s := sys;
      Advance(NoMem);
      CoreReady(sys);
      ForkStays(s);
    }

    /** critnib.c:398-404, 412: put the new leaf back. */
    method PutBack(k: nat, ghost mal: Malloc)
      requires Follows() && sys.w.InsDive? && sys.w.k == k && Ready(sys)
      requires WriterStep(sys, mal).w.Idle? && WriterStep(sys, mal).w != Idle(Code(Ok))
      requires WriterStep(sys, mal).st == FreeLeaf(sys.st, sys.b, k).0
      modifies this
      ensures Follows() && sys == WriterStep(old(sys), mal) && MapStep(old(sys), sys)
    {
      hide Run, Core;
      GiveLeaf(Tagged(k));
      Advance(mal);
    }

    /** critnib.c:410-425: allocate the fork and fill it in. */
    method NewFork(key: Nibbles, value: Word, k: nat, parent: Place, n: Ptr, mal: Malloc) returns (p: Ptr)
      requires Follows() && sys.w == InsDive(key, value, k, parent) && PlaceOk(Fields().mem, parent)
      requires n == Load(Fields().mem, parent) && n != Null && Alloc(Fields().mem, n)
      requires (n.Inner? ==> Masked(key, nodes[n.id].sh) != nodes[n.id].path) && Label(Fields().mem, n) != key
      modifies this
      ensures Follows() && Map() == old(Map())
      ensures p == Null <==> !HasNode(old(Fields()), mal)
      ensures p == Null ==> sys.w.Idle?
      ensures p != Null ==> p.Inner? && sys.w.InsBuild? && sys.w == InsBuild(key, value, k, parent, p.id, sys.w.raw, 20)
    {
      hide Run, Core, WriterStep, AllocNode, FreeLeaf;
      CoreReady(sys);
      AllocStep(sys, mal);
      p := TakeNode(mal);
      if p == Null {
        PutBack(k, mal);
        return;
      }
      ghost var s := sys;
      Advance(mal);
      CoreReady(sys);
      PlaceStays(s, sys, mal, n);
      FillNode(key, k, parent, n, p.id);
    }

    /** Store a pointer through a parent pointer. */
    method StoreAt(place: Place, p: Ptr)
      requires PlaceOk(Fields().mem, place)
      modifies this`root, this`nodes
      ensures Fields() == old(Fields()).(mem := Put(old(Fields()).mem, place, p))
    {
      match place {
        case Top => root := p;
        case Slot(x, i) => nodes := nodes[x := nodes[x].(child := nodes[x].child[i := p])];
      }
    }

    /** critnib.c:426 */
    method PublishFork(key: Nibbles, value: Word, parent: Place, p: Ptr)
      requires Follows() && p.Inner? && sys.w.InsBuild?
      requires sys.w == InsBuild(key, value, sys.w.k, parent, p.id, sys.w.raw, 20)
      modifies this
      ensures Valid() && key !in old(Map()) && Map() == old(Map())[key := value]
    {
      hide Run, Core, WriterStep;
      CoreReady(sys);
      ForkStep(sys);
      StoreAt(parent, p);
      Advance(NoMem);
    }

    /** critnib_insert. The answers of malloc for a leaf and for a node are parameters. */
    method Insert(key: Nibbles, value: Word, leafMal: Malloc, nodeMal: Malloc) returns (e: Errno)
      requires Valid()
      modifies this
      ensures Valid()
      ensures e == Ok ==> key !in old(Map()) && Map() == old(Map())[key := value]
      ensures e == EEXIST ==> key in old(Map())
      ensures e != Ok ==> Map() == old(Map())
      ensures !HasLeaf(old(Fields()), leafMal) ==> e == ENOMEM
      ensures e == ENOMEM ==>
                !HasLeaf(old(Fields()), leafMal) || (key !in old(Map()) && !HasNode(old(Fields()), nodeMal))
    {
      hide Run, Core;
      var l := NewLeaf(key, value, leafMal);
      if l == Null { return ENOMEM; }
      FillLeaf(key, value, l.id);
      var parent, n := DiveToInsert(key, value, l.id);
      if n == Null {
        PublishLeaf(key, value, l.id, parent);
        return Ok;
      }
      var path := if n.Tagged? then leaves[n.id].key else nodes[n.id].path;
      if path == key {
        CoreReady(sys);
        PutBack(l.id, NoMem);
        return EEXIST;
      }
      CoreReady(sys);
      StopsAbsent(sys);
      var p := NewFork(key, value, l.id, parent, n, nodeMal);
      if p == Null { return ENOMEM; }
      PublishFork(key, value, parent, p);
      e := Ok;
    }

    /** critnib.c:369, 387 */
    method PublishLeaf(key: Nibbles, value: Word, k: nat, parent: Place)
      requires Follows() && sys.w == InsDive(key, value, k, parent) && PlaceOk(Fields().mem, parent)
      requires Load(Fields().mem, parent) == Null
      modifies this
      ensures Valid() && key !in old(Map()) && Map() == old(Map())[key := value]
    {
      hide Run, Core, WriterStep;
      CoreReady(sys);
      PlantStep(sys);
      StoreAt(parent, Tagged(k));
      Advance(NoMem);
    }

    // -------------------------------------------------------------------------------------
    // critnib_remove

    /** The step that takes the mutex for a remove. */
    ghost method BeginRem(key: Nibbles)
      requires Core(sys) && Recorded() && sys.w.Idle?
      modifies this`sys, this`acts
      ensures Recorded() && Ready(old(sys)) && sys == BeginRemove(old(sys), key)
      ensures Core(sys) && sys.hist != [] && old(sys).hist != [] && Current(sys) == Current(old(sys))
    {
      hide Run, Stock, Tree, Limbo;
      CoreReady(sys);
      BeginRemoveOk(sys, key);
      SameMap(sys, BeginRemove(sys, key));
      Then(acts, StartRemove(key));
      acts := acts + [StartRemove(key)];
      sys := Step(sys, StartRemove(key));
    }

    /** critnib.c:448-452: bump the counter and recycle what waited in the ring slot. */
    method Recycle(key: Nibbles) returns (del: nat)
      requires Valid() && root != Null
      modifies this
      ensures Follows() && Map() == old(Map()) && sys.w == RemDive(key, Top, Top)
      ensures removeCount == old(removeCount) + 1 && del == old(removeCount) % 16
    {
      hide Run, Core;
      del := removeCount % 16;
      removeCount := removeCount + 1;
      BeginRem(key);
      RecycleTheNode(key, del);
      RecycleTheLeaf(key, del);
    }

    method RecycleTheNode(key: Nibbles, del: nat)
      requires Follows() && sys.w == RemNode(key) && removeCount > 0 && del == (removeCount - 1) % 16
      modifies this
      ensures Follows() && Map() == old(Map()) && sys.w == RemLeaf(key) && removeCount == old(removeCount)
    {
      hide Run, Core;
      CoreReady(sys);
      PendingKinds(sys);
      GiveNode(pendNodes[del]);
      pendNodes := pendNodes[del := Null];
      Advance(NoMem);
    }

    method RecycleTheLeaf(key: Nibbles, del: nat)
      requires Follows() && sys.w == RemLeaf(key) && removeCount > 0 && del == (removeCount - 1) % 16
      modifies this
      ensures Follows() && Map() == old(Map()) && sys.w == RemDive(key, Top, Top) && removeCount == old(removeCount)
    {
      hide Run, Core;
      CoreReady(sys);
      PendingKinds(sys);
      GiveLeaf(pendLeaves[del]);
      pendLeaves := pendLeaves[del := Null];
      Advance(NoMem);
    }

    /** critnib.c:474-496: dive to the leaf; kn is NULL if the key is absent. */
    method DiveToRemove(key: Nibbles) returns (nParent: Place, kParent: Place, k: nat, found: bool)
      requires Follows() && sys.w == RemDive(key, Top, Top)
      modifies this
      ensures Follows() && removeCount == old(removeCount)
      ensures !found ==> sys.w.Idle? && Lookup(old(Map()), key) == Nil && Map() == old(Map()) - {key}
      ensures found ==>
        && Map() == old(Map()) && sys.w == RemDive(key, nParent, kParent) && PlaceOk(Fields().mem, kParent)
        && Load(Fields().mem, kParent) == Tagged(k) && k in leaves && leaves[k].key == key
    {
      hide Run, Core;
      nParent, kParent, k := Top, Top, 0;
      var kn := root;
      CoreReady(sys);
      while kn.Inner?
        invariant Follows() && Ready(sys) && Map() == old(Map()) && removeCount == old(removeCount)
        invariant sys.w == RemDive(key, nParent, kParent) && kn == Load(Fields().mem, kParent)
        decreases Rank(Fields().mem, kn)
      {
        NextFitsRemove(sys);
        Advance(NoMem);
        CoreReady(sys);
        nParent := kParent;
        kParent := Slot(kn.id, key[nodes[kn.id].sh]);
        kn := nodes[kn.id].child[key[nodes[kn.id].sh]];
      }
      found := kn != Null && leaves[kn.id].key == key;
      if found {
        k := kn.id;
      } else {
        Advance(NoMem);
      }
    }

    /** critnib.c:457, 498: store NULL where the leaf was. */
    method CutLeaf(key: Nibbles, kParent: Place, k: nat, del: nat)
      requires Follows() && sys.w.RemDive? && sys.w.key == key && sys.w.kParent == kParent
      requires PlaceOk(Fields().mem, kParent)
      requires Load(Fields().mem, kParent) == Tagged(k) && k in leaves && leaves[k].key == key
      requires removeCount > 0 && del == (removeCount - 1) % 16
      modifies this
      ensures Follows() && Map() == old(Map()) - {key} && removeCount == old(removeCount)
      ensures key in old(Map()) && k in leaves && leaves[k].value == old(Map())[key]
      ensures if kParent == Top then sys.w.Idle? else sys.w == RemTidy(key, old(sys.w.nParent), kParent.n, k)
    {
      hide Run, Core, WriterStep;
      CoreReady(sys);
      EntryOfLeaf(sys);
      CutStep(sys);
      StoreAt(kParent, Null);
      if kParent == Top {
        pendLeaves := pendLeaves[del := Tagged(k)];
      }
      Advance(NoMem);
    }

    /** critnib.c:500-515: the slot of the only child, or -1 if there are two. */
    method Scan(nd: Node) returns (ochild: int)
      requires |nd.child| == 16 && exists i :: 0 <= i < 16 && nd.child[i] != Null
      ensures ochild == -1 ==> TwoChildren(nd)
      ensures ochild != -1 ==> 0 <= ochild && OnlyChild(nd, ochild)
    {
      ochild := -1;
      var i := 0;
      while i < 16
        invariant 0 <= i <= 16 && -1 <= ochild < i
        invariant ochild == -1 ==> forall j :: 0 <= j < i ==> nd.child[j] == Null
        invariant ochild != -1 ==>
                    nd.child[ochild] != Null && forall j :: 0 <= j < i && j != ochild ==> nd.child[j] == Null
      {
        if nd.child[i] != Null {
          if ochild != -1 {
            assert TwoChildren(nd);
            return -1;
          }
          ochild := i;
        }
        i := i + 1;
      }
    }

    /** critnib.c:505-506, 519-522: the stores that follow the scan. */
    method HandOver(nParent: Place, n: nat, k: nat, del: nat, ochild: int)
      requires Ready(sys) && sys.st == Fields() && sys.w.RemTidy? && sys.w.nParent == nParent && sys.w.n == n
      requires sys.w.k == k
      requires n in nodes && removeCount > 0 && del == (removeCount - 1) % 16
      requires if ochild == -1 then TwoChildren(nodes[n]) else 0 <= ochild && OnlyChild(nodes[n], ochild)
      modifies this`root, this`nodes, this`pendNodes, this`pendLeaves
      ensures Fields() == WriterStep(sys, NoMem).st && WriterStep(sys, NoMem).w.Idle?
    {
      hide Ready, WriterStep, TwoChildren;
      TidyStep(sys, ochild);
      if ochild != -1 {
        StoreAt(nParent, nodes[n].child[ochild]);
        pendNodes := pendNodes[del := Inner(n)];
      }
      pendLeaves := pendLeaves[del := Tagged(k)];
    }

    /** critnib.c:500-522: a node with one child left hands its place to it. */
    method Tidy(key: Nibbles, nParent: Place, n: nat, k: nat, del: nat)
      requires Follows() && sys.w == RemTidy(key, nParent, n, k)
      requires removeCount > 0 && del == (removeCount - 1) % 16
      modifies this
      ensures Valid() && Map() == old(Map()) && leaves == old(leaves)
    {
      hide Run, Core, WriterStep, Ready, TwoChildren, OnlyChild;
      CoreReady(sys);
      ScanReady(sys);
      var ochild := Scan(nodes[n]);
      HandOver(nParent, n, k, del, ochild);
      Advance(NoMem);
    }

    /** critnib_remove: the value of the key is returned and its entry is gone. */
    method Remove(key: Nibbles) returns (value: Word)
      requires Valid()
      modifies this
      ensures Valid()
      ensures value == Lookup(old(Map()), key)
      ensures Map() == old(Map()) - {key}
    {
      hide Run, Core;
      if root == Null {
        EmptyMap(sys);
        return Nil;
      }
      var del := Recycle(key);
      var nParent, kParent, k, found := DiveToRemove(key);
      if !found { return Nil; }
      CutLeaf(key, kParent, k, del);
      value := leaves[k].value;
      if kParent != Top { Tidy(key, nParent, kParent.n, k, del); }
    }

    // -------------------------------------------------------------------------------------
    // critnib_get

    /** critnib_get with nobody else at work: the value of the key, or NULL. */
    method Get(key: Nibbles) returns (res: Word)
      requires Valid()
      ensures res == Lookup(Map(), key)
    {
      hide Run, Core;
      var again := true;
      res := Nil;
      while again
        invariant !again ==> res == Lookup(Map(), key)
        decreases again
      {
        var wrs1 := removeCount;
        var n := root;
        DiveBegins(sys, key);
        while n.Inner?
          invariant OnDive(sys, key, n)
          decreases Rank(Fields().mem, n)
        {
          DiveOn(sys, key, n);
          n := nodes[n.id].child[key[nodes[n.id].sh]];
        }
        DiveEnds(sys, key, n);
        res := if n != Null && leaves[n.id].key == key then leaves[n.id].value else Nil;
        var wrs2 := removeCount;
        again := wrs1 + 16 <= wrs2;
      }
    }

    // -------------------------------------------------------------------------------------
    // critnib_find_le

    /** critnib_find_le with nobody else at work: the value of the greatest key not greater than the one asked for,
        unless that value is NULL; without NULL values, NULL exactly if there is no such key. */
    method FindLe(key: Nibbles) returns (res: Word)
      requires Valid()
      ensures LeAnswer(Map(), key, res)
      ensures NoNulls(Map()) ==> (res == Nil <==> forall k :: k in Map() ==> !LessEq(k, key))
      ensures NoNulls(Map()) && res != Nil ==> exists k :: IsGreatest(Map(), key, k) && Map()[k] == res
    {
      hide Run, Core;
      var again := true;
      res := Nil;
      while again
        invariant !again ==> LeAnswer(Map(), key, res)
        decreases again
      {
        var wrs1 := removeCount;
        Plain(sys);
        res := CritnibFindLe.FindLe(Mem(root, nodes, leaves), root, key, Planted(sys));
        LeMap(sys, key, res);
        var wrs2 := removeCount;
        again := wrs1 + 16 <= wrs2;
      }
    }
  }

  /** No stored value is NULL. */
  ghost predicate NoNulls(m: map<Key, Word>) {
    forall k :: k in m ==> m[k] != Nil
  }

  /** k is the greatest key of m that is not greater than key. */
  ghost predicate IsGreatest(m: map<Key, Word>, key: Key, k: Key) {
    k in m && LessEq(k, key) && forall k' :: k' in m && LessEq(k', key) ==> LessEq(k', k)
  }

  /** res answers the <= query for the key in map m: NULL if there is no key to answer with; the value of the greatest
      one if that is not NULL; otherwise NULL or the value of a smaller one. */
  ghost predicate LeAnswer(m: map<Key, Word>, key: Key, res: Word) {
    || (res == Nil && forall k :: k in m ==> !LessEq(k, key))
    || (&& (exists k :: IsGreatest(m, key, k) && (m[k] == Nil || m[k] == res))
        && (res != Nil ==> exists k :: k in m && LessEq(k, key) && m[k] == res))
  }

  ghost function Planted(s: Sys): CritnibShape.Grown {
    CritnibShape.Grown(s.st.mem, s.b.up, s.b.at)
  }

  lemma Plain(s: Sys)
    requires Core(s) && s.w.Idle?
    ensures CritnibShape.Sound(SZ, Planted(s)) && CritnibShape.At(Planted(s), s.st.mem.root)
    ensures Alloc(s.st.mem, s.st.mem.root)
  {
    hide Stock;
  }

  lemma LeMap(s: Sys, key: Key, res: Word)
    requires Core(s) && s.w.Idle? && s.hist != [] && Alloc(s.st.mem, s.st.mem.root)
    requires CritnibFindLe.Found(Planted(s), s.st.mem.root, key, res)
    ensures LeAnswer(Current(s), key, res)
  {
    hide Stock, Limbo;
    MapOfTree(s);
    FoundInMap(Planted(s), Current(s), key, res);
  }

  /** The map is the index with the values of the leaves, all below the root. */
  lemma MapOfTree(s: Sys)
    requires Core(s) && s.w.Idle? && s.hist != [] && Alloc(s.st.mem, s.st.mem.root)
    ensures var m := Current(s);
            && (forall k :: k in m <==> k in CritnibShape.Below(s.st.mem, s.b.at, s.st.mem.root))
            && (forall k :: k in m ==>
                k in s.b.at && s.b.at[k] in s.st.mem.leaves && s.st.mem.leaves[s.b.at[k]].value == m[k])
  {
    hide Stock, Limbo;
    CritnibShape.AllBelowRoot(SZ, Planted(s));
  }

  lemma FoundInMap(g: CritnibShape.Grown, m: map<Key, Word>, key: Key, res: Word)
    requires Alloc(g.m, g.m.root) && CritnibFindLe.Found(g, g.m.root, key, res)
    requires forall k :: k in m <==> k in CritnibShape.Below(g.m, g.at, g.m.root)
    requires forall k :: k in m ==> k in g.at && g.at[k] in g.m.leaves && g.m.leaves[g.at[k]].value == m[k]
    ensures LeAnswer(m, key, res)
  {
    hide CritnibShape.Below;
    if !(res == Nil && CritnibFindLe.NoneLe(g, g.m.root, key)) {
      var k, v :| CritnibFindLe.Greatest(g, g.m.root, key, k, v) && (v == Nil || v == res);
      assert IsGreatest(m, key, k) && m[k] == v;
      if res != Nil {
        var k' :| CritnibFindLe.Some(g, g.m.root, key, k', res);
        assert k' in m && LessEq(k', key) && m[k'] == res;
      }
    }
  }

  /** The dive for the key has come to n. */
  ghost predicate OnDive(s: Sys, key: Nibbles, n: Ptr) {
    && Alloc(s.st.mem, n) && NodeOk(s.st.mem, n) && (n != Null ==> n in s.b.up)
    && Alloc(s.st.mem, s.st.mem.root) && Leads(s.st.mem, s.st.mem.root, key, n)
  }

  lemma DiveBegins(s: Sys, key: Nibbles)
    requires Core(s)
    ensures OnDive(s, key, s.st.mem.root)
  {
    if s.st.mem.root.Inner? { assert ObjOk(SZ, s.st.mem, s.b.up, s.st.mem.root); }
  }

  lemma DiveOn(s: Sys, key: Nibbles, n: Ptr)
    requires Core(s) && OnDive(s, key, n) && n.Inner?
    ensures var c := s.st.mem.nodes[n.id].child[key[s.st.mem.nodes[n.id].sh]];
            OnDive(s, key, c) && Rank(s.st.mem, c) < Rank(s.st.mem, n)
  {
    var nd := s.st.mem.nodes[n.id];
    assert ObjOk(SZ, s.st.mem, s.b.up, n);
    assert SlotOk(s.st.mem, s.b.up, n.id, key[nd.sh]);
    LeadsOn(s.st.mem, s.st.mem.root, key, n);
    var c := nd.child[key[nd.sh]];
    if c.Inner? { assert ObjOk(SZ, s.st.mem, s.b.up, c); }
  }

  /** critnib.c:551-561: the blind dive, checked once at the leaf, is the lookup. */
  lemma DiveEnds(s: Sys, key: Nibbles, n: Ptr)
    requires Core(s) && OnDive(s, key, n) && !n.Inner?
    ensures s.hist != []
    ensures Lookup(Current(s), key) == if n != Null && s.st.mem.leaves[n.id].key == key then s.st.mem.leaves[n.id].value
              else Nil
  {
    DiveDecides(SZ, s.st.mem, s.b.up, s.b.at, key, n);
  }

  /** The node under construction forks the key from the object n with label `path` at digit sh. */
  ghost predicate ForkAt(s: Sys, key: Nibbles, n: Ptr, path: Key, sh: nat) {
    && Ready(s) && s.w.InsBuild? && s.w.key == key
    && Load(s.st.mem, s.w.parent) == n && Label(s.st.mem, n) == path && sh == TopDiff(path, key)
  }

  lemma ForkStays(s: Sys)
    requires Core(s) && Ready(s) && s.w.InsBuild? && s.w.stage < 20
    ensures var s' := BuildInsert(s); var n := Load(s.st.mem, s.w.parent);
            && PlaceOk(s'.st.mem, s.w.parent) && Load(s'.st.mem, s.w.parent) == n
            && Alloc(s'.st.mem, n) && Label(s'.st.mem, n) == Label(s.st.mem, n)
  {
    NotKept(s.st.mem, s.b, Hand(s.w), Inner(s.w.m));
  }

  // ---------------------------------------------------------------------------------------
  // What the steps of the protocol do to the fields

  lemma ForkStep(s: Sys)
    requires Ready(s) && s.w.InsBuild? && s.w.stage == 20
    ensures var s' := WriterStep(s, NoMem);
            && PlaceOk(s.st.mem, s.w.parent) && s'.w == Idle(Code(Ok))
            && s'.st == s.st.(mem := Put(s.st.mem, s.w.parent, Inner(s.w.m)))
  {
    hide Entries;
  }

  lemma PlantStep(s: Sys)
    requires Ready(s) && s.w.InsDive? && Load(s.st.mem, s.w.parent) == Null
    ensures var s' := WriterStep(s, NoMem);
            && PlaceOk(s.st.mem, s.w.parent) && s'.w == Idle(Code(Ok))
            && s'.st == s.st.(mem := Put(s.st.mem, s.w.parent, Tagged(s.w.k)))
  {
    hide Entries;
  }

  /** alloc_node failed: the leaf goes back; or it gave node m to build. */
  lemma AllocStep(s: Sys, mal: Malloc)
    requires Ready(s) && s.w.InsDive?
    requires var n := Load(s.st.mem, s.w.parent);
             n != Null && (n.Inner? ==> Masked(s.w.key, s.st.mem.nodes[n.id].sh) != s.st.mem.nodes[n.id].path)
             && Label(s.st.mem, n) != s.w.key
    ensures var s' := WriterStep(s, mal); var (st, b, p) := AllocNode(s.st, s.b, mal);
            && s.w.k in s.st.mem.leaves && Chains(s.st, s.b)
            && (p == Null ==> s'.w == Idle(Code(ENOMEM)) && s'.st == FreeLeaf(s.st, s.b, s.w.k).0 && st == s.st)
            && (p != Null ==> p.Inner? && s'.w.InsBuild? && s'.st == st
                              && s'.w == InsBuild(s.w.key, s.w.value, s.w.k, s.w.parent, p.id, s'.w.raw, 0))
            && (p == Null ==> !(mal.NodeBlock? && mal.id !in s.st.mem.nodes && |mal.node.child| == 16))
  {
    hide Entries, Masked;
  }

  /** Getting a node does not change what hangs at the place. */
  lemma PlaceStays(s: Sys, s': Sys, mal: Malloc, n: Ptr)
    requires Ready(s) && s.w.InsDive? && Load(s.st.mem, s.w.parent) == n && AllocNode(s.st, s.b, mal).2 != Null
    requires s'.st == AllocNode(s.st, s.b, mal).0
    ensures PlaceOk(s'.st.mem, s.w.parent) && Load(s'.st.mem, s.w.parent) == n
  {
  }

  lemma CutStep(s: Sys)
    requires Ready(s) && s.w.RemDive? && PlaceOk(s.st.mem, s.w.kParent)
    requires var kn := Load(s.st.mem, s.w.kParent);
             kn.Tagged? && kn.id in s.st.mem.leaves && s.st.mem.leaves[kn.id].key == s.w.key
    ensures var s' := WriterStep(s, NoMem); var kn := Load(s.st.mem, s.w.kParent);
            var mem' := Put(s.st.mem, s.w.kParent, Null);
            && s.st.count > 0 && |s.st.pendLeaves| == 16
            && (s.w.kParent == Top ==>
                s'.w.Idle? && s'.st == s.st.(mem := mem', pendLeaves := s.st.pendLeaves[Del(s.st) := kn]))
            && (s.w.kParent.Slot? ==>
                s'.w == RemTidy(s.w.key, s.w.nParent, s.w.kParent.n, kn.id) && s'.st == s.st.(mem := mem'))
  {
    hide Entries;
  }

  lemma TidyStep(s: Sys, ochild: int)
    requires Ready(s) && s.w.RemTidy? && s.w.n in s.st.mem.nodes
    requires if ochild == -1 then TwoChildren(s.st.mem.nodes[s.w.n])
               else 0 <= ochild && OnlyChild(s.st.mem.nodes[s.w.n], ochild)
    ensures var s' := WriterStep(s, NoMem); var st := s.st.(pendLeaves := s.st.pendLeaves[Del(s.st) := Tagged(s.w.k)]);
            && s.st.count > 0 && PlaceOk(s.st.mem, s.w.nParent) && s'.w.Idle? && |s.st.pendLeaves| == 16
            && |s.st.pendNodes| == 16
            && s'.st == if ochild == -1 then st
                        else st.(mem := Put(s.st.mem, s.w.nParent, s.st.mem.nodes[s.w.n].child[ochild]),
                                 pendNodes := s.st.pendNodes[Del(s.st) := Inner(s.w.n)])
  {
    hide Entries;
    if ochild == -1 { NotOne(s.st.mem.nodes[s.w.n]); } else { OnlyOne(s.st.mem.nodes[s.w.n], ochild); }
  }

  lemma PendingKinds(s: Sys)
    requires Core(s) && Ready(s) && (s.w.RemNode? || s.w.RemLeaf?)
    ensures var d := (s.st.count - 1) % 16; !s.st.pendNodes[d].Tagged? && !s.st.pendLeaves[d].Inner?
  {
    assert RingSlot(s.st, s.b, Del(s.st));
  }

  /** The leaf at the end of a remove dive is the entry of its key. */
  lemma EntryOfLeaf(s: Sys)
    requires Core(s) && Ready(s) && s.w.RemDive?
    requires var kn := Load(s.st.mem, s.w.kParent); kn.Tagged? && s.st.mem.leaves[kn.id].key == s.w.key
    ensures s.w.key in Current(s) && Current(s)[s.w.key] == s.st.mem.leaves[Load(s.st.mem, s.w.kParent).id].value
  {
    PlaceReady(s, s.w.kParent);
  }

  lemma ScanReady(s: Sys)
    requires Core(s) && Ready(s) && s.w.RemTidy?
    ensures s.w.n in s.st.mem.nodes && |s.st.mem.nodes[s.w.n].child| == 16
    ensures exists i :: 0 <= i < 16 && s.st.mem.nodes[s.w.n].child[i] != Null
  {
    assert ObjOk(SZ, s.st.mem, s.b.up, Inner(s.w.n));
  }

  lemma OnlyOne(nd: Node, i: nat)
    requires OnlyChild(nd, i)
    ensures forall j: nat :: OnlyChild(nd, j) ==> j == i
  {
  }

  lemma NotOne(nd: Node)
    requires TwoChildren(nd)
    ensures forall j: nat :: !OnlyChild(nd, j)
  {
  }

  lemma EmptyMap(s: Sys)
    requires Core(s) && s.w.Idle? && s.st.mem.root == Null && s.hist != []
    ensures Current(s) == map[]
  {
    hide Stock, WriterOk, Limbo;
    NoRootNothing(SZ, s.st.mem, s.b.up);
  }
}
