/** critnib.c as a transition system.

One writer at a time (the mutex) and any number of `critnib_get` readers work on one store.
The writer's operation is cut at every store that a reader can see; loads and stores of fields
that only the mutex holder uses (`deleted_node`, `deleted_leaf`, the pending rings) are taken
together with a neighbouring step. A reader is cut at every load. Memory is sequentially
consistent and `remove_count` does not wrap. */
module CritnibModel {
  import opened Digits
  import opened RadixTree
  import opened RadixParts
  import opened RadixUpdates

  /** DELETED_LIFE of critnib.c. */
  const LIFE: nat := 16

  /** `struct critnib` and the memory it points to. */
  datatype Store = Store(
    mem: Mem,
    deletedNode: Ptr,
    deletedLeaf: Word,
    pendNodes: seq<Ptr>,
    pendLeaves: seq<Ptr>,
    count: nat)

  /** An unlinked object: the number of the remove that unlinked it, and the last instant
      (index of the history) at which it was linked. */
  datatype Tomb = Tomb(rem: nat, dead: nat)

  /** Bookkeeping that the program does not store: places, index of keys, unlinked but not yet
      recycled objects, contents of the two free lists, and the largest number of keys so far. */
  datatype Book = Book(
    up: map<Ptr, Place>,
    at: map<Key, nat>,
    limbo: map<Ptr, Tomb>,
    nodePool: seq<nat>,
    leafPool: seq<nat>,
    peak: nat)

  /** What malloc may answer. A block comes with arbitrary contents; one that overlaps an object
      in use is no block. */
  datatype Malloc = NoMem | LeafBlock(id: nat, leaf: Leaf) | NodeBlock(id: nat, node: Node)

  datatype Return = Code(errno: Errno) | Value(w: Word)
  datatype Errno = Ok | EEXIST | ENOMEM

  /** Where the holder of the mutex stands. */
  datatype Writer =
    | Idle(ret: Return)
      // critnib_insert: leaf k is allocated
    | InsKey(key: Nibbles, value: Word, k: nat)
    | InsVal(key: Nibbles, value: Word, k: nat)
    | InsDive(key: Nibbles, value: Word, k: nat, parent: Place)
    | InsBuild(key: Nibbles, value: Word, k: nat, parent: Place, m: nat, raw: bool, stage: nat)
      // critnib_remove: the counter is bumped
    | RemNode(key: Nibbles)
    | RemLeaf(key: Nibbles)
    | RemDive(key: Nibbles, nParent: Place, kParent: Place)
    | RemTidy(key: Nibbles, nParent: Place, n: nat, k: nat)

  /** One attempt of critnib_get: the call began at instant `call`, the attempt took the snapshot
      `w` of the counter at instant `start`. */
  datatype Query = Query(key: Nibbles, call: nat, w: nat, start: nat)

  datatype Reader =
    | Begin(key: Nibbles, call: nat)
    | AtRoot(q: Query)
    | AtPtr(q: Query, cur: Ptr, hops: nat)
    | AtSlot(q: Query, cur: Ptr, hops: nat, sh: nat)
    | AtValue(q: Query, cur: Ptr)
    | AtCheck(q: Query, res: Word)
    | Done(q: Query, end: nat, res: Word)

  datatype Sys = Sys(
    st: Store,
    w: Writer,
    readers: map<nat, Reader>,
    b: Book,
    hist: seq<map<Key, Word>>)

  datatype Action =
    | StartInsert(key: Nibbles, value: Word, mal: Malloc)
    | StartRemove(key: Nibbles)
    | Write(mal: Malloc)
    | StartGet(r: nat, key: Nibbles)
    | Read(r: nat)

  function Empties(n: nat): seq<Ptr> { seq(n, _ => Null) }

  /** critnib_new */
  ghost function Init(): Sys {
    Sys(Store(Mem(Null, map[], map[]), Null, Nil, Empties(LIFE), Empties(LIFE), 0),
        Idle(Code(Ok)), map[], Book(map[], map[], map[], [], [], 0), [map[]])
  }

  // ---------------------------------------------------------------------------------------
  // Pools

  /** Element i of the free list of nodes links to the next one through child[0]. */
  ghost predicate LinkN(mem: Mem, pool: seq<nat>, i: int)
    requires 0 <= i < |pool|
  {
    && pool[i] in mem.nodes && |mem.nodes[pool[i]].child| == 16
    && mem.nodes[pool[i]].child[0] == (if i + 1 < |pool| then Inner(pool[i + 1]) else Null)
  }

  ghost predicate ChainN(mem: Mem, head: Ptr, pool: seq<nat>) {
    && head == (if pool == [] then Null else Inner(pool[0]))
    && forall i {:trigger LinkN(mem, pool, i)} :: 0 <= i < |pool| ==> LinkN(mem, pool, i)
  }

  ghost predicate Chains(st: Store, b: Book) {
    ChainN(st.mem, st.deletedNode, b.nodePool) && ChainL(st.mem, st.deletedLeaf, b.leafPool)
  }

  /** critnib.c:330-337: there is a leaf to be had, from the free list or from malloc. */
  predicate HasLeaf(st: Store, mal: Malloc) {
    st.deletedLeaf != Nil || (mal.LeafBlock? && mal.id !in st.mem.leaves)
  }

  /** critnib.c:300-307: there is a node to be had. */
  predicate HasNode(st: Store, mal: Malloc) {
    st.deletedNode != Null || (mal.NodeBlock? && mal.id !in st.mem.nodes && |mal.node.child| == 16)
  }

  /** alloc_leaf: from the pool, else from malloc; Null when malloc fails. */
  ghost function AllocLeaf(st: Store, b: Book, mal: Malloc): (Store, Book, Ptr)
    requires Chains(st, b)
  {
    if st.deletedLeaf.Link? then
      var k := st.deletedLeaf.id;
      assert LinkL(st.mem, b.leafPool, 0);
      (st.(deletedLeaf := st.mem.leaves[k].value), b.(leafPool := b.leafPool[1..]), Tagged(k))
    else if mal.LeafBlock? && mal.id !in st.mem.leaves then
      (st.(mem := st.mem.(leaves := st.mem.leaves[mal.id := mal.leaf])), b, Tagged(mal.id))
    else
      (st, b, Null)
  }

  /** alloc_node */
  ghost function AllocNode(st: Store, b: Book, mal: Malloc): (Store, Book, Ptr)
    requires Chains(st, b)
  {
    if st.deletedNode.Inner? then
      var n := st.deletedNode.id;
      assert LinkN(st.mem, b.nodePool, 0);
      (st.(deletedNode := st.mem.nodes[n].child[0]), b.(nodePool := b.nodePool[1..]), Inner(n))
    else if mal.NodeBlock? && mal.id !in st.mem.nodes && |mal.node.child| == 16 then
      (st.(mem := st.mem.(nodes := st.mem.nodes[mal.id := mal.node])), b, Inner(mal.id))
    else
      (st, b, Null)
  }

  /** free_leaf */
  ghost function FreeLeaf(st: Store, b: Book, k: nat): (Store, Book)
    requires k in st.mem.leaves
  {
    (st.(mem := SetLeaf(st.mem, k, st.mem.leaves[k].(value := st.deletedLeaf)), deletedLeaf := Link(k)),
     b.(leafPool := [k] + b.leafPool))
  }

  /** free_node */
  ghost function FreeNode(st: Store, b: Book, n: nat): (Store, Book)
    requires n in st.mem.nodes && |st.mem.nodes[n].child| == 16
  {
    (st.(mem := Put(st.mem, Slot(n, 0), st.deletedNode), deletedNode := Inner(n)),
     b.(nodePool := [n] + b.nodePool))
  }

  function SetLeaf(m: Mem, l: nat, r: Leaf): Mem {
    m.(leaves := m.leaves[l := r])
  }

  function SetNode(m: Mem, n: nat, r: Node): Mem {
    m.(nodes := m.nodes[n := r])
  }

  // ---------------------------------------------------------------------------------------
  // Writer steps

  ghost predicate PlaceOk(mem: Mem, p: Place) {
    p.Slot? ==> p.n in mem.nodes && |mem.nodes[p.n].child| == 16 && p.i < 16
  }

  ghost predicate NodeOk(mem: Mem, p: Ptr) {
    p.Inner? ==> p.id in mem.nodes && |mem.nodes[p.id].child| == 16 && mem.nodes[p.id].sh < 16
  }

  ghost predicate Served(mem: Mem, at: map<Key, nat>) {
    forall k :: k in at ==> at[k] in mem.leaves
  }

  /** The pointers that the next step follows are good. */
  ghost predicate ReadyAt(s: Sys)
    requires |s.st.pendNodes| == 16 && |s.st.pendLeaves| == 16
  {
    match s.w
    case Idle(_) => true
    case InsKey(_, _, k) => k in s.st.mem.leaves
    case InsVal(_, _, k) => k in s.st.mem.leaves
    case InsDive(_, _, k, parent) =>
      && k in s.st.mem.leaves && PlaceOk(s.st.mem, parent)
      && Alloc(s.st.mem, Load(s.st.mem, parent)) && NodeOk(s.st.mem, Load(s.st.mem, parent))
      && (Load(s.st.mem, parent) != Null ==> Keyed(SZ, Label(s.st.mem, Load(s.st.mem, parent))))
    case InsBuild(key, _, k, parent, m, _, stage) =>
      && k in s.st.mem.leaves && s.st.mem.leaves[k].key == key && PlaceOk(s.st.mem, parent) && m in s.st.mem.nodes
      && |s.st.mem.nodes[m].child| == 16 && stage <= 20
      && Load(s.st.mem, parent) != Null && Alloc(s.st.mem, Load(s.st.mem, parent))
      && Keyed(SZ, Label(s.st.mem, Load(s.st.mem, parent))) && Label(s.st.mem, Load(s.st.mem, parent)) != key
    case RemNode(_) => s.st.count > 0 && NodeOk(s.st.mem, s.st.pendNodes[(s.st.count - 1) % LIFE])
    case RemLeaf(_) =>
      && s.st.count > 0
      && Alloc(s.st.mem, s.st.pendLeaves[(s.st.count - 1) % LIFE])
    case RemDive(_, nParent, kParent) =>
      && s.st.count > 0 && PlaceOk(s.st.mem, kParent)
      && Alloc(s.st.mem, Load(s.st.mem, kParent)) && NodeOk(s.st.mem, Load(s.st.mem, kParent))
    case RemTidy(_, nParent, n, k) =>
      && s.st.count > 0 && PlaceOk(s.st.mem, nParent) && n in s.st.mem.nodes && k in s.st.mem.leaves
  }

  ghost predicate Ready(s: Sys) {
    && s.hist != [] && Chains(s.st, s.b) && |s.st.pendNodes| == 16 && |s.st.pendLeaves| == 16
    && Served(s.st.mem, s.b.at) && ReadyAt(s)
  }

  /** The digit at which the key being inserted parts from the object at its place:
      util_mssb_index64(path ^ key) & ~(SLICE - 1). */
  ghost function ForkDigit(mem: Mem, key: Nibbles, parent: Place): nat
    requires PlaceOk(mem, parent) && Load(mem, parent) != Null && Alloc(mem, Load(mem, parent))
    requires Keyed(SZ, Label(mem, Load(mem, parent))) && Label(mem, Load(mem, parent)) != key
  {
    TopDiff(Label(mem, Load(mem, parent)), key)
  }

  /** The state after a writer step, with the new map appended to the history. */
  ghost function After(s: Sys, st: Store, b: Book, w: Writer): Sys
    requires Served(st.mem, b.at)
  {
    Sys(st, w, s.readers, b, s.hist + [Entries(st.mem, b.at)])
  }

  function Max(x: nat, y: nat): nat { if x < y then y else x }

  /** Record that `key` is now served by leaf k. */
  function Publish(b: Book, up: map<Ptr, Place>, key: Key, k: nat): Book {
    b.(up := up, at := b.at[key := k], peak := Max(b.peak, |b.at[key := k]|))
  }

  /** Record that p left the tree during remove number rem. */
  function Bury(b: Book, up: map<Ptr, Place>, p: Ptr, rem: nat, now: nat): Book {
    b.(up := up, limbo := b.limbo[p := Tomb(rem, now)])
  }

  /** critnib.c:353-360, the mutex taken: allocate the leaf. */
  ghost function BeginInsert(s: Sys, key: Nibbles, value: Word, mal: Malloc): Sys
    requires Ready(s) && s.w.Idle?
  {
    var (st, b, p) := AllocLeaf(s.st, s.b, mal);
    After(s, st, b, if p == Null then Idle(Code(ENOMEM)) else InsKey(key, value, p.id))
  }

  /** critnib.c:362 */
  ghost function WriteKey(s: Sys): Sys
    requires Ready(s) && s.w.InsKey?
  {
    var k := s.w.k;
    var mem := SetLeaf(s.st.mem, k, s.st.mem.leaves[k].(key := s.w.key));
    After(s, s.st.(mem := mem), s.b, InsVal(s.w.key, s.w.value, k))
  }

  /** critnib.c:363 */
  ghost function WriteVal(s: Sys): Sys
    requires Ready(s) && s.w.InsVal?
  {
    var k := s.w.k;
    var mem := SetLeaf(s.st.mem, k, s.st.mem.leaves[k].(value := s.w.value));
    After(s, s.st.(mem := mem), s.b, InsDive(s.w.key, s.w.value, k, Top))
  }

  /** critnib.c:367-417: one turn of the dive, and what follows when it ends. */
  ghost function DiveInsert(s: Sys, mal: Malloc): Sys
    requires Ready(s) && s.w.InsDive?
  {
    var InsDive(key, value, k, parent) := s.w;
    var mem := s.st.mem;
    var n := Load(mem, parent);
    if n == Null then
      // 369 and 387: publish the leaf
      After(s, s.st.(mem := Put(mem, parent, Tagged(k))), Publish(s.b, s.b.up[Tagged(k) := parent], key, k),
            Idle(Code(Ok)))
    else if n.Inner? && Masked(key, mem.nodes[n.id].sh) == mem.nodes[n.id].path then
      After(s, s.st, s.b, InsDive(key, value, k, Slot(n.id, key[mem.nodes[n.id].sh])))
    else if Label(mem, n) == key then
      var (st, b) := FreeLeaf(s.st, s.b, k);
      After(s, st, b, Idle(Code(EEXIST)))
    else
      var (st, b, p) := AllocNode(s.st, s.b, mal);
      if p == Null then
        var (st', b') := FreeLeaf(s.st, s.b, k);
        After(s, st', b', Idle(Code(ENOMEM)))
      else
        After(s, st, b, InsBuild(key, value, k, parent, p.id, !s.st.deletedNode.Inner?, 0))
  }

  /** The node under construction after the store number `stage` of critnib.c:419-425. */
  ghost function Built(s: Sys): Node
    requires Ready(s) && s.w.InsBuild? && s.w.stage < 20
  {
    var InsBuild(key, _, k, parent, m, _, stage) := s.w;
    var nd := s.st.mem.nodes[m];
    var n := Load(s.st.mem, parent);
    var sh := ForkDigit(s.st.mem, key, parent);
    if stage < 16 then nd.(child := nd.child[stage := Null])
    else if stage == 16 then nd.(child := nd.child[key[sh] := Tagged(k)])
    else if stage == 17 then nd.(child := nd.child[Label(s.st.mem, n)[sh] := n])
    else if stage == 18 then nd.(sh := sh)
    else nd.(path := Masked(key, sh))
  }

  /** critnib.c:419-426 */
  ghost function BuildInsert(s: Sys): Sys
    requires Ready(s) && s.w.InsBuild?
  {
    var InsBuild(key, _, k, parent, m, raw, stage) := s.w;
    var mem := s.st.mem;
    if stage < 20 then
      After(s, s.st.(mem := SetNode(mem, m, Built(s))), s.b, s.w.(stage := stage + 1))
    else
      var up := SpliceUp(mem, s.b.up, parent, Load(mem, parent), k, ForkDigit(mem, key, parent), m);
      After(s, s.st.(mem := Put(mem, parent, Inner(m))), Publish(s.b, up, key, k), Idle(Code(Ok)))
  }

  /** critnib.c:439-448 */
  ghost function BeginRemove(s: Sys, key: Nibbles): Sys
    requires Ready(s) && s.w.Idle?
  {
    if s.st.mem.root == Null then After(s, s.st, s.b, Idle(Value(Nil)))
    else After(s, s.st.(count := s.st.count + 1), s.b, RemNode(key))
  }

  /** The ring slot of the remove under way. */
  function Del(st: Store): nat
    requires st.count > 0
  {
    (st.count - 1) % LIFE
  }

  /** critnib.c:449, 451: the node that waited longest goes to the pool. */
  ghost function RecycleNode(s: Sys): Sys
    requires Ready(s) && s.w.RemNode?
  {
    var p := s.st.pendNodes[Del(s.st)];
    if !p.Inner? then
      After(s, s.st, s.b, RemLeaf(s.w.key))
    else
      var (st, b) := FreeNode(s.st, s.b, p.id);
      After(s, st.(pendNodes := st.pendNodes[Del(s.st) := Null]), b.(limbo := b.limbo - {p}), RemLeaf(s.w.key))
  }

  /** critnib.c:450, 452 */
  ghost function RecycleLeaf(s: Sys): Sys
    requires Ready(s) && s.w.RemLeaf?
  {
    var p := s.st.pendLeaves[Del(s.st)];
    if !p.Tagged? then
      After(s, s.st, s.b, RemDive(s.w.key, Top, Top))
    else
      var (st, b) := FreeLeaf(s.st, s.b, p.id);
      After(s, st.(pendLeaves := st.pendLeaves[Del(s.st) := Null]), b.(limbo := b.limbo - {p}),
            RemDive(s.w.key, Top, Top))
  }

  /** critnib.c:454-498: one turn of the dive; at the leaf, cut it off. */
  ghost function DiveRemove(s: Sys): Sys
    requires Ready(s) && s.w.RemDive?
  {
    var RemDive(key, nParent, kParent) := s.w;
    var mem := s.st.mem;
    var kn := Load(mem, kParent);
    match kn
    case Null => After(s, s.st, s.b, Idle(Value(Nil)))
    case Inner(n) => After(s, s.st, s.b, RemDive(key, kParent, Slot(n, key[mem.nodes[n].sh])))
    case Tagged(k) =>
      if mem.leaves[k].key != key then
        After(s, s.st, s.b, Idle(Value(Nil)))
      else
        var b := Bury(s.b, s.b.up - {kn}, kn, s.st.count - 1, |s.hist| - 1).(at := s.b.at - {key});
        var st := s.st.(mem := Put(mem, kParent, Null));
        if kParent == Top then
          After(s, st.(pendLeaves := st.pendLeaves[Del(st) := kn]), b, Idle(Value(mem.leaves[k].value)))
        else
          After(s, st, b, RemTidy(key, nParent, kParent.n, k))
  }

  /** critnib.c:500-526: a node left with one child hands its place to it. */
  ghost function TidyRemove(s: Sys): Sys
    requires Ready(s) && s.w.RemTidy?
  {
    var RemTidy(key, nParent, n, k) := s.w;
    var mem := s.st.mem;
    var st := s.st.(pendLeaves := s.st.pendLeaves[Del(s.st) := Tagged(k)]);
    var ret := Idle(Value(mem.leaves[k].value));
    if exists i: nat :: OnlyChild(mem.nodes[n], i) then
      var i: nat :| OnlyChild(mem.nodes[n], i);
      var c := mem.nodes[n].child[i];
      After(s, st.(mem := Put(mem, nParent, c), pendNodes := st.pendNodes[Del(s.st) := Inner(n)]),
            Bury(s.b, RelinkUp(s.b.up, nParent, n, c), Inner(n), s.st.count - 1, |s.hist| - 1), ret)
    else
      After(s, st, s.b, ret)
  }

  ghost function WriterStep(s: Sys, mal: Malloc): Sys
    requires Ready(s)
  {
    match s.w
    case Idle(_) => s
    case InsKey(_, _, _) => WriteKey(s)
    case InsVal(_, _, _) => WriteVal(s)
    case InsDive(_, _, _, _) => DiveInsert(s, mal)
    case InsBuild(_, _, _, _, _, _, _) => BuildInsert(s)
    case RemNode(_) => RecycleNode(s)
    case RemLeaf(_) => RecycleLeaf(s)
    case RemDive(_, _, _) => DiveRemove(s)
    case RemTidy(_, _, _, _) => TidyRemove(s)
  }

  // ---------------------------------------------------------------------------------------
  // Reader steps: critnib.c:545-565

  function Now(s: Sys): int { |s.hist| - 1 }

  ghost function ReaderStep(s: Sys, r: Reader): Reader
    requires s.hist != []
  {
    var mem := s.st.mem;
    match r
    case Begin(key, call) => AtRoot(Query(key, call, s.st.count, Now(s)))
    case AtRoot(q) => AtPtr(q, mem.root, 0)
    case AtPtr(q, cur, hops) =>
      if cur.Inner? && cur.id in mem.nodes then AtSlot(q, cur, hops, mem.nodes[cur.id].sh)
      else if cur.Tagged? && cur.id in mem.leaves && mem.leaves[cur.id].key == q.key then AtValue(q, cur)
      else AtCheck(q, Nil)
    case AtSlot(q, cur, hops, sh) =>
      if cur.Inner? && cur.id in mem.nodes && sh < 16 && |mem.nodes[cur.id].child| == 16
      then AtPtr(q, mem.nodes[cur.id].child[q.key[sh]], hops + 1) else r
    case AtValue(q, cur) =>
      if cur.Tagged? && cur.id in mem.leaves then AtCheck(q, mem.leaves[cur.id].value) else r
    case AtCheck(q, res) =>
      if q.w + LIFE <= s.st.count then Begin(q.key, q.call) else Done(q, Now(s), res)
    case Done(_, _, _) => r
  }

  /** One step of the whole system; an action that is not enabled changes nothing. */
  ghost function Step(s: Sys, a: Action): Sys
    requires Ready(s)
  {
    match a
    case StartInsert(key, value, mal) => if s.w.Idle? then BeginInsert(s, key, value, mal) else s
    case StartRemove(key) => if s.w.Idle? then BeginRemove(s, key) else s
    case Write(mal) => WriterStep(s, mal)
    case StartGet(r, key) =>
      if r !in s.readers || s.readers[r].Done? then s.(readers := s.readers[r := Begin(key, Now(s))]) else s
    case Read(r) =>
      if r in s.readers then s.(readers := s.readers[r := ReaderStep(s, s.readers[r])]) else s
  }
}
