/** The invariant of the critnib transition system and what a writer step means to readers. */
module CritnibInv {
  import opened Digits
  import opened RadixTree
  import opened RadixParts
  import opened RadixUpdates
  import opened CritnibModel

  /** Objects in the writer's hands: neither linked, nor waiting, nor pooled. */
  function Hand(w: Writer): set<Ptr> {
    match w
    case InsKey(_, _, k) => {Tagged(k)}
    case InsVal(_, _, k) => {Tagged(k)}
    case InsDive(_, _, k, _) => {Tagged(k)}
    case InsBuild(_, _, k, _, m, _, _) => {Tagged(k), Inner(m)}
    case _ => {}
  }

  /** A malloced node that is not yet filled in. */
  function Raw(w: Writer): Ptr {
    if w.InsBuild? && w.raw then Inner(w.m) else Null
  }

  function Thin(w: Writer): Ptr {
    if w.RemTidy? then Inner(w.n) else Null
  }

  /** p is the leaf that the remove under way has cut off and not yet put into the ring. */
  predicate Loose(w: Writer, p: Ptr) {
    w.RemTidy? && p == Tagged(w.k)
  }

  // ---------------------------------------------------------------------------------------
  // Ownership: every allocated object is in exactly one home

  predicate InPool(b: Book, p: Ptr) {
    match p
    case Null => false
    case Inner(n) => n in b.nodePool
    case Tagged(l) => l in b.leafPool
  }

  function Homes(b: Book, hand: set<Ptr>, p: Ptr): nat {
    (if p in b.up then 1 else 0) + (if p in b.limbo then 1 else 0)
    + (if InPool(b, p) then 1 else 0) + (if p in hand then 1 else 0)
  }

  ghost predicate Owned(mem: Mem, b: Book, hand: set<Ptr>) {
    && (forall p {:trigger Homes(b, hand, p)} :: Homes(b, hand, p) == if p != Null && Alloc(mem, p) then 1 else 0)
    && Distinct(b.nodePool) && Distinct(b.leafPool)
  }

  // ---------------------------------------------------------------------------------------
  // The rings: an object unlinked by remove r waits in slot r % 16 until remove r + 16

  /** Objects of the oldest remove are still waiting while the new remove recycles them. */
  function Slack(w: Writer, p: Ptr): nat {
    if w.RemNode? || (w.RemLeaf? && p.Tagged?) then 1 else 0
  }

  predicate Removing(w: Writer) {
    w.RemNode? || w.RemLeaf? || w.RemDive? || w.RemTidy?
  }

  ghost predicate Waits(st: Store, b: Book, w: Writer, p: Ptr)
    requires p in b.limbo && |st.pendNodes| == 16 && |st.pendLeaves| == 16
  {
    var rem := b.limbo[p].rem;
    && p != Null && rem < st.count <= rem + LIFE + Slack(w, p)
    && (if Loose(w, p) then rem + 1 == st.count
        else (if p.Inner? then st.pendNodes else st.pendLeaves)[rem % LIFE] == p && (Removing(w) ==>
            rem + 1 < st.count))
  }

  /** Ring slot d is empty or holds an object unlinked by a remove of that number modulo 16. */
  ghost predicate RingSlot(st: Store, b: Book, d: int)
    requires 0 <= d < 16 && |st.pendNodes| == 16 && |st.pendLeaves| == 16
  {
    var n, l := st.pendNodes[d], st.pendLeaves[d];
    && (n != Null ==> n.Inner? && n in b.limbo && b.limbo[n].rem % LIFE == d)
    && (l != Null ==> l.Tagged? && l in b.limbo && b.limbo[l].rem % LIFE == d)
  }

  ghost predicate Ring(st: Store, b: Book, w: Writer) {
    && |st.pendNodes| == 16 && |st.pendLeaves| == 16
    && (forall d {:trigger RingSlot(st, b, d)} :: 0 <= d < 16 ==> RingSlot(st, b, d))
    && (forall p {:trigger Waits(st, b, w, p)} :: p in b.limbo ==> Waits(st, b, w, p))
    && (Removing(w) ==> st.count > 0)
  }

  // ---------------------------------------------------------------------------------------
  // Unlinked objects are frozen and point only at linked or later unlinked ones

  ghost predicate LimboSlot(mem: Mem, b: Book, n: nat, i: int)
    requires Inner(n) in b.limbo && n in mem.nodes && 0 <= i < |mem.nodes[n].child|
  {
    var c := mem.nodes[n].child[i];
    c != Null ==>
      && Fits(mem, c, mem.nodes[n], i)
      && (c in b.up || (c in b.limbo && b.limbo[Inner(n)].dead <= b.limbo[c].dead
          && b.limbo[Inner(n)].rem <= b.limbo[c].rem))
  }

  ghost predicate LimboNode(mem: Mem, b: Book, n: nat)
    requires Inner(n) in b.limbo && n in mem.nodes
  {
    && GoodNode(SZ, mem.nodes[n])
    && forall i {:trigger LimboSlot(mem, b, n, i)} :: 0 <= i < 16 ==> LimboSlot(mem, b, n, i)
  }

  ghost predicate Limbo(mem: Mem, b: Book) {
    && (forall p :: p in b.limbo ==> p != Null && Alloc(mem, p))
    && (forall n {:trigger LimboNode(mem, b, n)} :: Inner(n) in b.limbo ==> LimboNode(mem, b, n))
  }

  /** A cut-off leaf was an entry of the map at the last instant it was linked. */
  ghost predicate Epitaph(mem: Mem, b: Book, hist: seq<map<Key, Word>>, p: Ptr)
    requires p in b.limbo
  {
    var t := b.limbo[p].dead;
    && t + 1 < |hist|
    && (p.Tagged? && p.id in mem.leaves ==>
          mem.leaves[p.id].key in hist[t] && hist[t][mem.leaves[p.id].key] == mem.leaves[p.id].value)
  }

  ghost predicate History(mem: Mem, b: Book, hist: seq<map<Key, Word>>) {
    && hist != [] && Served(mem, b.at) && hist[|hist| - 1] == Entries(mem, b.at)
    && (forall p {:trigger Epitaph(mem, b, hist, p)} :: p in b.limbo ==> Epitaph(mem, b, hist, p))
  }

  // ---------------------------------------------------------------------------------------
  // Pointer safety, for stale readers too

  ghost predicate SafeNode(mem: Mem, raw: Ptr, n: nat)
    requires n in mem.nodes
  {
    && |mem.nodes[n].child| == 16
    && (Inner(n) != raw ==>
          && mem.nodes[n].sh < 16
          && forall i :: 0 <= i < 16 ==>
              Alloc(mem, mem.nodes[n].child[i]) && (raw != Null ==> mem.nodes[n].child[i] != raw))
  }

  ghost predicate Safe(mem: Mem, raw: Ptr) {
    && (forall n {:trigger SafeNode(mem, raw, n)} :: n in mem.nodes ==> SafeNode(mem, raw, n))
    && Alloc(mem, mem.root) && (raw != Null ==> mem.root != raw)
  }

  // ---------------------------------------------------------------------------------------
  // Where the writer stands

  /** The place that the insert dive has reached lies on the key's path. */
  ghost predicate OnWay(mem: Mem, b: Book, key: Key, parent: Place) {
    parent.Slot? ==>
      && Inner(parent.n) in b.up && parent.n in mem.nodes && GoodNode(SZ, mem.nodes[parent.n])
      && Keyed(SZ, key) && Covers(mem, Inner(parent.n), key) && parent.i == key[mem.nodes[parent.n].sh]
  }

  /** The slots of the node under construction. */
  ghost predicate Progress(nd: Node, key: Key, k: nat, x: Ptr, path: Key, sh: nat, stage: nat)
    requires Keyed(SZ, key) && Keyed(SZ, path) && sh < 16
  {
    && |nd.child| == 16 && stage <= 20
    && (forall i :: 0 <= i < 16 && i < stage ==>
          nd.child[i] == (if stage >= 18 && i == path[sh] then x else if stage >= 17 && i == key[sh] then Tagged(k)
            else Null))
    && (stage >= 19 ==> nd.sh == sh)
    && (stage >= 20 ==> nd.path == Masked(key, sh))
  }

  ghost predicate Building(mem: Mem, b: Book, key: Nibbles, k: nat, parent: Place, m: nat, stage: nat) {
    && OnWay(mem, b, key, parent) && PlaceOk(mem, parent)
    && var x := Load(mem, parent);
    && x in b.up && x != Null && Alloc(mem, x) && b.up[x] == parent
    && Keyed(SZ, Label(mem, x)) && Label(mem, x) != key
    && (x.Inner? ==> !Covers(mem, x, key))
    && m in mem.nodes && Progress(mem.nodes[m], key, k, x, Label(mem, x), TopDiff(Label(mem, x), key), stage)
  }

  ghost predicate WriterOk(s: Sys) {
    match s.w
    case Idle(_) => true
    case InsKey(_, _, k) => k in s.st.mem.leaves
    case InsVal(key, _, k) => k in s.st.mem.leaves && s.st.mem.leaves[k].key == key
    case InsDive(key, value, k, parent) =>
      k in s.st.mem.leaves && s.st.mem.leaves[k] == Leaf(key, value) && OnWay(s.st.mem, s.b, key, parent)
    case InsBuild(key, value, k, parent, m, _, stage) =>
      && k in s.st.mem.leaves && s.st.mem.leaves[k] == Leaf(key, value)
      && Building(s.st.mem, s.b, key, k, parent, m, stage)
    case RemNode(_) => s.st.mem.root != Null
    case RemLeaf(_) => s.st.mem.root != Null
    case RemDive(key, nParent, kParent) =>
      && PlaceOk(s.st.mem, kParent)
      && (kParent.Slot? ==>
            && Inner(kParent.n) in s.b.up && s.b.up[Inner(kParent.n)] == nParent
            && s.st.mem.nodes[kParent.n].sh < 16 && kParent.i == key[s.st.mem.nodes[kParent.n].sh])
      && Alloc(s.st.mem, s.st.mem.root) && Leads(s.st.mem, s.st.mem.root, key, Load(s.st.mem, kParent))
    case RemTidy(key, nParent, n, k) =>
      && Inner(n) in s.b.up && s.b.up[Inner(n)] == nParent && n in s.st.mem.nodes
      && (exists i :: 0 <= i < |s.st.mem.nodes[n].child| && s.st.mem.nodes[n].child[i] != Null)
      && Tagged(k) in s.b.limbo && k in s.st.mem.leaves && s.st.mem.leaves[k].key == key
  }

  // ---------------------------------------------------------------------------------------
  // Memory bound

  ghost predicate Bounded(mem: Mem, b: Book) {
    && |b.at| <= b.peak
    && |mem.leaves| <= b.peak + LIFE + 1
    && |mem.nodes| <= b.peak + LIFE
  }

  /** The tree, the waiting objects and the history. */
  ghost predicate Body(s: Sys) {
    && Tree(SZ, s.st.mem, s.b.up, s.b.at, Thin(s.w))
    && Limbo(s.st.mem, s.b)
    && History(s.st.mem, s.b, s.hist)
  }

  /** Homes, free lists, rings, pointer safety and the memory bound. */
  ghost predicate Stock(s: Sys) {
    && Owned(s.st.mem, s.b, Hand(s.w)) && Chains(s.st, s.b) && Ring(s.st, s.b, s.w)
    && Safe(s.st.mem, Raw(s.w)) && Bounded(s.st.mem, s.b)
  }

  ghost predicate Core(s: Sys) {
    Body(s) && Stock(s) && WriterOk(s)
  }

  lemma CoreReady(s: Sys)
    requires Core(s)
    ensures Ready(s)
  {
    var mem := s.st.mem;
    match s.w
    case InsDive(_, _, _, parent) =>
      PlaceReady(s, parent);
    case InsBuild(_, _, _, parent, _, _, _) =>
    case RemNode(_) =>
      var p := s.st.pendNodes[Del(s.st)];
      assert RingSlot(s.st, s.b, Del(s.st));
      if p.Inner? { assert SafeNode(mem, Raw(s.w), p.id); }
    case RemLeaf(_) => assert RingSlot(s.st, s.b, Del(s.st));
    case RemDive(_, _, kParent) =>
      PlaceReady(s, kParent);
    case RemTidy(_, nParent, n, _) =>
      assert ObjOk(SZ, mem, s.b.up, Inner(n));
      if nParent.Slot? { assert SafeNode(mem, Null, nParent.n); }
    case _ =>
  }

  lemma PlaceReady(s: Sys, place: Place)
    requires Core(s) && !s.w.InsBuild?
    requires place.Slot? ==> Inner(place.n) in s.b.up && place.i < 16
    ensures PlaceOk(s.st.mem, place)
    ensures var mem := s.st.mem; var p := Load(mem, place);
            && Alloc(mem, p) && NodeOk(mem, p)
            && (p != Null ==> p in s.b.up && s.b.up[p] == place && Keyed(SZ, Label(mem, p)))
  {
    var mem := s.st.mem;
    if place.Slot? {
      assert ObjOk(SZ, mem, s.b.up, Inner(place.n));
      assert SlotOk(mem, s.b.up, place.n, place.i);
    }
    var p := Load(mem, place);
    if p != Null {
      assert ObjOk(SZ, mem, s.b.up, p);
    }
  }
}
