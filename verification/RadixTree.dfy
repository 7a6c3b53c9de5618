/** The shape of a path-compressed radix tree held in an arena, stated locally.

Nodes and leaves live in two maps from ids to records, as `struct critnib_node` and
`struct critnib_leaf` live in memory. Instead of a recursive footprint, a map `up` gives for
every linked object the one place that points at it, and `at` gives for every stored key its
leaf. All conditions of `Tree` speak of one node and its children. */
module RadixTree {
  import opened Digits

  /** A tagged pointer: the low bit of the C pointer tells leaves from inner nodes. */
  datatype Ptr = Null | Inner(id: nat) | Tagged(id: nat)

  /** A `void *`: NULL, a caller's pointer, or the link of a free list of leaves. */
  datatype Word = Nil | User(v: int) | Link(id: nat)

  /** `sh` is the number of the digit that selects a child (the C field `shift` divided by 4). */
  datatype Node = Node(child: seq<Ptr>, path: Key, sh: nat)
  datatype Leaf = Leaf(key: Key, value: Word)

  datatype Mem = Mem(root: Ptr, nodes: map<nat, Node>, leaves: map<nat, Leaf>)

  /** Where a pointer is stored: in the root field or in slot i of node n. */
  datatype Place = Top | Slot(n: nat, i: nat)

  predicate Alloc(m: Mem, p: Ptr) {
    match p
    case Null => true
    case Inner(n) => n in m.nodes
    case Tagged(l) => l in m.leaves
  }

  /** The key of a leaf or the path of a node. */
  function Label(m: Mem, p: Ptr): Key
    requires p != Null && Alloc(m, p)
  {
    if p.Inner? then m.nodes[p.id].path else m.leaves[p.id].key
  }

  /** Height bound: strictly decreasing along every child pointer. */
  function Rank(m: Mem, p: Ptr): nat
    requires Alloc(m, p)
  {
    if p.Inner? then m.nodes[p.id].sh + 1 else 0
  }

  predicate GoodNode(z: Size, nd: Node) {
    && |nd.child| == z.a
    && nd.sh < z.d
    && Keyed(z, nd.path)
    && nd.path == Masked(nd.path, nd.sh)
  }

  /** c may hang in slot i of node nd. */
  predicate Fits(m: Mem, c: Ptr, nd: Node, i: int) {
    && c != Null && Alloc(m, c)
    && Rank(m, c) <= nd.sh < |nd.path|
    && Agree(Label(m, c), nd.path, nd.sh)
    && Label(m, c)[nd.sh] == i
  }

  predicate Held(m: Mem, up: map<Ptr, Place>, p: Ptr) {
    p in up &&
    match up[p]
    case Top => m.root == p
    case Slot(n, i) =>
      Inner(n) in up && n in m.nodes && i < |m.nodes[n].child| && m.nodes[n].child[i] == p
  }

  /** Slot i of node n is empty or holds an object that fits there and knows its place. */
  predicate SlotOk(m: Mem, up: map<Ptr, Place>, n: nat, i: int)
    requires n in m.nodes && 0 <= i < |m.nodes[n].child|
  {
    var c := m.nodes[n].child[i];
    c != Null ==> c in up && up[c] == Slot(n, i) && Fits(m, c, m.nodes[n], i)
  }

  /** One linked object and, for a node, its slots. */
  ghost predicate ObjOk(z: Size, m: Mem, up: map<Ptr, Place>, p: Ptr)
    requires p != Null && Alloc(m, p)
  {
    && Held(m, up, p)
    && (p.Tagged? ==> Keyed(z, m.leaves[p.id].key))
    && (p.Inner? ==>
          && GoodNode(z, m.nodes[p.id])
          && forall i {:trigger SlotOk(m, up, p.id, i)} :: 0 <= i < z.a ==> SlotOk(m, up, p.id, i))
  }

  ghost predicate Linked(z: Size, m: Mem, up: map<Ptr, Place>) {
    && (m.root != Null ==> m.root in up && up[m.root] == Top)
    && (forall p :: p in up ==> p != Null && Alloc(m, p))
    && (forall p {:trigger ObjOk(z, m, up, p)} :: p in up ==> ObjOk(z, m, up, p))
  }

  ghost predicate Indexed(m: Mem, up: map<Ptr, Place>, at: map<Key, nat>)
    requires forall l :: Tagged(l) in up ==> l in m.leaves
  {
    && (forall k :: k in at ==> Tagged(at[k]) in up && m.leaves[at[k]].key == k)
    && (forall l :: Tagged(l) in up ==> m.leaves[l].key in at && at[m.leaves[l].key] == l)
  }

  ghost predicate TwoChildren(nd: Node) {
    exists i, j :: 0 <= i < j < |nd.child| && nd.child[i] != Null && nd.child[j] != Null
  }

  /** Every linked node has two children, but for the node `thin` that a remove is working on. */
  ghost predicate Bushy(m: Mem, up: map<Ptr, Place>, thin: Ptr) {
    forall n {:trigger TwoChildren(m.nodes[n])} ::
      Inner(n) in up && Inner(n) != thin && n in m.nodes ==> TwoChildren(m.nodes[n])
  }

  ghost predicate Tree(z: Size, m: Mem, up: map<Ptr, Place>, at: map<Key, nat>, thin: Ptr) {
    Linked(z, m, up) && Indexed(m, up, at) && Bushy(m, up, thin)
  }

  /** The stored entries. */
  ghost function Entries(m: Mem, at: map<Key, nat>): (r: map<Key, Word>)
    requires forall k :: k in at ==> at[k] in m.leaves
  {
    map k | k in at :: m.leaves[at[k]].value
  }

  // ---------------------------------------------------------------------------------------
  // The blind dive

  /** Following only the digit that each node examines, key k leads from p to t. */
  ghost predicate Leads(m: Mem, p: Ptr, k: Key, t: Ptr)
    requires Alloc(m, p)
    decreases Rank(m, p)
  {
    p == t ||
    (p.Inner? &&
     var nd := m.nodes[p.id];
     nd.sh < |k| && 0 <= k[nd.sh] < |nd.child| &&
     var c := nd.child[k[nd.sh]];
     Alloc(m, c) && Rank(m, c) <= nd.sh && Leads(m, c, k, t))
  }

  /** p may have the key k below it: k is p's key, or agrees with the path of p. */
  predicate Covers(m: Mem, p: Ptr, k: Key)
    requires p != Null && Alloc(m, p)
  {
    if p.Inner? then Agree(k, m.nodes[p.id].path, m.nodes[p.id].sh) else m.leaves[p.id].key == k
  }

  /** t lies strictly below node p as far as its label tells. */
  predicate Under(m: Mem, p: Ptr, t: Ptr)
    requires p != Null && Alloc(m, p) && t != Null && Alloc(m, t)
  {
    p.Inner? && Rank(m, t) < Rank(m, p) && Agree(Label(m, t), m.nodes[p.id].path, m.nodes[p.id].sh)
  }

  /** Climbing from a node on k's way reaches the root, so k leads from the root. */
  lemma {:induction false} Climb(z: Size, m: Mem, up: map<Ptr, Place>, p: Ptr, k: Key, t: Ptr)
    requires Linked(z, m, up) && p in up && Keyed(z, k)
    requires Covers(m, p, k) || (p.Inner? && k == Label(m, p)) 
    requires Leads(m, p, k, t)
    ensures m.root != Null && Leads(m, m.root, k, t)
    decreases z.d - Rank(m, p)
  {
    assert ObjOk(z, m, up, p);
    match up[p]
    case Top =>
    case Slot(n, i) =>
      var nd := m.nodes[n];
      assert ObjOk(z, m, up, Inner(n)) && SlotOk(m, up, n, i);
      assert k[nd.sh] == i;
      assert Leads(m, Inner(n), k, t);
      Climb(z, m, up, Inner(n), k, t);
  }

  /** The label of every linked object leads from the root to it. */
  lemma RootLeads(z: Size, m: Mem, up: map<Ptr, Place>, t: Ptr)
    requires Linked(z, m, up) && t in up
    ensures m.root != Null && Leads(m, m.root, Label(m, t), t)
  {
    assert ObjOk(z, m, up, t);
    Climb(z, m, up, t, Label(m, t), t);
  }

  /** A linked node whose path agrees with the label of a linked object is an ancestor of it. */
  lemma {:induction false} OnPath(z: Size, m: Mem, up: map<Ptr, Place>, p: Ptr, t: Ptr)
    requires Linked(z, m, up) && p in up && t in up && Under(m, p, t)
    ensures Leads(m, p, Label(m, t), t)
    decreases z.d - Rank(m, p)
  {
    assert ObjOk(z, m, up, p);
    match up[p]
    case Top => RootLeads(z, m, up, t);
    case Slot(n, i) =>
      var nd := m.nodes[n];
      assert ObjOk(z, m, up, Inner(n)) && SlotOk(m, up, n, i);
      OnPath(z, m, up, Inner(n), t);
      assert Label(m, t)[nd.sh] == i;
  }

  /** What a linked node leads to agrees with its path. */
  lemma {:induction false} LeadsUnder(z: Size, m: Mem, up: map<Ptr, Place>, p: Ptr, k: Key, t: Ptr)
    requires Linked(z, m, up) && p in up && t != Null && Leads(m, p, k, t)
    ensures t in up
    ensures p == t || Under(m, p, t)
    decreases Rank(m, p)
  {
    if p != t {
      var nd := m.nodes[p.id];
      assert ObjOk(z, m, up, p);
      var c := nd.child[k[nd.sh]];
      assert SlotOk(m, up, p.id, k[nd.sh]);
      LeadsUnder(z, m, up, c, k, t);
    }
  }

  lemma NoRootNothing(z: Size, m: Mem, up: map<Ptr, Place>)
    requires Linked(z, m, up) && m.root == Null
    ensures up == map[]
  {
    if up != map[] {
      var t :| t in up;
      RootLeads(z, m, up, t);
    }
  }

  /** The blind dive equals the full lookup: a dive that ends in a leaf with key k found the one
      leaf for k, and any other end means that k is absent. */
  lemma DiveDecides(z: Size, m: Mem, up: map<Ptr, Place>, at: map<Key, nat>, k: Key, e: Ptr)
    requires Linked(z, m, up) && Indexed(m, up, at) && Keyed(z, k) && Alloc(m, m.root)
    requires Leads(m, m.root, k, e) && (e.Tagged? || e == Null) && Alloc(m, e)
    ensures k in at <==> e.Tagged? && m.leaves[e.id].key == k
    ensures k in at ==> e == Tagged(at[k])
  {
    if k in at {
      RootLeads(z, m, up, Tagged(at[k]));
      LeadsOneEnd(m, m.root, k, Tagged(at[k]), e);
    } else if e.Tagged? {
      LeadsUnder(z, m, up, m.root, k, e);
    }
  }

  lemma {:induction false} LeadsOneEnd(m: Mem, p: Ptr, k: Key, e: Ptr, f: Ptr)
    requires Alloc(m, p) && Leads(m, p, k, e) && Leads(m, p, k, f)
    requires !e.Inner? && !f.Inner?
    ensures e == f
    decreases Rank(m, p)
  {
    if p.Inner? {
      LeadsOneEnd(m, m.nodes[p.id].child[k[m.nodes[p.id].sh]], k, e, f);
    }
  }
}
