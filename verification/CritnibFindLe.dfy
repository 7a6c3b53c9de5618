/** critnib_find_le on a tree that nobody is changing: the entry with the greatest key that is not
    greater than the one asked for. */
module CritnibFindLe {
  import opened Digits
  import opened RadixTree
  import opened RadixParts
  import opened CritnibShape

  ghost function ValueOf(g: Grown, k: Key): Word
    requires k in g.at && g.at[k] in g.m.leaves
  {
    g.m.leaves[g.at[k]].value
  }

  /** res is the value of the greatest key below p that is not greater than q. */
  ghost predicate Greatest(g: Grown, p: Ptr, q: Key, k: Key, res: Word)
    requires Alloc(g.m, p)
  {
    && k in Below(g.m, g.at, p) && g.at[k] in g.m.leaves && res == ValueOf(g, k) && LessEq(k, q)
    && forall k' :: k' in Below(g.m, g.at, p) && LessEq(k', q) ==> LessEq(k', k)
  }

  ghost predicate NoneLe(g: Grown, p: Ptr, q: Key)
    requires Alloc(g.m, p)
  {
    forall k :: k in Below(g.m, g.at, p) ==> !LessEq(k, q)
  }

  /** res is the value of the greatest key below p. */
  ghost predicate Last(g: Grown, p: Ptr, k: Key, res: Word)
    requires Alloc(g.m, p)
  {
    && k in Below(g.m, g.at, p) && g.at[k] in g.m.leaves && res == ValueOf(g, k)
    && forall k' :: k' in Below(g.m, g.at, p) ==> LessEq(k', k)
  }

  // ---------------------------------------------------------------------------------------
  // Order and digits

  /** Two keys below a node compare by its digit, if they differ there. */
  lemma ByDigit(z: Size, g: Grown, n: nat, k: Key, k': Key)
    requires Sound(z, g) && Inner(n) in g.up && k in Below(g.m, g.at, Inner(n)) && k' in Below(g.m, g.at, Inner(n))
    ensures GoodNode(z, g.m.nodes[n]) && |k| == |k'| == z.d
    ensures k[g.m.nodes[n].sh] < k'[g.m.nodes[n].sh] ==> Less(k, k')
  {
    GoodLinked(z, g.m, g.up, n);
    var sh := g.m.nodes[n].sh;
    if k[sh] < k'[sh] { LessAt(k, k', sh); }
  }

  /** A key whose digit at n is d lies in slot d, which is not empty. */
  lemma InItsSlot(z: Size, g: Grown, n: nat, k: Key)
    requires Sound(z, g) && Inner(n) in g.up && k in Below(g.m, g.at, Inner(n))
    ensures GoodNode(z, g.m.nodes[n]) && |k| == z.d && 0 <= k[g.m.nodes[n].sh] < z.a
    ensures var c := g.m.nodes[n].child[k[g.m.nodes[n].sh]];
            c != Null && Alloc(g.m, c) && c in g.up && k in Below(g.m, g.at, c)
  {
    GoodLinked(z, g.m, g.up, n);
    assert ObjOk(z, g.m, g.up, Tagged(g.at[k]));
    SlotKeys(z, g.m, g.up, g.at, n, k[g.m.nodes[n].sh], k);
    ChildLinked(z, g.m, g.up, n, k[g.m.nodes[n].sh]);
  }

  /** The greatest key of the last occupied slot up to i is the greatest among all slots up to i. */
  lemma LastSlot(z: Size, g: Grown, n: nat, i: nat, k: Key, res: Word, k': Key)
    requires Sound(z, g) && Inner(n) in g.up && GoodNode(z, g.m.nodes[n]) && i < z.a && g.m.nodes[n].child[i] != Null
    requires Alloc(g.m, g.m.nodes[n].child[i]) && Last(g, g.m.nodes[n].child[i], k, res)
    requires k' in Below(g.m, g.at, Inner(n)) && |k'| == z.d && k'[g.m.nodes[n].sh] <= i
    ensures k in Below(g.m, g.at, Inner(n)) && LessEq(k', k)
  {
    InSlot(z, g.m, g.up, g.at, n, i, k);
    InItsSlot(z, g, n, k');
    ByDigit(z, g, n, k', k);
  }

  // ---------------------------------------------------------------------------------------
  // find_successor

  /** critnib.c:576-581: the last occupied slot. */
  method LastChild(nd: Node) returns (nib: int)
    requires |nd.child| == 16
    ensures -1 <= nib < 16 && (nib >= 0 ==> nd.child[nib] != Null)
    ensures forall j :: nib < j < 16 ==> nd.child[j] == Null
  {
    nib := 15;
    while nib >= 0 && nd.child[nib] == Null
      invariant -1 <= nib < 16 && forall j :: nib < j < 16 ==> nd.child[j] == Null
    {
      nib := nib - 1;
    }
  }

  /** The greatest key of the last child is the greatest of the node. */
  lemma LastOfNode(g: Grown, n: nat, nib: nat, k: Key, res: Word)
    requires Sound(SZ, g) && Inner(n) in g.up && GoodNode(SZ, g.m.nodes[n])
    requires nib < 16 && g.m.nodes[n].child[nib] != Null && forall j :: nib < j < 16 ==> g.m.nodes[n].child[j] == Null
    requires Alloc(g.m, g.m.nodes[n].child[nib]) && Last(g, g.m.nodes[n].child[nib], k, res)
    ensures Last(g, Inner(n), k, res)
  {
    InSlot(SZ, g.m, g.up, g.at, n, nib, k);
    forall k' | k' in Below(g.m, g.at, Inner(n)) ensures LessEq(k', k) {
      InItsSlot(SZ, g, n, k');
      LastSlot(SZ, g, n, nib, k, res, k');
    }
  }

  lemma LeafIsLast(g: Grown, l: nat)
    requires Sound(SZ, g) && Tagged(l) in g.up
    ensures Last(g, Tagged(l), g.m.leaves[l].key, g.m.leaves[l].value)
  {
  }

  /** What is last below the child is last below p. */
  ghost predicate Narrows(g: Grown, p: Ptr, c: Ptr)
    requires Alloc(g.m, p) && Alloc(g.m, c)
  {
    forall k, v :: Last(g, c, k, v) ==> Last(g, p, k, v)
  }

  /** critnib.c:571-587: the rightmost value of a subtree. */
  method FindSuccessor(mem: Mem, n: nat, ghost g: Grown) returns (res: Word)
    requires g.m == mem && Sound(SZ, g) && Inner(n) in g.up
    ensures exists k :: Last(g, Inner(n), k, res)
  {
    var m := n;
    while true
      invariant Inner(m) in g.up && Narrows(g, Inner(n), Inner(m))
      decreases Rank(mem, Inner(m))
    {
      GoodLinked(SZ, g.m, g.up, m);
      var nib := LastChild(mem.nodes[m]);
      assert nib >= 0 by { assert TwoChildren(mem.nodes[m]); }
      ChildLinked(SZ, g.m, g.up, m, nib);
      var c := mem.nodes[m].child[nib];
      forall k, v | Last(g, c, k, v) ensures Last(g, Inner(n), k, v) { LastOfNode(g, m, nib, k, v); }
      if c.Tagged? {
        LeafIsLast(g, c.id);
        assert Last(g, Inner(n), mem.leaves[c.id].key, mem.leaves[c.id].value);
        return mem.leaves[c.id].value;
      }
      m := c.id;
    }
  }

  // ---------------------------------------------------------------------------------------
  // find_le

  /** res is the value of some key below p that is not greater than q. */
  ghost predicate Some(g: Grown, p: Ptr, q: Key, k: Key, res: Word)
    requires Alloc(g.m, p)
  {
    k in Below(g.m, g.at, p) && g.at[k] in g.m.leaves && res == ValueOf(g, k) && LessEq(k, q)
  }

  /** What find_le promises for the subtree at p: NULL if no key is small enough; otherwise the value of the greatest
      such key if that value is not NULL, and if it is, NULL or the value of a smaller key. */
  ghost predicate Found(g: Grown, p: Ptr, q: Key, res: Word)
    requires Alloc(g.m, p)
  {
    || (res == Nil && NoneLe(g, p, q))
    || (&& (exists k, v :: Greatest(g, p, q, k, v) && (v == Nil || v == res))
        && (res != Nil ==> exists k :: Some(g, p, q, k, res)))
  }

  lemma FoundGreatest(g: Grown, p: Ptr, q: Key, k: Key, res: Word)
    requires Alloc(g.m, p) && Greatest(g, p, q, k, res)
    ensures Found(g, p, q, res)
  {
    assert Some(g, p, q, k, res);
  }

  /** A node off the path of q lies wholly to one side of q. */
  lemma OffPath(g: Grown, n: nat, q: Key, k: Key)
    requires Sound(SZ, g) && Inner(n) in g.up && Keyed(SZ, q) && !Covers(g.m, Inner(n), q)
    requires k in Below(g.m, g.at, Inner(n))
    ensures Less(g.m.nodes[n].path, q) ==> Less(k, q)
    ensures !Less(g.m.nodes[n].path, q) ==> !LessEq(k, q)
  {
    GoodLinked(SZ, g.m, g.up, n);
    var path := g.m.nodes[n].path;
    var t := TopDiff(path, q);
    LessAt(path, q, t);
    LessAt(k, q, t);
  }

  lemma OffPathLeft(g: Grown, n: nat, q: Key, k: Key, res: Word)
    requires Sound(SZ, g) && Inner(n) in g.up && Keyed(SZ, q) && !Covers(g.m, Inner(n), q) && Less(g.m.nodes[n].path, q)
    requires Last(g, Inner(n), k, res)
    ensures Greatest(g, Inner(n), q, k, res)
  {
    OffPath(g, n, q, k);
  }

  lemma OffPathRight(g: Grown, n: nat, q: Key)
    requires Sound(SZ, g) && Inner(n) in g.up && Keyed(SZ, q) && !Covers(g.m, Inner(n), q)
    requires !Less(g.m.nodes[n].path, q)
    ensures NoneLe(g, Inner(n), q)
  {
    forall k | k in Below(g.m, g.at, Inner(n)) ensures !LessEq(k, q) {
      OffPath(g, n, q, k);
    }
  }

  /** On the path, a key compares with q by the digit of the node, if they differ there. */
  lemma OnPathOrder(g: Grown, n: nat, q: Key, k: Key)
    requires Sound(SZ, g) && Inner(n) in g.up && Keyed(SZ, q) && Covers(g.m, Inner(n), q)
    requires k in Below(g.m, g.at, Inner(n))
    ensures GoodNode(SZ, g.m.nodes[n]) && |k| == 16
    ensures k[g.m.nodes[n].sh] < q[g.m.nodes[n].sh] ==> Less(k, q)
    ensures k[g.m.nodes[n].sh] > q[g.m.nodes[n].sh] ==> !LessEq(k, q)
  {
    GoodLinked(SZ, g.m, g.up, n);
    if k[g.m.nodes[n].sh] != q[g.m.nodes[n].sh] { LessAt(k, q, g.m.nodes[n].sh); }
  }

  /** The answer of the slot on the path is the answer of the node. */
  lemma PathSlot(g: Grown, n: nat, q: Key, k: Key, res: Word)
    requires Sound(SZ, g) && Inner(n) in g.up && Keyed(SZ, q) && Covers(g.m, Inner(n), q) && GoodNode(SZ, g.m.nodes[n])
    requires var c := g.m.nodes[n].child[q[g.m.nodes[n].sh]]; Alloc(g.m, c) && Greatest(g, c, q, k, res)
    ensures Greatest(g, Inner(n), q, k, res)
  {
    var sh := g.m.nodes[n].sh;
    InSlot(SZ, g.m, g.up, g.at, n, q[sh], k);
    forall k' | k' in Below(g.m, g.at, Inner(n)) && LessEq(k', q) ensures LessEq(k', k) {
      InItsSlot(SZ, g, n, k');
      OnPathOrder(g, n, q, k');
      ByDigit(SZ, g, n, k', k);
    }
  }

  /** An answer of the slot on the path is one of the node. */
  lemma PathFound(g: Grown, n: nat, q: Key, res: Word)
    requires Sound(SZ, g) && Inner(n) in g.up && Keyed(SZ, q) && Covers(g.m, Inner(n), q) && GoodNode(SZ, g.m.nodes[n])
    requires var c := g.m.nodes[n].child[q[g.m.nodes[n].sh]]; Alloc(g.m, c) && Found(g, c, q, res) && res != Nil
    ensures Found(g, Inner(n), q, res)
  {
    var c := g.m.nodes[n].child[q[g.m.nodes[n].sh]];
    var k, v :| Greatest(g, c, q, k, v) && (v == Nil || v == res);
    PathSlot(g, n, q, k, v);
    var k' :| Some(g, c, q, k', res);
    InSlot(SZ, g.m, g.up, g.at, n, q[g.m.nodes[n].sh], k');
    assert Some(g, Inner(n), q, k', res);
  }

  /** The same when the slot on the path gave NULL and slot i to its left gives the answer. */
  lemma LeftFound(g: Grown, n: nat, q: Key, i: nat, k: Key, res: Word)
    requires Sound(SZ, g) && Inner(n) in g.up && Keyed(SZ, q) && Covers(g.m, Inner(n), q) && GoodNode(SZ, g.m.nodes[n])
    requires var c := g.m.nodes[n].child[q[g.m.nodes[n].sh]]; Alloc(g.m, c) && Found(g, c, q, Nil)
    requires i < q[g.m.nodes[n].sh] && g.m.nodes[n].child[i] != Null
    requires forall j :: i < j < q[g.m.nodes[n].sh] ==> g.m.nodes[n].child[j] == Null
    requires Alloc(g.m, g.m.nodes[n].child[i]) && Last(g, g.m.nodes[n].child[i], k, res)
    ensures Found(g, Inner(n), q, res)
  {
    var c := g.m.nodes[n].child[q[g.m.nodes[n].sh]];
    if NoneLe(g, c, q) {
      LeftSlot(g, n, q, i, k, res);
      FoundGreatest(g, Inner(n), q, k, res);
    } else {
      var k0, v :| Greatest(g, c, q, k0, v) && v == Nil;
      PathSlot(g, n, q, k0, v);
      InSlot(SZ, g.m, g.up, g.at, n, i, k);
      OnPathOrder(g, n, q, k);
      assert Some(g, Inner(n), q, k, res);
    }
  }

  /** The same when no slot to the left is occupied. */
  lemma NoneFound(g: Grown, n: nat, q: Key)
    requires Sound(SZ, g) && Inner(n) in g.up && Keyed(SZ, q) && Covers(g.m, Inner(n), q) && GoodNode(SZ, g.m.nodes[n])
    requires var c := g.m.nodes[n].child[q[g.m.nodes[n].sh]]; Alloc(g.m, c) && Found(g, c, q, Nil)
    requires forall j :: 0 <= j < q[g.m.nodes[n].sh] ==> g.m.nodes[n].child[j] == Null
    ensures Found(g, Inner(n), q, Nil)
  {
    var c := g.m.nodes[n].child[q[g.m.nodes[n].sh]];
    if NoneLe(g, c, q) {
      NoSlot(g, n, q);
    } else {
      var k, v :| Greatest(g, c, q, k, v) && v == Nil;
      PathSlot(g, n, q, k, v);
    }
  }

  /** No answer in the slot on the path: the last occupied slot to the left holds it. */
  lemma LeftSlot(g: Grown, n: nat, q: Key, i: nat, k: Key, res: Word)
    requires Sound(SZ, g) && Inner(n) in g.up && Keyed(SZ, q) && Covers(g.m, Inner(n), q) && GoodNode(SZ, g.m.nodes[n])
    requires var c := g.m.nodes[n].child[q[g.m.nodes[n].sh]]; Alloc(g.m, c) && NoneLe(g, c, q)
    requires i < q[g.m.nodes[n].sh] && g.m.nodes[n].child[i] != Null
    requires forall j :: i < j < q[g.m.nodes[n].sh] ==> g.m.nodes[n].child[j] == Null
    requires Alloc(g.m, g.m.nodes[n].child[i]) && Last(g, g.m.nodes[n].child[i], k, res)
    ensures Greatest(g, Inner(n), q, k, res)
  {
    var sh := g.m.nodes[n].sh;
    InSlot(SZ, g.m, g.up, g.at, n, i, k);
    OnPathOrder(g, n, q, k);
    forall k' | k' in Below(g.m, g.at, Inner(n)) && LessEq(k', q) ensures LessEq(k', k) {
      InItsSlot(SZ, g, n, k');
      OnPathOrder(g, n, q, k');
      LastSlot(SZ, g, n, i, k, res, k');
    }
  }

  lemma NoSlot(g: Grown, n: nat, q: Key)
    requires Sound(SZ, g) && Inner(n) in g.up && Keyed(SZ, q) && Covers(g.m, Inner(n), q) && GoodNode(SZ, g.m.nodes[n])
    requires var c := g.m.nodes[n].child[q[g.m.nodes[n].sh]]; Alloc(g.m, c) && NoneLe(g, c, q)
    requires forall j :: 0 <= j < q[g.m.nodes[n].sh] ==> g.m.nodes[n].child[j] == Null
    ensures NoneLe(g, Inner(n), q)
  {
    forall k' | k' in Below(g.m, g.at, Inner(n)) ensures !LessEq(k', q) {
      InItsSlot(SZ, g, n, k');
      OnPathOrder(g, n, q, k');
    }
  }

  /** critnib.c:592-654 */
  method FindLe(mem: Mem, p: Ptr, q: Key, ghost g: Grown) returns (res: Word)
    requires g.m == mem && Sound(SZ, g) && At(g, p) && Keyed(SZ, q)
    ensures Alloc(g.m, p) && Found(g, p, q, res)
    decreases if p == Null then 0 else Rank(mem, p)
  {
    if p == Null { return Nil; }
    if p.Tagged? {
      res := if LessEq(mem.leaves[p.id].key, q) then mem.leaves[p.id].value else Nil;
      LeafFound(g, p.id, q);
      return;
    }
    ghost var k: Key;
    var n := p.id;
    var nd := mem.nodes[n];
    GoodLinked(SZ, g.m, g.up, n);
    MaskedMatch(q, nd.path, nd.sh);
    if Masked(q, nd.sh) != nd.path {
      if Less(nd.path, q) {
        res := FindSuccessor(mem, n, g);
        k :| Last(g, Inner(n), k, res);
        OffPathLeft(g, n, q, k, res);
        FoundGreatest(g, Inner(n), q, k, res);
      } else {
        OffPathRight(g, n, q);
        res := Nil;
      }
      return;
    }
    ChildLinked(SZ, g.m, g.up, n, q[nd.sh]);
    res := FindLe(mem, nd.child[q[nd.sh]], q, g);
    if res != Nil {
      PathFound(g, n, q, res);
      return;
    }
    res := FindLeft(mem, n, q, g);
  }

  /** critnib.c:641-653: the first occupied slot to the left of the path. */
  method FindLeft(mem: Mem, n: nat, q: Key, ghost g: Grown) returns (res: Word)
    requires g.m == mem && Sound(SZ, g) && Inner(n) in g.up && GoodNode(SZ, mem.nodes[n])
    requires Keyed(SZ, q) && Covers(mem, Inner(n), q)
    requires var c := mem.nodes[n].child[q[mem.nodes[n].sh]]; Alloc(mem, c) && Found(g, c, q, Nil)
    ensures Found(g, Inner(n), q, res)
  {
    var nd := mem.nodes[n];
    var nib := q[nd.sh] - 1;
    while nib >= 0
      invariant -1 <= nib < q[nd.sh]
      invariant forall j :: nib < j < q[nd.sh] ==> nd.child[j] == Null
    {
      var m := nd.child[nib];
      if m != Null {
        ghost var k: Key;
        ChildLinked(SZ, g.m, g.up, n, nib);
        if m.Tagged? {
          LeafIsLast(g, m.id);
          res, k := mem.leaves[m.id].value, mem.leaves[m.id].key;
        } else {
          res := FindSuccessor(mem, m.id, g);
          k :| Last(g, m, k, res);
        }
        LeftFound(g, n, q, nib, k, res);
        return;
      }
      nib := nib - 1;
    }
    NoneFound(g, n, q);
    res := Nil;
  }

  lemma LeafFound(g: Grown, l: nat, q: Key)
    requires Sound(SZ, g) && Tagged(l) in g.up
    ensures Found(g, Tagged(l), q, if LessEq(g.m.leaves[l].key, q) then g.m.leaves[l].value else Nil)
  {
    var key := g.m.leaves[l].key;
    if LessEq(key, q) { FoundGreatest(g, Tagged(l), q, key, g.m.leaves[l].value); }
  }
}
