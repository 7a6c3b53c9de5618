/** The trees on 64-bit words: a node given by the words of the C struct and the node of the model that it stands for
    take the same turn of a dive and get the same fork. */
module RadixWords {
  import opened Digits
  import opened RadixTree
  import opened RadixUpdates
  import opened KeyBits

  // ---------------------------------------------------------------------------------------
  // critnib.c: path and shift

  /** nd is the model of a critnib node with these fields. */
  predicate Shows(path: bv64, shift: bv64, nd: Node) {
    nd.sh < 16 && shift == Shift(nd.sh) && nd.path == ToKey(path)
  }

  /** critnib.c:208 as an index. */
  function SliceIndex(key: bv64, shift: bv64): (i: int)
    requires shift <= 63
    ensures 0 <= i < 16
  {
    Num(Nib(key, shift))
  }

  /** critnib.c:379-381: the dive goes on or stops alike, and takes the same slot. */
  lemma SameTurn(path: bv64, shift: bv64, nd: Node, key: bv64)
    requires Shows(path, shift, nd)
    ensures shift <= 60
    ensures Keep(key, shift) == path <==> Masked(ToKey(key), nd.sh) == nd.path
    ensures SliceIndex(key, shift) == ToKey(key)[nd.sh]
  {
    hide Keep, Nib, Num, Shift, Quad;
    PathTest(key, path, nd.sh);
  }

  /** critnib.c:396-408, 422-425: the new node's words stand for the fork of the model, and the two children go into
      the fork's slots. */
  lemma SameFork(path: bv64, key: bv64, l: nat, x: Ptr)
    requires path != key
    ensures Xor(path, key) != 0
    ensures var sh := Round(Mssb(Xor(path, key)));
            && sh <= 60
            && ToKey(path) != ToKey(key)
            && var fork := Fork(SZ, ToKey(key), l, ToKey(path), x, TopDiff(ToKey(path), ToKey(key)));
            && Shows(Keep(key, sh), sh, fork)
            && SliceIndex(key, sh) != SliceIndex(path, sh)
            && fork.child == seq(16, _ => Null)[SliceIndex(key, sh) := Tagged(l)][SliceIndex(path, sh) := x]
  {
    hide Keep, Nib, Num, Shift, Quad, Round, Xor, Mssb, IsMssb, ToKey;
    XorZero(path, key);
    MssbIsTopDiff(path, key);
    PathMaskClears(key, TopDiff(ToKey(path), ToKey(key)));
  }

  /** critnib.c:611-616: find_le leaves the path alike, and to the same side. */
  lemma SameSide(path: bv64, shift: bv64, nd: Node, key: bv64)
    requires Shows(path, shift, nd) && GoodNode(SZ, nd)
    ensures shift <= 60
    ensures Above(key, path, shift) <==> Masked(ToKey(key), nd.sh) != nd.path
    ensures path < key <==> Less(nd.path, ToKey(key))
  {
    hide Above, Nib, Num, Shift, Quad, ToKey, Less;
    OutOfPath(key, path, nd.sh);
    MaskedMatch(ToKey(key), nd.path, nd.sh);
    KeyOrder(path, key);
  }

  // ---------------------------------------------------------------------------------------
  // critbit.c: path and bit

  /** nd is the model of a critbit node with these fields. */
  predicate ShowsBit(path: bv64, bit: bv64, nd: Node) {
    nd.sh < 64 && bit == One(Pos(63 - nd.sh)) && nd.path == ToBits(path)
  }

  /** critbit.c:131-133: the dive goes on or stops alike, and takes the same child. */
  lemma SameBitTurn(path: bv64, bit: bv64, nd: Node, key: bv64)
    requires ShowsBit(path, bit, nd)
    ensures KeepLow(key, Pos(63 - nd.sh)) == path <==> Masked(ToBits(key), nd.sh) == nd.path
    ensures Picks(Pos(63 - nd.sh), key) <==> ToBits(key)[nd.sh] == 1
  {
    hide KeepLow, Picks, One, Pos, ToBits;
    LowTest(key, path, nd.sh);
    BitSelects(key, nd.sh);
  }

  /** critbit.c:138-148: the new node's words stand for the fork of the model, and the two children go into the
      fork's slots. */
  lemma SameBitFork(path: bv64, key: bv64, l: nat, x: Ptr)
    requires path != key
    ensures ToBits(path) != ToBits(key)
    ensures var s := TopDiff(ToBits(path), ToBits(key));
            && var fork := Fork(BITS, ToBits(key), l, ToBits(path), x, s);
            && ShowsBit(KeepLow(key, Pos(63 - s)), Lowest(Xor(path, key)), fork)
            && (Picks(Pos(63 - s), key) ==> fork.child == [x, Tagged(l)])
            && (!Picks(Pos(63 - s), key) ==> fork.child == [Tagged(l), x])
  {
    hide KeepLow, Picks, One, Pos, ToBits, Lowest, Xor;
    LowestDiff(path, key);
    var s := TopDiff(ToBits(path), ToBits(key));
    LowMask(key, s);
    BitSelects(key, s);
  }

  /** Inserting a key that is there already: `at` is 0, so the new node has no bit and the key as its path, which makes
      it a leaf whose value is the address of the new leaf. */
  lemma DuplicateIsNoFork(key: bv64)
    ensures Lowest(Xor(key, key)) == 0
    ensures key & (Lowest(Xor(key, key)) - 1) == key
  {
    SelfXor(key);
    assert Lowest(0) == 0;
    AllOnes(key);
  }

  lemma SelfXor(key: bv64)
    ensures Xor(key, key) == 0
  {
  }

  lemma AllOnes(key: bv64)
    ensures key & (0 - 1) == key
  {
  }
}
