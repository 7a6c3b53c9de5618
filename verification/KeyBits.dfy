/** The bit expressions of the C code on 64-bit keys are the digit operations of module `Digits`. */
module KeyBits {
  import opened Digits

  // ---------------------------------------------------------------------------------------
  // Shift amounts

  /** A multiple of 4 below 64. */
  predicate Quad(u: bv64) { u <= 60 && u & 3 == 0 }

  /** u & ~(SLICE - 1) */
  function Round(u: bv64): bv64 { u & !3 }

  /** x ^ y */
  function Xor(x: bv64, y: bv64): bv64 { x ^ y }

  /** 4 * j */
  function Shift(j: nat): (u: bv64)
    requires j < 16
    ensures Quad(u) && u <= 60
  {
    (if j >= 8 then 32 else 0) + (if j % 8 >= 4 then 16 else 0) + (if j % 4 >= 2 then 8 else 0) + (if j % 2 >= 1 then 4
      else 0)
  }

  lemma ShiftOrder(i: nat, j: nat)
    requires i < j < 16
    ensures Shift(i) < Shift(j)
  {
  }

  /** The digit that a bit is in. */
  function DigitOf(u: bv64): (j: nat)
    requires u <= 63
    ensures j < 16 && Shift(j) == Round(u)
  {
    (if u & 32 != 0 then 8 else 0) + (if u & 16 != 0 then 4 else 0) + (if u & 8 != 0 then 2
      else 0) + (if u & 4 != 0 then 1 else 0)
  }

  /** m is the index of the most significant set bit of x. */
  predicate IsMssb(x: bv64, m: bv64) { m <= 63 && x >> m == 1 }

  /** util_mssb_index64 */
  function Mssb(x: bv64): (m: bv64)
    requires x != 0
    ensures m <= 63 && IsMssb(x, m)
    decreases x
  {
    if x == 1 then 0
    else
      MssbDown(x);
      var m := Mssb(x >> 1);
      MssbUp(x, m);
      m + 1
  }

  lemma MssbDown(x: bv64)
    requires x != 0 && x != 1
    ensures x >> 1 != 0 && x >> 1 < x
  {
  }

  lemma MssbUp(x: bv64, m: bv64)
    requires IsMssb(x >> 1, m)
    ensures m <= 62 && IsMssb(x, m + 1)
  {
  }

  lemma XorZero(x: bv64, y: bv64)
    ensures Xor(x, y) == 0 <==> x == y
  {
  }

  // ---------------------------------------------------------------------------------------
  // Nibbles: critnib.c and tcradix.c

  /** slice_index(key, shift), and sl(key, lev) with shift 4 * lev. */
  function Nib(x: bv64, u: bv64): (r: bv64)
    requires u <= 63
    ensures r <= 15
  {
    (x >> u) & 15
  }

  function Num(b: bv64): (r: int)
    ensures 0 <= r < 16
  {
    (if b & 8 != 0 then 8 else 0) + (if b & 4 != 0 then 4 else 0) + (if b & 2 != 0 then 2
      else 0) + (if b & 1 != 0 then 1 else 0)
  }

  lemma NumOrder(a: bv64, b: bv64)
    requires a <= 15 && b <= 15
    ensures Num(a) < Num(b) <==> a < b
    ensures Num(a) == Num(b) <==> a == b
  {
  }

  lemma NumZero()
    ensures Num(0) == 0
  {
  }

  function Digit(x: bv64, j: int): (r: int)
    requires 0 <= j < 16
    ensures 0 <= r < 16
  {
    Num(Nib(x, Shift(j)))
  }

  /** The sixteen nibbles, the lowest first. */
  function ToKey(x: bv64): (k: Key)
    ensures Keyed(Size(16, 16), k) && forall j :: 0 <= j < 16 ==> k[j] == Digit(x, j)
  {
    seq(16, j requires 0 <= j < 16 => Digit(x, j))
  }

  /** util_mssb_index64(x ^ y) & ~(SLICE - 1), as a digit. */
  function TopDigit(x: bv64, y: bv64): (s: nat)
    requires x != y
    ensures s < 16
  {
    XorZero(x, y);
    DigitOf(Mssb(Xor(x, y)))
  }

  lemma TopNibble(x: bv64, y: bv64, m: bv64, u: bv64)
    requires IsMssb(Xor(x, y), m) && Quad(u) && u <= 60
    ensures u == Round(m) ==> Nib(x, u) != Nib(y, u)
    ensures u > Round(m) ==> Nib(x, u) == Nib(y, u)
  {
  }

  lemma TopDigitDiffers(x: bv64, y: bv64)
    requires x != y
    ensures Digit(x, TopDigit(x, y)) != Digit(y, TopDigit(x, y))
  {
    hide Nib, Num, Shift, DigitOf, Mssb, IsMssb, Quad, Xor, Round;
    XorZero(x, y);
    var u := Shift(TopDigit(x, y));
    TopNibble(x, y, Mssb(Xor(x, y)), u);
    NumOrder(Nib(x, u), Nib(y, u));
  }

  lemma TopDigitAbove(x: bv64, y: bv64, j: nat)
    requires x != y && TopDigit(x, y) < j < 16
    ensures Digit(x, j) == Digit(y, j)
  {
    hide Nib, Num, Shift, DigitOf, Mssb, IsMssb, Quad, Xor, Round;
    XorZero(x, y);
    ShiftOrder(TopDigit(x, y), j);
    TopNibble(x, y, Mssb(Xor(x, y)), Shift(j));
  }

  lemma TopDigitIsTopDiff(x: bv64, y: bv64)
    requires x != y
    ensures ToKey(x) != ToKey(y) && TopDiff(ToKey(x), ToKey(y)) == TopDigit(x, y)
  {
    hide Digit, TopDigit;
    var s, a, b := TopDigit(x, y), ToKey(x), ToKey(y);
    TopDigitDiffers(x, y);
    assert a[s] != b[s];
    forall j | s < j < 16 ensures a[j] == b[j] { TopDigitAbove(x, y, j); }
    LessAt(a, b, s);
  }

  /** critnib.c:408: the shift of a new node is at the highest digit where path and key differ. */
  lemma MssbIsTopDiff(x: bv64, y: bv64)
    requires x != y
    ensures Xor(x, y) != 0 && ToKey(x) != ToKey(y)
    ensures Round(Mssb(Xor(x, y))) == Shift(TopDiff(ToKey(x), ToKey(y)))
  {
    hide ToKey, Shift, DigitOf, Mssb, IsMssb, Quad, Xor, Round;
    XorZero(x, y);
    TopDigitIsTopDiff(x, y);
  }

  /** critnib.c:395, 492, 560: comparing keys as words is comparing all digits. */
  lemma SameKey(x: bv64, y: bv64)
    ensures x == y <==> ToKey(x) == ToKey(y)
  {
    hide ToKey, TopDigit;
    if x != y { TopDigitIsTopDiff(x, y); }
  }

  /** path_mask */
  function PathMask(t: bv64): bv64
    requires t <= 60
  {
    var nib: bv64 := 15;
    !nib << t
  }

  /** x & path_mask(t) */
  function Keep(x: bv64, t: bv64): bv64
    requires t <= 60
  {
    x & PathMask(t)
  }

  /** (x ^ y) >> t & ~NIB: x and y differ above the digit at t. */
  predicate Above(x: bv64, y: bv64, t: bv64)
    requires t <= 60
  {
    ((x ^ y) >> t) & !15 != 0
  }

  function OnPath(x: bv64, s: nat): bv64
    requires s < 16
  {
    Keep(x, Shift(s))
  }

  lemma MaskKeeps(x: bv64, t: bv64)
    requires t <= 60
    ensures !Above(x, Keep(x, t), t)
  {
  }

  lemma MaskDrops(x: bv64, t: bv64, u: bv64)
    requires u <= t <= 60 && Quad(t) && Quad(u)
    ensures Nib(Keep(x, t), u) == 0
  {
  }

  lemma SameAbove(x: bv64, y: bv64, t: bv64, u: bv64)
    requires t < u <= 60 && Quad(t) && Quad(u) && !Above(x, y, t)
    ensures Nib(x, u) == Nib(y, u)
  {
  }

  lemma OnPathDigit(x: bv64, s: nat, j: nat)
    requires s < 16 && j < 16
    ensures Digit(OnPath(x, s), j) == if j <= s then 0 else Digit(x, j)
  {
    hide Nib, Num, Shift, Keep, Above, Quad;
    if j <= s {
      if j < s { ShiftOrder(j, s); }
      MaskDrops(x, Shift(s), Shift(j));
      NumZero();
    } else {
      ShiftOrder(s, j);
      MaskKeeps(x, Shift(s));
      SameAbove(x, OnPath(x, s), Shift(s), Shift(j));
    }
  }

  /** critnib.c:199, 425: key & path_mask(shift) clears the digits at and below the node's own. */
  lemma PathMaskClears(x: bv64, s: nat)
    requires s < 16
    ensures ToKey(Keep(x, Shift(s))) == Masked(ToKey(x), s)
  {
    hide Digit, OnPath;
    forall j | 0 <= j < 16 ensures ToKey(OnPath(x, s))[j] == Masked(ToKey(x), s)[j] {
      OnPathDigit(x, s, j);
    }
    OnPathIs(x, s);
  }

  lemma OnPathIs(x: bv64, s: nat)
    requires s < 16
    ensures OnPath(x, s) == Keep(x, Shift(s))
  {
  }

  /** critnib.c:379: the test of the insert dive. */
  lemma PathTest(key: bv64, path: bv64, s: nat)
    requires s < 16
    ensures Keep(key, Shift(s)) == path <==> Masked(ToKey(key), s) == ToKey(path)
  {
    hide Keep, ToKey, Shift;
    PathMaskClears(key, s);
    SameKey(Keep(key, Shift(s)), path);
  }

  lemma AboveMssb(x: bv64, y: bv64, t: bv64, m: bv64)
    requires t <= 60 && Quad(t) && IsMssb(Xor(x, y), m) && Above(x, y, t)
    ensures Round(m) > t
  {
  }

  lemma NotAboveMssb(x: bv64, y: bv64, t: bv64, m: bv64)
    requires t <= 60 && Quad(t) && IsMssb(Xor(x, y), m) && !Above(x, y, t)
    ensures Round(m) <= t
  {
  }

  lemma AboveSame(x: bv64, t: bv64)
    requires t <= 60
    ensures !Above(x, x, t)
  {
  }

  lemma AboveDigit(key: bv64, path: bv64, s: nat)
    requires s < 16 && key != path && Above(key, path, Shift(s))
    ensures TopDigit(key, path) > s
  {
    hide Shift, DigitOf, Mssb, IsMssb, Quad, Xor, Round, Above;
    XorZero(key, path);
    AboveMssb(key, path, Shift(s), Mssb(Xor(key, path)));
    if TopDigit(key, path) < s { ShiftOrder(TopDigit(key, path), s); }
  }

  lemma NotAboveDigit(key: bv64, path: bv64, s: nat)
    requires s < 16 && key != path && !Above(key, path, Shift(s))
    ensures TopDigit(key, path) <= s
  {
    hide Shift, DigitOf, Mssb, IsMssb, Quad, Xor, Round, Above;
    XorZero(key, path);
    NotAboveMssb(key, path, Shift(s), Mssb(Xor(key, path)));
    if s < TopDigit(key, path) { ShiftOrder(s, TopDigit(key, path)); }
  }

  /** critnib.c:611: the test whether a key leaves the path of a node. */
  lemma OutOfPath(key: bv64, path: bv64, s: nat)
    requires s < 16
    ensures Above(key, path, Shift(s)) <==> !Agree(ToKey(key), ToKey(path), s)
  {
    hide Shift, ToKey, TopDigit, Quad, Above;
    if key == path {
      AboveSame(key, Shift(s));
    } else {
      TopDigitIsTopDiff(key, path);
      if Above(key, path, Shift(s)) { AboveDigit(key, path, s); } else { NotAboveDigit(key, path, s); }
    }
  }

  function Half(x: bv64): bv64 { x >> 1 }

  lemma TopBitRaw(x: bv64, y: bv64, z: bv64, m: bv64, r: bv64, a: bv64, b: bv64)
    requires z == x ^ y && m <= 63 && z >> m == 1 && r == m & !3 && r <= 63 && a == (x >> r) & 15 && b == (y >> r) & 15
    requires a < b
    ensures (y >> m) & 1 == 1
  {
  }

  lemma NibIs(x: bv64, u: bv64, a: bv64)
    requires u <= 63 && a == Nib(x, u)
    ensures a == (x >> u) & 15
  {
  }

  lemma BitIs(x: bv64, u: bv64)
    requires u <= 63 && (x >> u) & 1 == 1
    ensures BitAt(x, u) == 1
  {
  }

  lemma TopBit(x: bv64, y: bv64, z: bv64, m: bv64, r: bv64, a: bv64, b: bv64)
    requires z == x ^ y && m <= 63 && z >> m == 1 && r == m & !3 && r <= 63 && a == Nib(x, r) && b == Nib(y, r) && a < b
    ensures BitAt(y, m) == 1
  {
    hide Nib, BitAt;
    NibIs(x, r, a);
    NibIs(y, r, b);
    TopBitRaw(x, y, z, m, r, a, b);
    BitIs(y, m);
  }

  lemma Unfold(x: bv64, y: bv64, z: bv64, m: bv64, r: bv64)
    requires z == Xor(x, y) && IsMssb(z, m) && r == Round(m)
    ensures z == x ^ y && m <= 63 && z >> m == 1 && r == m & !3
  {
  }

  lemma HalfMssbRaw(z: bv64, m: bv64)
    requires 1 <= m <= 63 && z >> m == 1
    ensures (z >> 1) >> (m - 1) == 1
  {
  }

  lemma HalfMssb(z: bv64, m: bv64)
    requires 1 <= m <= 63 && IsMssb(z, m)
    ensures IsMssb(Half(z), m - 1)
  {
    HalfMssbRaw(z, m);
  }

  lemma HalfBit(y: bv64, m: bv64)
    requires 1 <= m <= 63 && BitAt(y, m) == 1
    ensures BitAt(Half(y), m - 1) == 1
  {
  }

  lemma HalfLess(x: bv64, y: bv64)
    requires Half(x) < Half(y)
    ensures x < y
  {
  }

  lemma HalfXor(x: bv64, y: bv64)
    ensures Half(Xor(x, y)) == Xor(Half(x), Half(y))
  {
  }

  lemma LastBit(x: bv64, y: bv64)
    requires IsMssb(Xor(x, y), 0) && BitAt(y, 0) == 1
    ensures x < y
  {
  }

  lemma MinusOne(m: bv64)
    requires 1 <= m <= 63
    ensures m - 1 <= 63 && m - 1 < m
  {
  }

  /** The word that has the highest differing bit is the greater one. */
  lemma {:induction false} OrderBits(x: bv64, y: bv64, m: bv64)
    requires m <= 63 && IsMssb(Xor(x, y), m) && BitAt(y, m) == 1
    ensures x < y
    decreases m
  {
    hide IsMssb, Xor, BitAt, Half;
    if m == 0 {
      LastBit(x, y);
    } else {
      MinusOne(m);
      HalfMssb(Xor(x, y), m);
      HalfBit(y, m);
      HalfXor(x, y);
      OrderBits(Half(x), Half(y), m - 1);
      HalfLess(x, y);
    }
  }

  lemma Asymmetric(x: bv64, y: bv64)
    requires x < y
    ensures !(y < x)
  {
  }

  lemma OrderDigit(x: bv64, y: bv64)
    requires x != y && Digit(x, TopDigit(x, y)) < Digit(y, TopDigit(x, y))
    ensures x < y && !(y < x)
  {
    hide Nib, Num, Shift, DigitOf, Mssb, IsMssb, Quad, Xor, Round, BitAt;
    XorZero(x, y);
    var u, m := Shift(TopDigit(x, y)), Mssb(Xor(x, y));
    NumOrder(Nib(x, u), Nib(y, u));
    var z := Xor(x, y);
    Unfold(x, y, z, m, u);
    TopBit(x, y, z, m, u, Nib(x, u), Nib(y, u));
    OrderBits(x, y, m);
    Asymmetric(x, y);
  }

  /** critnib.c:617: the order of keys as words is the order of digit vectors. */
  lemma KeyOrder(x: bv64, y: bv64)
    ensures x < y <==> Less(ToKey(x), ToKey(y))
  {
    hide Digit, TopDigit, Less;
    if x == y {
      NotLess(ToKey(x));
    } else {
      TopDigitIsTopDiff(x, y);
      TopDigitIsTopDiff(y, x);
      var s := TopDigit(x, y);
      LessAt(ToKey(x), ToKey(y), s);
      LessAt(ToKey(y), ToKey(x), s);
      if Digit(x, s) < Digit(y, s) { OrderDigit(x, y); } else { OrderDigit(y, x); }
    }
  }

  lemma NotLess(k: Key)
    ensures !Less(k, k)
  {
  }

  // ---------------------------------------------------------------------------------------
  // Bits, the lowest first: critbit.c

  /** b as a shift amount. */
  function Pos(b: nat): (u: bv64)
    requires b < 64
    ensures u <= 63
  {
    var s := Shift(b / 4);
    s + (if b % 4 >= 2 then 2 else 0) + (if b % 2 >= 1 then 1 else 0)
  }

  lemma PosOrder(a: nat, b: nat)
    requires a < b < 64
    ensures Pos(a) < Pos(b)
  {
    hide Shift;
    if a / 4 < b / 4 {
      ShiftOrder(a / 4, b / 4);
      Step4(Shift(a / 4), Shift(b / 4));
    }
  }

  lemma Step4(s: bv64, t: bv64)
    requires Quad(s) && Quad(t) && s < t
    ensures s + 4 <= t
  {
  }

  /** The bit number that a shift amount stands for. */
  function BitOf(u: bv64): (b: nat)
    requires u <= 63
    ensures b < 64
  {
    4 * DigitOf(u) + (if Has(u, 2) then 2 else 0) + (if Has(u, 1) then 1 else 0)
  }

  predicate Has(u: bv64, mask: bv64) { u & mask != 0 }

  lemma PosBitOf(u: bv64)
    requires u <= 63
    ensures Pos(BitOf(u)) == u
  {
    hide Shift, DigitOf, Has, Round, Quad;
    var b := BitOf(u);
    assert b / 4 == DigitOf(u) && (b % 4 >= 2 <==> Has(u, 2)) && (b % 2 >= 1 <==> Has(u, 1));
    Split(u);
  }

  lemma Split(u: bv64)
    ensures u == Round(u) + (if Has(u, 2) then 2 else 0) + (if Has(u, 1) then 1 else 0)
  {
  }

  function BitAt(x: bv64, u: bv64): int
    requires u <= 63
  {
    if (x >> u) & 1 == 1 then 1 else 0
  }

  /** Digit j is bit 63 - j. */
  function BitDigit(x: bv64, j: int): (r: int)
    requires 0 <= j < 64
    ensures 0 <= r < 2
  {
    BitAt(x, Pos(63 - j))
  }

  function ToBits(x: bv64): (k: Key)
    ensures Keyed(Size(64, 2), k) && forall j :: 0 <= j < 64 ==> k[j] == BitDigit(x, j)
  {
    seq(64, j requires 0 <= j < 64 => BitDigit(x, j))
  }

  /** 1 << u */
  function One(u: bv64): bv64
    requires u <= 63
  {
    1 << u
  }

  /** x & -x: the lowest set bit. */
  function Lowest(x: bv64): (r: bv64)
  {
    x & (0 - x)
  }

  lemma LowestNonZero(x: bv64)
    requires x != 0
    ensures Lowest(x) != 0
  {
  }

  lemma LowestIs(x: bv64, m: bv64)
    requires x != 0 && m <= 63 && IsMssb(Lowest(x), m)
    ensures Lowest(x) == One(m) && BitAt(x, m) == 1
  {
  }

  lemma LowestBelow(x: bv64, m: bv64, u: bv64)
    requires x != 0 && u < m <= 63 && IsMssb(Lowest(x), m)
    ensures BitAt(x, u) == 0
  {
  }

  lemma XorClear(x: bv64, y: bv64, u: bv64)
    requires u <= 63 && BitAt(Xor(x, y), u) == 0
    ensures BitAt(x, u) == BitAt(y, u)
  {
  }

  lemma XorSet(x: bv64, y: bv64, u: bv64)
    requires u <= 63 && BitAt(Xor(x, y), u) == 1
    ensures BitAt(x, u) != BitAt(y, u)
  {
  }

  /** The digit of the lowest bit where x and y differ. */
  function LowDigit(x: bv64, y: bv64): (s: nat)
    requires x != y
    ensures s < 64
  {
    XorZero(x, y);
    LowestNonZero(Xor(x, y));
    63 - BitOf(Mssb(Lowest(Xor(x, y))))
  }

  lemma LowDigitIs(x: bv64, y: bv64)
    requires x != y
    ensures Lowest(Xor(x, y)) == One(Pos(63 - LowDigit(x, y)))
    ensures BitDigit(x, LowDigit(x, y)) != BitDigit(y, LowDigit(x, y))
  {
    hide Pos, BitOf, BitAt, Mssb, IsMssb, Xor, One, Lowest;
    XorZero(x, y);
    LowestNonZero(Xor(x, y));
    var m := Mssb(Lowest(Xor(x, y)));
    PosBitOf(m);
    LowestIs(Xor(x, y), m);
    XorSet(x, y, m);
  }

  lemma LowDigitAbove(x: bv64, y: bv64, j: nat)
    requires x != y && LowDigit(x, y) < j < 64
    ensures BitDigit(x, j) == BitDigit(y, j)
  {
    hide Pos, BitOf, BitAt, Mssb, IsMssb, Xor, One, Lowest;
    XorZero(x, y);
    LowestNonZero(Xor(x, y));
    PosOrder(63 - j, 63 - LowDigit(x, y));
    PosBitOf(Mssb(Lowest(Xor(x, y))));
    LowestBelow(Xor(x, y), Mssb(Lowest(Xor(x, y))), Pos(63 - j));
    XorClear(x, y, Pos(63 - j));
  }

  /** critbit.c:138: (path ^ key) & -(path ^ key) is the bit of the first digit, in the tree's order, where they
      differ. */
  lemma LowestDiff(x: bv64, y: bv64)
    requires x != y
    ensures ToBits(x) != ToBits(y)
    ensures Lowest(Xor(x, y)) == One(Pos(63 - TopDiff(ToBits(x), ToBits(y))))
  {
    hide LowDigit, Pos, ToBits, Lowest, One, Xor;
    LowDigitIsTopDiff(x, y);
    LowDigitIs(x, y);
  }

  lemma LowDigitIsTopDiff(x: bv64, y: bv64)
    requires x != y
    ensures ToBits(x) != ToBits(y) && TopDiff(ToBits(x), ToBits(y)) == LowDigit(x, y)
  {
    hide BitDigit, LowDigit, Pos, Lowest, One, Xor;
    var s, a, b := LowDigit(x, y), ToBits(x), ToBits(y);
    LowDigitIs(x, y);
    assert a[s] != b[s];
    forall j | s < j < 64 ensures a[j] == b[j] { LowDigitAbove(x, y, j); }
    LessAt(a, b, s);
  }

  /** critbit.c:163, 181, 208 */
  lemma SameBits(x: bv64, y: bv64)
    ensures x == y <==> ToBits(x) == ToBits(y)
  {
    hide ToBits, LowDigit;
    if x != y { LowDigitIsTopDiff(x, y); }
  }

  /** bit - 1 for bit = 1 << t. */
  function Lower(t: bv64): bv64
    requires t <= 63
  {
    (1 << t) - 1
  }

  /** x & (bit - 1) for bit = 1 << t */
  function KeepLow(x: bv64, t: bv64): bv64
    requires t <= 63
  {
    x & Lower(t)
  }

  predicate NoneFrom(y: bv64, t: bv64)
    requires t <= 63
  {
    y >> t == 0
  }

  predicate SameLow(x: bv64, y: bv64, t: bv64)
    requires t <= 63
  {
    (x ^ y) & Lower(t) == 0
  }

  lemma LowerDrops(x: bv64, t: bv64)
    requires t <= 63
    ensures NoneFrom(KeepLow(x, t), t)
  {
  }

  lemma ZeroAbove(y: bv64, t: bv64, u: bv64)
    requires t <= u <= 63 && NoneFrom(y, t)
    ensures BitAt(y, u) == 0
  {
  }

  lemma LowerKeeps(x: bv64, t: bv64)
    requires t <= 63
    ensures SameLow(x, KeepLow(x, t), t)
  {
  }

  lemma SameBelow(x: bv64, y: bv64, t: bv64, u: bv64)
    requires u < t <= 63 && SameLow(x, y, t)
    ensures BitAt(x, u) == BitAt(y, u)
  {
  }

  function Below(x: bv64, s: nat): bv64
    requires s < 64
  {
    KeepLow(x, Pos(63 - s))
  }

  lemma BelowIs(x: bv64, s: nat)
    requires s < 64
    ensures Below(x, s) == KeepLow(x, Pos(63 - s))
  {
  }

  lemma BelowZero(x: bv64, s: nat, j: nat)
    requires j <= s < 64
    ensures BitDigit(Below(x, s), j) == 0
  {
    hide Pos, BitAt, KeepLow, NoneFrom, SameLow;
    if j < s { PosOrder(63 - s, 63 - j); }
    LowerDrops(x, Pos(63 - s));
    ZeroAbove(Below(x, s), Pos(63 - s), Pos(63 - j));
  }

  lemma BelowSame(x: bv64, s: nat, j: nat)
    requires s < j < 64
    ensures BitDigit(Below(x, s), j) == BitDigit(x, j)
  {
    hide Pos, BitAt, KeepLow, NoneFrom, SameLow;
    PosOrder(63 - j, 63 - s);
    LowerKeeps(x, Pos(63 - s));
    SameBelow(x, Below(x, s), Pos(63 - s), Pos(63 - j));
  }

  /** critbit.c:148: key & (bit - 1) keeps what the tree looks at before the node's own bit. */
  lemma LowMask(x: bv64, s: nat)
    requires s < 64
    ensures ToBits(KeepLow(x, Pos(63 - s))) == Masked(ToBits(x), s)
  {
    hide BitDigit, Below;
    forall j | 0 <= j < 64 ensures ToBits(Below(x, s))[j] == Masked(ToBits(x), s)[j] {
      if j <= s { BelowZero(x, s, j); } else { BelowSame(x, s, j); }
    }
    BelowIs(x, s);
  }

  /** critbit.c:131: the test of the insert dive. */
  lemma LowTest(key: bv64, path: bv64, s: nat)
    requires s < 64
    ensures KeepLow(key, Pos(63 - s)) == path <==> Masked(ToBits(key), s) == ToBits(path)
  {
    hide Pos, KeepLow, ToBits;
    LowMask(key, s);
    SameBits(KeepLow(key, Pos(63 - s)), path);
  }

  /** !!(bit & key) for bit = 1 << u */
  predicate Picks(u: bv64, key: bv64)
    requires u <= 63
  {
    (1 << u) & key != 0
  }

  lemma PicksSet(x: bv64, u: bv64)
    requires u <= 63 && Picks(u, x)
    ensures BitAt(x, u) == 1
  {
  }

  lemma SetPicks(x: bv64, u: bv64)
    requires u <= 63 && BitAt(x, u) == 1
    ensures Picks(u, x)
  {
  }

  /** critbit.c:133, 144, 178, 207: !!(bit & key) is the digit. */
  lemma BitSelects(key: bv64, s: nat)
    requires s < 64
    ensures Picks(Pos(63 - s), key) <==> ToBits(key)[s] == 1
  {
    hide Pos, BitAt, Picks;
    var u := Pos(63 - s);
    if Picks(u, key) { PicksSet(key, u); }
    if BitAt(key, u) == 1 { SetPicks(key, u); }
  }
}
