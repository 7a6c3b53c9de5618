/** The Fletcher64 checksums of util.c, on little-endian 32-bit words. */
module Checksum {

  const W32 := 0x1_0000_0000
  type u32 = x: int | 0 <= x < 0x1_0000_0000

  /** The two running sums. */
  datatype Sums = Sums(lo: u32, hi: u32)

  function Add(s: Sums, w: u32): Sums {
    var lo := (s.lo + w) % W32;
    Sums(lo, (s.hi + lo) % W32)
  }

  function Fold(s: Sums, ws: seq<u32>): Sums
    decreases |ws|
  {
    if ws == [] then s else Fold(Add(s, ws[0]), ws[1..])
  }

  // ---------------------------------------------------------------------------------------
  // The closed form

  function Total(ws: seq<u32>): nat {
    if ws == [] then 0 else ws[0] + Total(ws[1..])
  }

  /** Each word counted once for itself and once for every word after it. */
  function Weighted(ws: seq<u32>): nat {
    if ws == [] then 0 else |ws| * ws[0] + Weighted(ws[1..])
  }

  lemma ModTwice(x: int, y: int)
    ensures (x % W32 + y) % W32 == (x + y) % W32
  {
  }

  lemma ModTimes(x: int, n: nat)
    ensures (n * (x % W32)) % W32 == (n * x) % W32
  {
    var q := x / W32;
    assert x == q * W32 + x % W32;
    assert n * x == n * (x % W32) + (n * q) * W32 by {
      assert n * (q * W32) == (n * q) * W32;
    }
    ModShift(n * (x % W32), n * q);
  }

  lemma ModShift(x: int, k: int)
    ensures (x + k * W32) % W32 == x % W32
  {
  }

  lemma {:induction false} ClosedLow(s: Sums, ws: seq<u32>)
    ensures Fold(s, ws).lo == (s.lo + Total(ws)) % W32
    decreases |ws|
  {
    if ws != [] {
      ClosedLow(Add(s, ws[0]), ws[1..]);
      ModTwice(s.lo + ws[0], Total(ws[1..]));
    }
  }

  lemma {:induction false} ClosedHigh(s: Sums, ws: seq<u32>)
    ensures Fold(s, ws).hi == (s.hi + |ws| * s.lo + Weighted(ws)) % W32
    decreases |ws|
  {
    if ws != [] {
      var t, rest := Add(s, ws[0]), ws[1..];
      ClosedHigh(t, rest);
      ClosedStep(s.lo, s.hi, ws[0], |rest|, Weighted(rest));
    }
  }

  /** The loop computes the plain and the weighted sum of the words, modulo 2^32. */
  lemma ClosedForm(s: Sums, ws: seq<u32>)
    ensures Fold(s, ws).lo == (s.lo + Total(ws)) % W32
    ensures Fold(s, ws).hi == (s.hi + |ws| * s.lo + Weighted(ws)) % W32
  {
    hide Fold, Total, Weighted;
    ClosedLow(s, ws);
    ClosedHigh(s, ws);
  }

  lemma ClosedStep(lo: int, hi: int, w: int, n: nat, x: int)
    ensures var t := (lo + w) % W32; ((hi + t) % W32 + n * t + x) % W32 == (hi + (n + 1) * lo + (n + 1) * w + x) % W32
  {
    var t := (lo + w) % W32;
    ModTwice(hi + t, n * t + x);
    assert hi + t + n * t + x == (n + 1) * t + (hi + x);
    ModTwice((n + 1) * t, hi + x);
    ModTimes(lo + w, n + 1);
    ModTwice((n + 1) * (lo + w), hi + x);
    assert (n + 1) * (lo + w) == (n + 1) * lo + (n + 1) * w;
  }

  // ---------------------------------------------------------------------------------------
  // util_checksum_seq

  /** The 64-bit result. */
  function Pack(s: Sums): nat { s.hi * W32 + s.lo }

  function Unpack(csum: nat): (s: Sums)
    requires csum < W32 * W32
  {
    Sums(csum % W32, csum / W32)
  }

  lemma Packed(s: Sums)
    ensures Pack(s) < W32 * W32 && Unpack(Pack(s)) == s
  {
  }

  function SeqSum(ws: seq<u32>, csum: nat): (r: nat)
    requires csum < W32 * W32
    ensures r < W32 * W32
  {
    Packed(Fold(Unpack(csum), ws));
    Pack(Fold(Unpack(csum), ws))
  }

  lemma {:induction false} FoldAppend(s: Sums, a: seq<u32>, b: seq<u32>)
    ensures Fold(s, a + b) == Fold(Fold(s, a), b)
    decreases |a|
  {
    if a == [] {
      assert a + b == b;
    } else {
      assert (a + b)[1..] == a[1..] + b && (a + b)[0] == a[0];
      FoldAppend(Add(s, a[0]), a[1..], b);
    }
  }

  /** Over a concatenation: chain over the parts. */
  lemma Chained(a: seq<u32>, b: seq<u32>, csum: nat)
    requires csum < W32 * W32
    ensures SeqSum(a + b, csum) == SeqSum(b, SeqSum(a, csum))
  {
    FoldAppend(Unpack(csum), a, b);
    Packed(Fold(Unpack(csum), a));
  }

  lemma FoldLast(s: Sums, ws: seq<u32>, i: nat)
    requires i < |ws|
    ensures Fold(s, ws[..i + 1]) == Add(Fold(s, ws[..i]), ws[i])
  {
    assert ws[..i + 1] == ws[..i] + [ws[i]];
    FoldAppend(s, ws[..i], [ws[i]]);
    assert Fold(Fold(s, ws[..i]), [ws[i]]) == Fold(Add(Fold(s, ws[..i]), ws[i]), []);
  }

  /** util_checksum_seq: the lower half of the result is the sum of the words, the upper half the sum of the words each
      multiplied by its distance from the end, both continued from the halves of csum. */
  method ChecksumSeq(a: array<u32>, csum: nat) returns (r: nat)
    requires csum < W32 * W32
    ensures r == SeqSum(a[..], csum)
    ensures r % W32 == (csum % W32 + Total(a[..])) % W32
    ensures r / W32 == (csum / W32 + |a[..]| * (csum % W32) + Weighted(a[..])) % W32
  {
    var p, lo, hi := 0, csum % W32, csum / W32;
    while p < a.Length
      invariant 0 <= p <= a.Length && 0 <= lo < W32 && 0 <= hi < W32
      invariant Sums(lo, hi) == Fold(Unpack(csum), a[..p])
    {
      FoldLast(Unpack(csum), a[..], p);
      assert a[..][..p + 1] == a[..p + 1] && a[..][..p] == a[..p];
      lo := (lo + a[p]) % W32;
      p := p + 1;
      hi := (hi + lo) % W32;
    }
    assert a[..p] == a[..];
    ClosedForm(Unpack(csum), a[..]);
    Packed(Sums(lo, hi));
    return hi * W32 + lo;
  }

  // ---------------------------------------------------------------------------------------
  // util_checksum
  //
  // ws are the words of the range. The slot is at word cs of the range, which may lie before, in or after it.

  /** The first word that skip_off skips; all words count if there is none. */
  function SkipFrom(n: nat, skipOff: nat): (r: nat)
    ensures r <= n && (n > 0 ==> r > 0)
  {
    if skipOff == 0 || (skipOff + 3) / 4 >= n then n else (skipOff + 3) / 4
  }

  /** The slot is recognised by its first word, so it must begin in the range. */
  predicate InSlot(cs: int, i: int) {
    cs >= 0 && (i == cs || i == cs + 1)
  }

  /** Slot and skipped words are taken as zero. */
  function Zeroed(ws: seq<u32>, cs: int, skip: nat): (r: seq<u32>)
    ensures |r| == |ws|
    ensures forall i :: 0 <= i < |ws| ==> r[i] == if InSlot(cs, i) || i >= skip then 0 else ws[i]
  {
    seq(|ws|, i requires 0 <= i < |ws| => if InSlot(cs, i) || i >= skip then 0 else ws[i])
  }

  /** Words are skipped in pairs: a pair that reaches beyond the range counts as two. */
  function Overshoot(n: nat, cs: int, skip: nat): seq<u32> {
    if skip < n then
      (if (n - (if cs >= 0 && cs + 1 == skip then skip + 1 else skip)) % 2 == 1 then [0] else [])
    else
      (if cs >= 0 && cs == n - 1 then [0] else [])
  }

  /** The words as the loop takes them. */
  function Taken(ws: seq<u32>, cs: int, skipOff: nat): seq<u32> {
    var skip := SkipFrom(|ws|, skipOff);
    Zeroed(ws, cs, skip) + Overshoot(|ws|, cs, skip)
  }

  /** What util_checksum computes over a range. */
  function RangeSum(ws: seq<u32>, cs: int, skipOff: nat): (r: nat)
    ensures r < W32 * W32
  {
    SeqSum(Taken(ws, cs, skipOff), 0)
  }

  function SlotValue(mem: seq<u32>, c: nat): nat
    requires c + 1 < |mem|
  {
    mem[c + 1] * W32 + mem[c]
  }

  function WithSlot(mem: seq<u32>, c: nat, csum: nat): (r: seq<u32>)
    requires c + 1 < |mem| && csum < W32 * W32
    ensures |r| == |mem| && SlotValue(r, c) == csum && r[c + 1] == csum / W32
    ensures forall i :: 0 <= i < |mem| && i != c && i != c + 1 ==> r[i] == mem[i]
  {
    mem[c := csum % W32][c + 1 := csum / W32]
  }

  /** A word counts if it is neither in the slot nor skipped. */
  predicate Counts(cs: int, skipOff: nat, i: nat) {
    !InSlot(cs, i) && (skipOff == 0 || 4 * i < skipOff)
  }

  /** Words that do not count do not matter. */
  lemma OthersIgnored(ws: seq<u32>, ws': seq<u32>, cs: int, skipOff: nat)
    requires |ws| == |ws'| && forall i :: 0 <= i < |ws| && Counts(cs, skipOff, i) ==> ws[i] == ws'[i]
    ensures RangeSum(ws, cs, skipOff) == RangeSum(ws', cs, skipOff)
  {
    assert Taken(ws, cs, skipOff) == Taken(ws', cs, skipOff);
  }

  /** Each word that counts matters. */
  lemma WordMatters(ws: seq<u32>, cs: int, skipOff: nat, i: nat, w: u32)
    requires i < |ws| && Counts(cs, skipOff, i) && w != ws[i]
    ensures RangeSum(ws[i := w], cs, skipOff) != RangeSum(ws, cs, skipOff)
  {
    var a := Taken(ws, cs, skipOff);
    assert Taken(ws[i := w], cs, skipOff) == a[i := w];
    assert Unpack(0) == Sums(0, 0);
    ClosedForm(Sums(0, 0), a);
    ClosedForm(Sums(0, 0), a[i := w]);
    TotalSet(a, i, w);
    LowHalf(Fold(Sums(0, 0), a), Fold(Sums(0, 0), a[i := w]), Total(a), w - ws[i]);
  }

  lemma {:induction false} TotalSet(a: seq<u32>, i: nat, w: u32)
    requires i < |a|
    ensures Total(a[i := w]) == Total(a) - a[i] + w
  {
    if i == 0 {
      assert a[i := w][1..] == a[1..];
    } else {
      assert a[i := w][1..] == a[1..][i - 1 := w];
      TotalSet(a[1..], i - 1, w);
    }
  }

  lemma LowHalf(s: Sums, t: Sums, x: int, d: int)
    requires s.lo == (0 + x) % W32 && t.lo == (0 + x + d) % W32 && d != 0 && -W32 < d < W32
    ensures Pack(s) != Pack(t)
  {
    Packed(s);
    Packed(t);
  }

  /** The words mem[lo..lo + n] are the range and c is the slot's place in memory. */
  predicate Placed(mem: seq<u32>, lo: nat, n: nat, c: nat) {
    lo + n <= |mem| && c + 1 < |mem|
  }

  /** What a check answers. */
  predicate Checks(mem: seq<u32>, lo: nat, n: nat, c: nat, skipOff: nat)
    requires Placed(mem, lo, n, c)
  {
    SlotValue(mem, c) == RangeSum(mem[lo..lo + n], c - lo, skipOff)
  }

  function Inserted(mem: seq<u32>, lo: nat, n: nat, c: nat, skipOff: nat): (r: seq<u32>)
    requires Placed(mem, lo, n, c)
    ensures |r| == |mem|
  {
    WithSlot(mem, c, RangeSum(mem[lo..lo + n], c - lo, skipOff))
  }

  /** Insert followed by check succeeds, whatever the memory holds, unless the slot ends in the first word of the
      range. */
  lemma InsertThenCheck(mem: seq<u32>, lo: nat, n: nat, c: nat, skipOff: nat)
    requires Placed(mem, lo, n, c) && (c + 1 != lo || n == 0)
    ensures Checks(Inserted(mem, lo, n, c, skipOff), lo, n, c, skipOff)
  {
    OthersIgnored(mem[lo..lo + n], Inserted(mem, lo, n, c, skipOff)[lo..lo + n], c - lo, skipOff);
  }

  /** If it does, the check succeeds exactly if that word already was the upper half of the checksum. */
  lemma OverlappingSlot(mem: seq<u32>, lo: nat, n: nat, c: nat, skipOff: nat)
    requires Placed(mem, lo, n, c) && c + 1 == lo && n > 0
    ensures Checks(Inserted(mem, lo, n, c, skipOff), lo, n, c, skipOff) <==>
              mem[lo] == RangeSum(mem[lo..lo + n], c - lo, skipOff) / W32
  {
    var ws, sum := mem[lo..lo + n], RangeSum(mem[lo..lo + n], c - lo, skipOff);
    var ws' := Inserted(mem, lo, n, c, skipOff)[lo..lo + n];
    var hi: u32 := sum / W32;
    assert ws' == ws[0 := hi];
    if mem[lo] != hi {
      WordMatters(ws, c - lo, skipOff, 0, hi);
    } else {
      assert ws' == ws;
    }
  }

  /** Such a buffer. */
  lemma OverlapFails()
    ensures var mem: seq<u32> := [0, 0, 1, 0]; Placed(mem, 2, 2, 1) && !Checks(Inserted(mem, 2, 2, 1, 0), 2, 2, 1, 0)
  {
    var mem: seq<u32> := [0, 0, 1, 0];
    var ws: seq<u32> := [1, 0];
    assert mem[2..2 + 2] == ws && Taken(ws, -1, 0) == ws;
    assert Unpack(0) == Sums(0, 0);
    assert Fold(Sums(0, 0), ws) == Fold(Sums(1, 1), ws[1..]) == Fold(Sums(1, 2), ws[1..][1..]);
    assert ws[1..][1..] == [];
    OverlappingSlot(mem, 2, 2, 1, 0);
  }

  /** With skip_off 0 it is util_checksum_seq from 0 over the range with the slot zeroed. */
  lemma NoSkip(ws: seq<u32>, cs: nat)
    requires cs + 1 < |ws|
    ensures RangeSum(ws, cs, 0) == SeqSum(ws[cs := 0][cs + 1 := 0], 0)
  {
    assert Taken(ws, cs, 0) == ws[cs := 0][cs + 1 := 0];
  }

  /** A range that checks stops checking when any one word that counts is changed, if it is not in the slot. */
  lemma OneWordDetected(mem: seq<u32>, lo: nat, n: nat, c: nat, skipOff: nat, i: nat, w: u32)
    requires Placed(mem, lo, n, c) && i < n && Counts(c - lo, skipOff, i) && lo + i != c + 1 && w != mem[lo + i]
    requires Checks(mem, lo, n, c, skipOff)
    ensures !Checks(mem[lo + i := w], lo, n, c, skipOff)
  {
    assert mem[lo + i := w][lo..lo + n] == mem[lo..lo + n][i := w];
    WordMatters(mem[lo..lo + n], c - lo, skipOff, i, w);
  }

  // ---------------------------------------------------------------------------------------
  // The loop of util_checksum

  /** Where the loop can stand: never on the second word of the slot unless it skips, and then an even number of
      words before the end. */
  predicate Stands(n: nat, cs: int, skipOff: nat, p: nat) {
    var skip := SkipFrom(n, skipOff);
    && p <= n + |Overshoot(n, cs, skip)|
    && (cs >= 0 && p == cs + 1 ==> skip <= p && skip < n)
    && (p >= skip && skip < n ==> (n + |Overshoot(n, cs, skip)| - p) % 2 == 0)
  }

  /** A pair that the loop skips is a pair of zeros. */
  lemma SkipPair(ws: seq<u32>, cs: int, skipOff: nat, p: nat)
    requires p < |ws| && Stands(|ws|, cs, skipOff, p)
    requires p == cs || 4 * p >= if skipOff == 0 then 4 * |ws| else skipOff
    ensures p + 2 <= |Taken(ws, cs, skipOff)| && Taken(ws, cs, skipOff)[p] == 0 == Taken(ws, cs, skipOff)[p + 1]
    ensures Stands(|ws|, cs, skipOff, p + 2)
  {
  }

  lemma TakeOne(ws: seq<u32>, cs: int, skipOff: nat, p: nat)
    requires p < |ws| && Stands(|ws|, cs, skipOff, p)
    requires !(p == cs || 4 * p >= if skipOff == 0 then 4 * |ws| else skipOff)
    ensures p < |Taken(ws, cs, skipOff)| && Taken(ws, cs, skipOff)[p] == ws[p]
    ensures Stands(|ws|, cs, skipOff, p + 1)
  {
  }

  /** Two zero words. */
  lemma FoldZeros(s: Sums, ws: seq<u32>, i: nat)
    requires i + 1 < |ws| && ws[i] == 0 && ws[i + 1] == 0
    ensures var t := Fold(s, ws[..i]); Fold(s, ws[..i + 2]) == Sums(t.lo, ((t.hi + t.lo) % W32 + t.lo) % W32)
  {
    hide Fold, Add;
    FoldLast(s, ws, i);
    FoldLast(s, ws, i + 1);
    AddZero(Fold(s, ws[..i]));
    AddZero(Fold(s, ws[..i + 1]));
  }

  lemma AddZero(s: Sums)
    ensures Add(s, 0) == Sums(s.lo, (s.hi + s.lo) % W32)
  {
  }

  /** The plain and the weighted sum of the words taken: the first and the second word of a slot with the checksum. */
  function Halves(ws: seq<u32>, cs: int, skipOff: nat): Sums {
    Sums(Total(Taken(ws, cs, skipOff)) % W32, Weighted(Taken(ws, cs, skipOff)) % W32)
  }

  /** util_checksum over a[lo..lo + n]: with insert the checksum is stored in the slot at c, without it is compared
      with the slot. */
  method RangeChecksum(a: array<u32>, lo: nat, n: nat, c: nat, insert: bool, skipOff: nat) returns (ok: bool)
    requires Placed(a[..], lo, n, c)
    modifies a
    ensures insert ==> ok && a[..] == Inserted(old(a[..]), lo, n, c, skipOff)
    ensures !insert ==> a[..] == old(a[..]) && (ok <==> Checks(a[..], lo, n, c, skipOff))
    ensures insert ==> Sums(a[c], a[c + 1]) == Halves(old(a[lo..lo + n]), c - lo, skipOff)
    ensures !insert ==> (ok <==> Sums(a[c], a[c + 1]) == Halves(a[lo..lo + n], c - lo, skipOff))
  {
    hide Halves, Taken;
    var sums := RangeLoop(a, lo, n, c - lo, skipOff);
    assert a[..][lo..lo + n] == a[lo..lo + n];
    if insert {
      a[c], a[c + 1] := sums.lo, sums.hi;
      Packed(sums);
      assert a[..] == WithSlot(old(a[..]), c, Pack(sums));
      return true;
    }
    Packed(sums);
    Packed(Sums(a[c], a[c + 1]));
    return a[c + 1] * W32 + a[c] == Pack(sums);
  }

  method RangeLoop(a: array<u32>, lo: nat, n: nat, cs: int, skipOff: nat) returns (r: Sums)
    requires lo + n <= a.Length
    ensures Pack(r) == RangeSum(a[lo..lo + n], cs, skipOff)
    ensures r == Halves(a[lo..lo + n], cs, skipOff)
  {
    hide Stands, Taken, Fold, RangeSum;
    ghost var ws := a[lo..lo + n];
    ghost var z := Taken(ws, cs, skipOff);
    var p, lo32, hi32 := 0, 0, 0;
    LoopStarts(ws, cs, skipOff);
    while p < n
      invariant Stands(n, cs, skipOff, p) && p <= |z| && 0 <= lo32 < W32 && 0 <= hi32 < W32
      invariant Sums(lo32, hi32) == Fold(Sums(0, 0), z[..p])
      decreases n - p
    {
      if p == cs || 4 * p >= (if skipOff == 0 then 4 * n else skipOff) {
        SkipPair(ws, cs, skipOff, p);
        FoldZeros(Sums(0, 0), z, p);
        p := p + 1;
        hi32 := (hi32 + lo32) % W32;
        p := p + 1;
        hi32 := (hi32 + lo32) % W32;
      } else {
        TakeOne(ws, cs, skipOff, p);
        FoldLast(Sums(0, 0), z, p);
        lo32 := (lo32 + a[lo + p]) % W32;
        p := p + 1;
        hi32 := (hi32 + lo32) % W32;
      }
    }
    LoopEnds(ws, cs, skipOff, p);
    assert z[..p] == z;
    ClosedForm(Sums(0, 0), z);
    r := Sums(lo32, hi32);
  }

  lemma LoopStarts(ws: seq<u32>, cs: int, skipOff: nat)
    ensures Stands(|ws|, cs, skipOff, 0) && Fold(Sums(0, 0), []) == Sums(0, 0)
  {
  }

  lemma LoopEnds(ws: seq<u32>, cs: int, skipOff: nat, p: nat)
    requires p >= |ws| && Stands(|ws|, cs, skipOff, p)
    ensures p == |Taken(ws, cs, skipOff)|
    ensures RangeSum(ws, cs, skipOff) == Pack(Fold(Sums(0, 0), Taken(ws, cs, skipOff)))
  {
    assert Unpack(0) == Sums(0, 0);
  }
}
