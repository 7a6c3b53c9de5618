/** Keys as digit vectors.

A key is a sequence of digits. Index 0 is the digit that a tree examines last, the highest
index the one it examines first. For a nibble tree over 64-bit keys there are sixteen digits
of sixteen values and index j is the nibble at bit 4*j; module `KeyBits` proves that the
operations below are the bit expressions of the C code. */
module Digits {

  type Key = seq<int>

  /** How keys are cut: `d` digits, each below `a`. */
  datatype Size = Size(d: nat, a: nat)

  /** 64-bit keys cut into nibbles. */
  const SZ: Size := Size(16, 16)

  type Nibbles = k: Key | Keyed(Size(16, 16), k) witness seq(16, _ => 0)

  /** 64-bit keys cut into bits. */
  const BITS: Size := Size(64, 2)

  predicate Keyed(z: Size, k: Key) {
    |k| == z.d && forall j :: 0 <= j < z.d ==> 0 <= k[j] < z.a
  }

  /** a and b have the same digits above position s. */
  predicate Agree(a: Key, b: Key, s: int) {
    |a| == |b| && forall j :: 0 <= j < |a| && s < j ==> a[j] == b[j]
  }

  /** k with the digits at s and below cleared. */
  function Masked(k: Key, s: int): (r: Key)
    ensures |r| == |k|
    ensures forall j :: 0 <= j < |k| ==> r[j] == if j <= s then 0 else k[j]
  {
    seq(|k|, j requires 0 <= j < |k| => if j <= s then 0 else k[j])
  }

  /** The comparison "k masked at s equals the (already masked) path" means agreement above s. */
  lemma MaskedMatch(k: Key, path: Key, s: int)
    requires |k| == |path| && path == Masked(path, s)
    ensures Masked(k, s) == path <==> Agree(k, path, s)
  {
    if Agree(k, path, s) {
      forall j | 0 <= j < |k| ensures Masked(k, s)[j] == path[j] {
        assert path[j] == Masked(path, s)[j];
      }
    } else {
      var j :| 0 <= j < |k| && s < j && k[j] != path[j];
      assert Masked(k, s)[j] != path[j];
    }
  }

  lemma MaskedTwice(k: Key, s: int)
    ensures Masked(k, s) == Masked(Masked(k, s), s)
  {
  }

  /** The highest position where a and b differ. */
  function TopDiff(a: Key, b: Key): (s: nat)
    requires |a| == |b| && a != b
    ensures s < |a| && a[s] != b[s] && Agree(a, b, s)
  {
    TopDiffBelow(a, b, |a|)
  }

  function TopDiffBelow(a: Key, b: Key, n: nat): (s: nat)
    requires |a| == |b| && a != b && n <= |a|
    requires forall j :: n <= j < |a| ==> a[j] == b[j]
    ensures s < |a| && a[s] != b[s] && Agree(a, b, s)
  {
    if n > 0 && a[n - 1] == b[n - 1] then TopDiffBelow(a, b, n - 1) else n - 1
  }

  /** Numeric order of keys: decided at the highest differing digit. */
  predicate Less(a: Key, b: Key) {
    |a| == |b| && a != b && a[TopDiff(a, b)] < b[TopDiff(a, b)]
  }

  predicate LessEq(a: Key, b: Key) {
    a == b || Less(a, b)
  }

  lemma LessAt(a: Key, b: Key, s: nat)
    requires |a| == |b| && s < |a| && Agree(a, b, s) && a[s] != b[s]
    ensures TopDiff(a, b) == s
    ensures Less(a, b) <==> a[s] < b[s]
  {
  }
}
