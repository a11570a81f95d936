/**
 Machine words as their binary digits, least significant first.

 A `u8` or `u32` of the C sources is a sequence of 8 or 32 digits, so that `^`, `<<`, `>>` and `|` are operations on
 positions and no width is ever exceeded; `Value` is the number a word denotes.
 */
module Words {
  import opened Powers

  type Bits = seq<bool>
  type Byte = b: Bits | |b| == 8 witness Zeros(8)
  type Word = w: Bits | |w| == 32 witness Zeros(32)

  function Zeros(n: nat): (r: Bits)
    ensures |r| == n && forall i :: 0 <= i < n ==> !r[i]
  {
    seq(n, i => false)
  }

  /** `a ^ b` */
  function Xor(a: Bits, b: Bits): (r: Bits)
    requires |a| == |b|
    ensures |r| == |a| && forall i :: 0 <= i < |a| ==> r[i] == (a[i] != b[i])
  {
    seq(|a|, i requires 0 <= i < |a| => a[i] != b[i])
  }

  /** `a | b` */
  function Or(a: Bits, b: Bits): (r: Bits)
    requires |a| == |b|
    ensures |r| == |a| && forall i :: 0 <= i < |a| ==> r[i] == (a[i] || b[i])
  {
    seq(|a|, i requires 0 <= i < |a| => a[i] || b[i])
  }

  /** `a << k`, dropping what leaves the word */
  function Shl(a: Bits, k: nat): (r: Bits)
    requires k <= |a|
    ensures |r| == |a|
  {
    Zeros(k) + a[..|a| - k]
  }

  /** `a >> k` */
  function Shr(a: Bits, k: nat): (r: Bits)
    requires k <= |a|
    ensures |r| == |a|
  {
    a[k..] + Zeros(k)
  }

  /** The number a word denotes. */
  function Value(a: Bits): nat {
    if a == [] then 0 else (if a[0] then 1 else 0) + 2 * Value(a[1..])
  }

  /** The word of `n` digits that denotes `v`, modulo the width. */
  function OfNat(v: nat, n: nat): (r: Bits)
    ensures |r| == n
  {
    if n == 0 then [] else [v % 2 == 1] + OfNat(v / 2, n - 1)
  }

  lemma {:induction false} ValueBound(a: Bits)
    ensures Value(a) < Pow(2, |a|)
  {
    if a != [] { ValueBound(a[1..]); }
  }

  /** `Value` and `OfNat` are inverse to each other on the numbers that fit. */
  lemma {:induction false} OfNatValue(a: Bits)
    ensures OfNat(Value(a), |a|) == a
  {
    if a != [] {
      OfNatValue(a[1..]);
      var v := Value(a[1..]);
      assert Value(a) / 2 == v && Value(a) % 2 == if a[0] then 1 else 0;
    }
  }

  lemma {:induction false} ValueOfNat(v: nat, n: nat)
    requires v < Pow(2, n)
    ensures Value(OfNat(v, n)) == v
  {
    if n != 0 {
      ValueOfNat(v / 2, n - 1);
      assert OfNat(v, n)[1..] == OfNat(v / 2, n - 1);
    }
  }

  /** Rearranging a sum of four words. */
  lemma XorSwap(a: Bits, b: Bits, c: Bits, d: Bits)
    requires |a| == |b| == |c| == |d|
    ensures Xor(Xor(a, b), Xor(c, d)) == Xor(Xor(a, c), Xor(b, d))
  {
  }

  lemma ShlXor(a: Bits, b: Bits, k: nat)
    requires |a| == |b| && k <= |a|
    ensures Shl(Xor(a, b), k) == Xor(Shl(a, k), Shl(b, k))
  {
  }

  lemma XorZeros(a: Bits)
    ensures Xor(a, Zeros(|a|)) == a && Xor(Zeros(|a|), a) == a
  {
  }

  lemma ByteIndex(b: Byte)
    ensures Value(b) < 256 && OfNat(Value(b), 8) == b
  {
    ValueBound(b);
    assert Pow(2, 4) == 16;
    assert Pow(2, 8) == 256;
    OfNatValue(b);
  }
}
