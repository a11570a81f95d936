/** Alignment as the sources compute it, by clearing low bits, and as arithmetic: rounding to a multiple. */
module Alignment {
  import opened Powers

  /** `v & ~m`, bit by bit. */
  function AndNot(v: nat, m: nat): nat {
    if v == 0 then 0 else 2 * AndNot(v / 2, m / 2) + if v % 2 == 1 && m % 2 == 0 then 1 else 0
  }

  function AlignUp(value: nat, alignment: nat): nat {
    if alignment == 0 then value else AndNot(value + alignment - 1, alignment - 1)
  }

  function AlignDown(value: nat, alignment: nat): nat {
    if alignment == 0 then value else AndNot(value, alignment - 1)
  }

  lemma {:induction false} ClearNothing(v: nat)
    ensures AndNot(v, 0) == v
  {
    if v > 0 { ClearNothing(v / 2); }
  }

  /** Clearing the `k` low bits takes away the remainder by 2^k. */
  lemma {:induction false} ClearLowBits(v: nat, k: nat)
    ensures Pow(2, k) >= 1 && AndNot(v, Pow(2, k) - 1) == v - v % Pow(2, k)
  {
    hide AndNot;
    if k == 0 {
      ClearNothing(v);
    } else {
      var half := Pow(2, k - 1);
      ClearLowBits(v / 2, k - 1);
      HalfMask(v, half);
      DoubleRemainder(v, half);
    }
  }

  lemma HalfMask(v: nat, half: nat)
    requires half >= 1
    ensures AndNot(v, 2 * half - 1) == 2 * AndNot(v / 2, half - 1)
  {
    assert (2 * half - 1) / 2 == half - 1 && (2 * half - 1) % 2 == 1;
  }

  lemma DoubleRemainder(v: nat, half: nat)
    requires half >= 1
    ensures v % (2 * half) == 2 * ((v / 2) % half) + v % 2
  {
    var q, r := (v / 2) / half, (v / 2) % half;
    assert v == 2 * (q * half + r) + v % 2;
    assert q * (2 * half) == 2 * (q * half);
    RemainderIs(v, 2 * half, q, 2 * r + v % 2);
  }

  lemma RemainderIs(v: int, d: nat, q: int, r: nat)
    requires d >= 1 && v == q * d + r && r < d
    ensures v % d == r
  {
    var e := v / d;
    assert v == e * d + v % d;
    assert (e - q) * d == e * d - q * d;
    MultipleBound(e - q, d);
  }

  lemma MultipleBound(x: int, d: int)
    requires d >= 1
    ensures x >= 1 ==> x * d >= d
    ensures x <= -1 ==> x * d <= -d
    ensures x == 0 ==> x * d == 0
  {
    if x >= 1 {
      assert x * d == (x - 1) * d + d && (x - 1) * d >= 0;
    } else if x <= -1 {
      assert x * d == (x + 1) * d - d && (x + 1) * d <= 0;
    }
  }

  lemma Floor(v: nat, a: nat)
    requires a >= 1
    ensures (v - v % a) % a == 0 && 0 <= v - v % a <= v < v - v % a + a
  {
    assert v == (v / a) * a + v % a;
    MultipleBound(v / a, a);
    RemainderIs(v - v % a, a, v / a, 0);
  }

  /** The aligned value is the least multiple of the alignment that is not below the value. */
  lemma AlignUpIsRounding(value: nat, k: nat)
    ensures Pow(2, k) >= 1 && AlignUp(value, Pow(2, k)) % Pow(2, k) == 0
    ensures value <= AlignUp(value, Pow(2, k)) < value + Pow(2, k)
  {
    hide Pow, AndNot;
    var v := value + Pow(2, k) - 1;
    ClearLowBits(v, k);
    Floor(v, Pow(2, k));
  }

  /** Aligning down gives the greatest multiple that is not above the value. */
  lemma AlignDownIsRounding(value: nat, k: nat)
    ensures Pow(2, k) >= 1 && AlignDown(value, Pow(2, k)) == value - value % Pow(2, k)
    ensures AlignDown(value, Pow(2, k)) % Pow(2, k) == 0
  {
    hide Pow, AndNot;
    ClearLowBits(value, k);
    Floor(value, Pow(2, k));
  }

  // ---------------------------------------------------------------------------------------------
  // Pages

  const PAGE: nat := 0x1000

  predicate PageAligned(x: int) { x % PAGE == 0 }

  lemma PagesAdd(a: int, b: int)
    requires PageAligned(a) && PageAligned(b)
    ensures PageAligned(a + b) && PageAligned(a - b)
  {
  }

  lemma PageIsPower()
    ensures Pow(2, 12) == PAGE
  {
    assert Pow(2, 6) == 64;
    assert Pow(2, 12) == 2 * (2 * (2 * (2 * (2 * (2 * Pow(2, 6))))));
  }

  lemma PageUp(value: nat)
    ensures PageAligned(AlignUp(value, PAGE)) && value <= AlignUp(value, PAGE) < value + PAGE
    ensures PageAligned(value) ==> AlignUp(value, PAGE) == value
  {
    hide AlignUp, Pow;
    PageIsPower();
    AlignUpIsRounding(value, 12);
  }

  lemma PageDown(value: nat)
    ensures PageAligned(AlignDown(value, PAGE)) && AlignDown(value, PAGE) == value - value % PAGE
  {
    hide AlignDown, Pow;
    PageIsPower();
    AlignDownIsRounding(value, 12);
  }

  /** The alignments of the sections behind the sparse ones: 1 and 8. */
  lemma SmallUp(value: nat, a: nat)
    requires a == 1 || a == 8
    ensures AlignUp(value, a) % a == 0 && value <= AlignUp(value, a) < value + a
  {
    assert Pow(2, 0) == 1 && Pow(2, 3) == 8;
    AlignUpIsRounding(value, if a == 1 then 0 else 3);
  }
}
