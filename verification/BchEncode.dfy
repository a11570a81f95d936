/**
 The BCH encoder: the word-at-a-time path against the byte-at-a-time path.

 The ECC register of n words is one shift register of 32 * n digits, word 0 holding the top digits. A zero byte moves it
 by a linear map (`Advance`); both paths are sums of powers of that map.
 */
module BchEncode {
  import opened Words
  import opened BchEcc

  function XorAll(a: seq<Word>, b: seq<Word>): (r: seq<Word>)
    requires |a| == |b|
    ensures |r| == |a|
  {
    seq(|a|, i requires 0 <= i < |a| => Xor(a[i], b[i]))
  }

  // ---------------------------------------------------------------------------------------------
  // The byte path

  /** Word `i` of the register moved up by a byte. */
  function ShiftWord(r: seq<Word>, i: nat): Word
    requires i < |r|
  {
    Or(Shl(r[i], 8), if i + 1 < |r| then Shr(r[i + 1], 24) else Zeros(32))
  }

  function ByteShift(r: seq<Word>): (s: seq<Word>)
    ensures |s| == |r|
  {
    seq(|r|, i requires 0 <= i < |r| => ShiftWord(r, i))
  }

  function ByteStep(c: Control, r: seq<Word>, b: Byte): (s: seq<Word>)
    requires c.Valid() && |r| == c.Words()
    ensures |s| == |r|
  {
    XorAll(ByteShift(r), c.Row(0, Xor(r[0][24..], b)))
  }

  /** What the message leaves in the register, byte by byte. */
  function ByteEncode(c: Control, r: seq<Word>, data: seq<Byte>): (s: seq<Word>)
    requires c.Valid() && |r| == c.Words()
    ensures |s| == |r|
    decreases |data|
  {
    if data == [] then r else ByteEncode(c, ByteStep(c, r, data[0]), data[1..])
  }

  lemma {:induction false} ByteEncodeSplit(c: Control, r: seq<Word>, d1: seq<Byte>, d2: seq<Byte>)
    requires c.Valid() && |r| == c.Words()
    ensures ByteEncode(c, r, d1 + d2) == ByteEncode(c, ByteEncode(c, r, d1), d2)
    decreases |d1|
  {
    if d1 == [] {
      assert d1 + d2 == d2;
    } else {
      assert (d1 + d2)[1..] == d1[1..] + d2;
      ByteEncodeSplit(c, ByteStep(c, r, d1[0]), d1[1..], d2);
    }
  }

  /** One byte of the byte path, in place. */
  method StepByte(c: Control, ecc: array<Word>, b: Byte)
    requires c.Valid() && ecc.Length == c.Words()
    modifies ecc
    ensures ecc[..] == ByteStep(c, old(ecc[..]), b)
  {
    hide Xor, Or, Shl, Shr, ShiftWord;
    ghost var r := ecc[..];
    var l := ecc.Length - 1;
    var p := c.Row(0, Xor(ecc[0][24..], b));
    for i := 0 to l
      invariant forall j :: i <= j <= l ==> ecc[j] == r[j]
      invariant forall j :: 0 <= j < i ==> ecc[j] == Xor(ShiftWord(r, j), p[j])
    {
      var moved := Or(Shl(ecc[i], 8), Shr(ecc[i + 1], 24));
      assert moved == ShiftWord(r, i) by { ShiftedWord(r, i); }
      ecc[i] := Xor(moved, p[i]);
    }
    assert Shl(r[l], 8) == ShiftWord(r, l) by { ShiftedWord(r, l); }
    ecc[l] := Xor(Shl(ecc[l], 8), p[l]);
    assert ecc[..] == XorAll(ByteShift(r), p);
  }

  lemma ShiftedWord(r: seq<Word>, i: nat)
    requires i < |r|
    ensures ShiftWord(r, i) == if i + 1 < |r| then Or(Shl(r[i], 8), Shr(r[i + 1], 24)) else Shl(r[i], 8)
  {
    OrZeros(Shl(r[i], 8));
  }

  method EncodeUnaligned(c: Control, data: seq<Byte>, ecc: array<Word>)
    requires c.Valid() && ecc.Length == c.Words()
    modifies ecc
    ensures ecc[..] == ByteEncode(c, old(ecc[..]), SwapAll(c, data))
  {
    ghost var swapped := SwapAll(c, data);
    for n := 0 to |data|
      invariant ByteEncode(c, ecc[..], swapped[n..]) == ByteEncode(c, old(ecc[..]), swapped)
    {
      assert swapped[n..][0] == swapped[n] && swapped[n..][1..] == swapped[n + 1..];
      var tmp := SwapBits(c, data[n]);
      StepByte(c, ecc, tmp);
    }
  }

  lemma OrZeros(w: Word)
    ensures Or(w, Zeros(32)) == w
    ensures Xor(Zeros(32), w) == w
  {
  }

  // ---------------------------------------------------------------------------------------------
  // The word path

  function WordStep(c: Control, r: seq<Word>, w: Word): (s: seq<Word>)
    requires c.Valid() && |r| == c.Words()
    ensures |s| == |r|
  {
    var v := Xor(w, r[0]);
    XorAll(XorAll(XorAll(XorAll(r[1..] + [Zeros(32)], c.Row(0, v[..8])), c.Row(1, v[8..16])), c.Row(2, v[16..24])),
           c.Row(3, v[24..]))
  }

  /** One turn of the word loop. */
  method StepWord(c: Control, r: array<Word>, word: Word)
    requires c.Valid() && r.Length == c.Words()
    modifies r
    ensures r[..] == WordStep(c, old(r[..]), word)
  {
    var l := c.Words() - 1;
    ghost var before := r[..];
    var w := Xor(word, r[0]);
    var p0, p1, p2, p3 := c.Row(0, w[..8]), c.Row(1, w[8..16]), c.Row(2, w[16..24]), c.Row(3, w[24..]);
    ghost var after := WordStep(c, before, word);
    for i := 0 to l
      invariant forall j :: i <= j <= l ==> r[j] == before[j]
      invariant forall j :: 0 <= j < i ==> r[j] == after[j]
    {
      r[i] := Xor(Xor(Xor(Xor(r[i + 1], p0[i]), p1[i]), p2[i]), p3[i]);
    }
    OrZeros(p0[l]);
    r[l] := Xor(Xor(Xor(p0[l], p1[l]), p2[l]), p3[l]);
  }

  // ---------------------------------------------------------------------------------------------
  // The register as one string of digits

  function Flat(r: seq<Word>): (f: Bits)
    ensures |f| == 32 * |r|
  {
    if r == [] then [] else Flat(r[1..]) + r[0]
  }

  lemma {:induction false} FlatInjective(r: seq<Word>, s: seq<Word>)
    requires |r| == |s| && Flat(r) == Flat(s)
    ensures r == s
  {
    if r != [] {
      var n := |Flat(r[1..])|;
      assert Flat(r[1..]) == Flat(r)[..n] && r[0] == Flat(r)[n..];
      assert Flat(s[1..]) == Flat(s)[..n] && s[0] == Flat(s)[n..];
      FlatInjective(r[1..], s[1..]);
    }
  }

  lemma {:induction false} FlatXor(r: seq<Word>, s: seq<Word>)
    requires |r| == |s|
    ensures Flat(XorAll(r, s)) == Xor(Flat(r), Flat(s))
  {
    if r != [] {
      FlatXor(r[1..], s[1..]);
      assert XorAll(r, s)[1..] == XorAll(r[1..], s[1..]);
    }
  }

  lemma ShiftPair(a: Word, b: Word)
    ensures Or(Shl(a, 8), Shr(b, 24)) == b[24..] + a[..24]
  {
    var w := Or(Shl(a, 8), Shr(b, 24));
    assert forall i :: 0 <= i < 32 ==> w[i] == (b[24..] + a[..24])[i];
  }

  lemma ShiftJoined(f: Bits, w: Word)
    requires |f| >= 8
    ensures Shl(f + w, 8) == Shl(f, 8) + (f[|f| - 8..] + w[..24])
  {
  }

  lemma {:induction false} FlatByteShift(r: seq<Word>)
    requires r != []
    ensures Flat(ByteShift(r)) == Shl(Flat(r), 8)
  {
    hide ByteShift, ShiftWord, Shl, Shr, Or;
    var rest := r[1..];
    ByteShiftTail(r);
    ShiftedWord(r, 0);
    if rest == [] {
      assert Flat(rest) == [] && Flat(ByteShift(rest)) == [];
      assert Flat(r) == [] + r[0] == r[0] && Flat(ByteShift(r)) == [] + ShiftWord(r, 0) == ShiftWord(r, 0);
    } else {
      calc {
        Flat(ByteShift(r));
        Flat(ByteShift(rest)) + ShiftWord(r, 0);
        { FlatByteShift(rest); ShiftPair(r[0], rest[0]); }
        Shl(Flat(rest), 8) + (rest[0][24..] + r[0][..24]);
        { FlatTop(rest); ShiftJoined(Flat(rest), r[0]); }
        Shl(Flat(rest) + r[0], 8);
      }
    }
  }

  lemma ByteShiftTail(r: seq<Word>)
    requires r != []
    ensures ByteShift(r) == [ShiftWord(r, 0)] + ByteShift(r[1..])
    ensures ByteShift(r)[0] == ShiftWord(r, 0) && ByteShift(r)[1..] == ByteShift(r[1..])
  {
    forall i | 0 < i < |r| ensures ShiftWord(r, i) == ShiftWord(r[1..], i - 1) {
    }
  }

  lemma FlatTop(r: seq<Word>)
    requires r != []
    ensures Flat(r)[32 * |r| - 32..] == r[0]
    ensures Flat(r)[32 * |r| - 8..] == r[0][24..]
  {
  }

  lemma {:induction false} FlatAppend(r: seq<Word>, w: Word)
    ensures Flat(r + [w]) == w + Flat(r)
  {
    if r == [] {
      assert [w][1..] == [];
    } else {
      assert (r + [w])[1..] == r[1..] + [w];
      FlatAppend(r[1..], w);
    }
  }

  // ---------------------------------------------------------------------------------------------
  // The linear map behind both paths

  /**
   What the tables owe to the generator polynomial they were built from: table 0 is additive, and each row of the
   next table is the same row of this one moved on by a zero byte.
   */
  ghost predicate FromGenerator(c: Control)
    requires c.Valid()
  {
    (forall a: Byte, b: Byte :: Additive(c, a, b)) && (forall k, b: Byte :: 0 <= k < 3 ==> Chained(c, k, b))
  }

  ghost predicate Additive(c: Control, a: Byte, b: Byte)
    requires c.Valid()
  {
    ByteIndex(Xor(a, b));
    ByteIndex(a);
    ByteIndex(b);
    c.rows[Value(Xor(a, b))] == XorAll(c.rows[Value(a)], c.rows[Value(b)])
  }

  ghost predicate Chained(c: Control, k: nat, b: Byte)
    requires c.Valid() && k < 3
  {
    ByteIndex(b);
    c.rows[256 * (k + 1) + Value(b)] == ByteStep(c, c.rows[256 * k + Value(b)], Zeros(8))
  }

  ghost predicate IsRegister(c: Control, f: Bits) {
    c.Valid() && |f| == 32 * c.Words()
  }

  function FlatRow(c: Control, k: nat, b: Byte): (f: Bits)
    requires c.Valid() && k < 4
    ensures |f| == 32 * c.Words()
  {
    Flat(c.Row(k, b))
  }

  /** The register after a zero byte. */
  function Advance(c: Control, f: Bits): (g: Bits)
    requires IsRegister(c, f)
    ensures |g| == |f|
  {
    Xor(Shl(f, 8), FlatRow(c, 0, f[|f| - 8..]))
  }

  function AdvanceN(c: Control, f: Bits, n: nat): (g: Bits)
    requires IsRegister(c, f)
    ensures |g| == |f|
  {
    if n == 0 then f else Advance(c, AdvanceN(c, f, n - 1))
  }

  /** Byte `b` at byte position `k`, counted from the top of a register of `n` digits. */
  function At(n: nat, b: Byte, k: nat): (f: Bits)
    requires 8 * k + 8 <= n
    ensures |f| == n
  {
    Zeros(n - 8 * k - 8) + b + Zeros(8 * k)
  }

  lemma AdvanceXor(c: Control, f: Bits, g: Bits)
    requires IsRegister(c, f) && IsRegister(c, g) && FromGenerator(c)
    ensures Advance(c, Xor(f, g)) == Xor(Advance(c, f), Advance(c, g))
  {
    var x, y := f[|f| - 8..], g[|g| - 8..];
    assert Xor(f, g)[|f| - 8..] == Xor(x, y);
    assert Additive(c, x, y);
    assert c.Row(0, Xor(x, y)) == XorAll(c.Row(0, x), c.Row(0, y));
    calc {
      Advance(c, Xor(f, g));
      { ShlXor(f, g, 8); FlatXor(c.Row(0, x), c.Row(0, y)); }
      Xor(Xor(Shl(f, 8), Shl(g, 8)), Xor(FlatRow(c, 0, x), FlatRow(c, 0, y)));
      { XorSwap(Shl(f, 8), Shl(g, 8), FlatRow(c, 0, x), FlatRow(c, 0, y)); }
      Xor(Advance(c, f), Advance(c, g));
    }
  }

  lemma ZeroRow(c: Control)
    requires c.Valid() && FromGenerator(c)
    ensures FlatRow(c, 0, Zeros(8)) == Zeros(32 * c.Words())
  {
    var z: Byte := Zeros(8);
    assert Xor(z, z) == z && Additive(c, z, z);
    assert c.Row(0, z) == XorAll(c.Row(0, z), c.Row(0, z));
    FlatXor(c.Row(0, z), c.Row(0, z));
  }

  /** While the top byte is zero, advancing only shifts. */
  lemma AdvanceLow(c: Control, f: Bits)
    requires IsRegister(c, f) && FromGenerator(c) && f[|f| - 8..] == Zeros(8)
    ensures Advance(c, f) == Shl(f, 8)
  {
    ZeroRow(c);
  }

  lemma AdvanceAt(c: Control, b: Byte, k: nat)
    requires c.Valid() && FromGenerator(c) && k < 4
    ensures Advance(c, At(32 * c.Words(), b, k))
         == if k == 0 then FlatRow(c, 0, b) else At(32 * c.Words(), b, k - 1)
  {
    hide At, Shl, FlatRow;
    var n := 32 * c.Words();
    if k == 0 {
      TopLeaves(n, b);
      XorZeros(FlatRow(c, 0, b));
    } else {
      LowMovesUp(n, b, k);
      AdvanceLow(c, At(n, b, k));
    }
  }

  lemma TopLeaves(n: nat, b: Byte)
    requires n >= 8
    ensures At(n, b, 0)[n - 8..] == b && Shl(At(n, b, 0), 8) == Zeros(n)
  {
    hide Shl;
    var a := At(n, b, 0);
    assert a[..n - 8] == Zeros(n - 8) && a[n - 8..] == b;
    ShlDrops(a, n - 8);
    assert Zeros(8) + Zeros(n - 8) == Zeros(n);
  }

  lemma LowMovesUp(n: nat, b: Byte, k: nat)
    requires 0 < k && 8 * k + 8 <= n
    ensures At(n, b, k)[n - 8..] == Zeros(8) && Shl(At(n, b, k), 8) == At(n, b, k - 1)
  {
    assert At(n, b, k)[n - 8..] == Zeros(8);
  }

  lemma {:induction false} AdvanceNXor(c: Control, f: Bits, g: Bits, n: nat)
    requires IsRegister(c, f) && IsRegister(c, g) && FromGenerator(c)
    ensures AdvanceN(c, Xor(f, g), n) == Xor(AdvanceN(c, f, n), AdvanceN(c, g, n))
  {
    hide Advance, Xor;
    if n != 0 {
      AdvanceNXor(c, f, g, n - 1);
      AdvanceXor(c, AdvanceN(c, f, n - 1), AdvanceN(c, g, n - 1));
    }
  }

  /** A byte of the message adds to the top byte of the register and is then advanced with it. */
  lemma FlatByteStep(c: Control, r: seq<Word>, b: Byte)
    requires c.Valid() && FromGenerator(c) && |r| == c.Words()
    ensures Flat(ByteStep(c, r, b)) == Advance(c, Xor(Flat(r), At(32 * c.Words(), b, 0)))
  {
    var f, row := Flat(r), c.Row(0, Xor(r[0][24..], b));
    calc {
      Flat(ByteStep(c, r, b));
      { FlatXor(ByteShift(r), row); FlatByteShift(r); }
      Xor(Shl(f, 8), Flat(row));
      { FlatTop(r); TopByte(f, b); }
      Advance(c, Xor(f, At(32 * c.Words(), b, 0)));
    }
  }

  lemma TopByte(f: Bits, b: Byte)
    requires |f| >= 8
    ensures Xor(f, At(|f|, b, 0))[|f| - 8..] == Xor(f[|f| - 8..], b)
    ensures Shl(Xor(f, At(|f|, b, 0)), 8) == Shl(f, 8)
  {
    hide Xor, Shl;
    var n := |f| - 8;
    var a := At(|f|, b, 0);
    assert a[..n] == Zeros(n) && a[n..] == b;
    XorParts(f, a, n);
    XorZeros(f[..n]);
    ShlDrops(Xor(f, a), n);
    ShlDrops(f, n);
  }

  lemma XorParts(f: Bits, g: Bits, n: nat)
    requires |f| == |g| && n <= |f|
    ensures Xor(f, g)[..n] == Xor(f[..n], g[..n]) && Xor(f, g)[n..] == Xor(f[n..], g[n..])
  {
  }

  lemma ShlDrops(f: Bits, n: nat)
    requires |f| == n + 8
    ensures Shl(f, 8) == Zeros(8) + f[..n]
  {
  }

  /** Moving a row of one table on by a zero byte gives the row of the next table. */
  lemma AdvanceRow(c: Control, k: nat, b: Byte)
    requires c.Valid() && FromGenerator(c) && k < 3
    ensures Advance(c, FlatRow(c, k, b)) == FlatRow(c, k + 1, b)
  {
    assert Chained(c, k, b);
    assert c.Row(k + 1, b) == ByteStep(c, c.Row(k, b), Zeros(8));
    FlatByteStep(c, c.Row(k, b), Zeros(8));
    assert At(32 * c.Words(), Zeros(8), 0) == Zeros(32 * c.Words());
    XorZeros(FlatRow(c, k, b));
  }

  /** A byte at position `j` below the top moves up to position 0 first, then runs through its rows of the tables. */
  lemma {:induction false} AdvanceNAt(c: Control, b: Byte, j: nat, n: nat)
    requires c.Valid() && FromGenerator(c) && j < 4 && n <= j + 4
    ensures AdvanceN(c, At(32 * c.Words(), b, j), n)
         == if n <= j then At(32 * c.Words(), b, j - n) else FlatRow(c, n - j - 1, b)
  {
    hide Advance, At, FlatRow;
    if n <= j {
      AdvanceNUp(c, b, j, n);
    } else if n == j + 1 {
      AdvanceNUp(c, b, j, j);
      AdvanceAt(c, b, 0);
    } else {
      AdvanceNAt(c, b, j, n - 1);
      AdvanceRow(c, n - j - 2, b);
    }
  }

  lemma {:induction false} AdvanceNUp(c: Control, b: Byte, j: nat, n: nat)
    requires c.Valid() && FromGenerator(c) && n <= j < 4
    ensures AdvanceN(c, At(32 * c.Words(), b, j), n) == At(32 * c.Words(), b, j - n)
  {
    hide Advance, At, FlatRow;
    if n != 0 {
      AdvanceNUp(c, b, j, n - 1);
      AdvanceAt(c, b, j - (n - 1));
    }
  }

  /** What lies below the top word only moves up. */
  lemma {:induction false} AdvanceNLow(c: Control, f: Bits, n: nat)
    requires IsRegister(c, f) && FromGenerator(c) && f[|f| - 32..] == Zeros(32) && n <= 4
    ensures AdvanceN(c, f, n) == Shl(f, 8 * n)
  {
    hide Advance;
    if n == 0 {
      assert Shl(f, 0) == f;
    } else {
      AdvanceNLow(c, f, n - 1);
      ShiftedLow(f, 8 * (n - 1));
      AdvanceLow(c, Shl(f, 8 * (n - 1)));
    }
  }

  lemma ShiftedLow(f: Bits, k: nat)
    requires |f| >= 32 && k <= 24 && f[|f| - 32..] == Zeros(32)
    ensures Shl(f, k)[|f| - 8..] == Zeros(8) && Shl(Shl(f, k), 8) == Shl(f, k + 8)
  {
    assert Shl(f, k)[|f| - 8..] == f[|f| - 32..][24 - k..32 - k];
  }

  // ---------------------------------------------------------------------------------------------
  // One word is four bytes

  /** The register `f` with four bytes added to its top word, one after the other. */
  function AddedBytes(f: Bits, b0: Byte, b1: Byte, b2: Byte, b3: Byte): (g: Bits)
    requires |f| >= 32
    ensures |g| == |f|
  {
    Xor(Xor(Xor(Xor(f, At(|f|, b0, 0)), At(|f|, b1, 1)), At(|f|, b2, 2)), At(|f|, b3, 3))
  }

  /** The register `f` with the bytes of `w` added to its top word, the highest first. */
  function Added(f: Bits, w: Word): (g: Bits)
    requires |f| >= 32
    ensures |g| == |f|
  {
    AddedBytes(f, w[24..], w[16..24], w[8..16], w[..8])
  }

  lemma AddedIsTop(f: Bits, t: Word, w: Word)
    ensures Added(f + t, w) == f + Xor(t, w)
  {
    hide Xor, At;
    var t1 := Xor(t, At(32, w[24..], 0));
    var t2 := Xor(t1, At(32, w[16..24], 1));
    var t3 := Xor(t2, At(32, w[8..16], 2));
    var t4 := Xor(t3, At(32, w[..8], 3));
    AddToTop(f, t, w[24..], 0);
    AddToTop(f, t1, w[16..24], 1);
    AddToTop(f, t2, w[8..16], 2);
    AddToTop(f, t3, w[..8], 3);
    assert t4 == Xor(t, w) by { FourAdded(t, w); }
  }

  lemma FourAdded(t: Word, w: Word)
    ensures Xor(Xor(Xor(Xor(t, At(32, w[24..], 0)), At(32, w[16..24], 1)), At(32, w[8..16], 2)), At(32, w[..8], 3))
         == Xor(t, w)
  {
    assert At(32, w[24..], 0) == Zeros(24) + w[24..] && At(32, w[..8], 3) == w[..8] + Zeros(24);
  }

  lemma AddToTop(f: Bits, t: Word, b: Byte, k: nat)
    requires k < 4
    ensures Xor(f + t, At(|f| + 32, b, k)) == f + Xor(t, At(32, b, k))
  {
  }

  /** The next byte, seen from the start: it enters one byte position further down and is advanced once more. */
  lemma NextByte(c: Control, r: seq<Word>, g: Bits, b: Byte, k: nat)
    requires c.Valid() && FromGenerator(c) && |r| == c.Words() && IsRegister(c, g) && k < 4
    requires Flat(r) == AdvanceN(c, g, k)
    ensures Flat(ByteStep(c, r, b)) == AdvanceN(c, Xor(g, At(|g|, b, k)), k + 1)
  {
    FlatByteStep(c, r, b);
    AdvanceNAt(c, b, k, k);
    AdvanceNXor(c, g, At(|g|, b, k), k);
  }

  lemma NotAdvanced(c: Control, g: Bits)
    requires IsRegister(c, g)
    ensures AdvanceN(c, g, 0) == g
  {
  }

  lemma FourBytes(c: Control, r: seq<Word>, b0: Byte, b1: Byte, b2: Byte, b3: Byte) returns (s: seq<Word>)
    requires c.Valid() && FromGenerator(c) && |r| == c.Words()
    ensures s == ByteStep(c, ByteStep(c, ByteStep(c, ByteStep(c, r, b0), b1), b2), b3)
    ensures |s| == |r| && Flat(s) == AdvanceN(c, AddedBytes(Flat(r), b0, b1, b2, b3), 4)
  {
    hide ByteStep, AdvanceN, At, Xor, Flat;
    var n, g := 32 * c.Words(), Flat(r);
    var r1, g1 := ByteStep(c, r, b0), Xor(g, At(n, b0, 0));
    var r2, g2 := ByteStep(c, r1, b1), Xor(g1, At(n, b1, 1));
    var r3, g3 := ByteStep(c, r2, b2), Xor(g2, At(n, b2, 2));
    s := ByteStep(c, r3, b3);
    assert Flat(r) == AdvanceN(c, g, 0) by { NotAdvanced(c, g); }
    assert Flat(r1) == AdvanceN(c, g1, 1) by { NextByte(c, r, g, b0, 0); }
    assert Flat(r2) == AdvanceN(c, g2, 2) by { NextByte(c, r1, g1, b1, 1); }
    assert Flat(r3) == AdvanceN(c, g3, 3) by { NextByte(c, r2, g2, b2, 2); }
    NextByte(c, r3, g3, b3, 3);
  }

  /** A byte added at position `k` of the top word contributes its row of table `3 - k`. */
  lemma AddRow(c: Control, f: Bits, b: Byte, k: nat)
    requires IsRegister(c, f) && FromGenerator(c) && k < 4
    ensures AdvanceN(c, Xor(f, At(|f|, b, k)), 4) == Xor(AdvanceN(c, f, 4), FlatRow(c, 3 - k, b))
  {
    hide Advance, At, FlatRow;
    AdvanceNXor(c, f, At(|f|, b, k), 4);
    AdvanceNAt(c, b, k, 4);
  }

  function SumOfRows(m: Bits, a: Bits, b: Bits, c: Bits, d: Bits): Bits
    requires |m| == |a| == |b| == |c| == |d|
  {
    Xor(Xor(Xor(Xor(m, a), b), c), d)
  }

  lemma SumReversed(m: Bits, a: Bits, b: Bits, c: Bits, d: Bits)
    requires |m| == |a| == |b| == |c| == |d|
    ensures SumOfRows(m, a, b, c, d) == SumOfRows(m, d, c, b, a)
  {
  }

  lemma AddRows(c: Control, f: Bits, v: Word)
    requires IsRegister(c, f) && FromGenerator(c)
    ensures AdvanceN(c, Added(f, v), 4)
         == SumOfRows(AdvanceN(c, f, 4), FlatRow(c, 3, v[24..]), FlatRow(c, 2, v[16..24]), FlatRow(c, 1, v[8..16]),
                      FlatRow(c, 0, v[..8]))
  {
    hide AdvanceN, FlatRow, At, Xor;
    var n := |f|;
    var f1 := Xor(f, At(n, v[24..], 0));
    var f2 := Xor(f1, At(n, v[16..24], 1));
    var f3 := Xor(f2, At(n, v[8..16], 2));
    var f4 := Xor(f3, At(n, v[..8], 3));
    assert f4 == Added(f, v);
    assert AdvanceN(c, f1, 4) == Xor(AdvanceN(c, f, 4), FlatRow(c, 3, v[24..])) by { AddRow(c, f, v[24..], 0); }
    assert AdvanceN(c, f2, 4) == Xor(AdvanceN(c, f1, 4), FlatRow(c, 2, v[16..24])) by { AddRow(c, f1, v[16..24], 1); }
    assert AdvanceN(c, f3, 4) == Xor(AdvanceN(c, f2, 4), FlatRow(c, 1, v[8..16])) by { AddRow(c, f2, v[8..16], 2); }
    assert AdvanceN(c, f4, 4) == Xor(AdvanceN(c, f3, 4), FlatRow(c, 0, v[..8])) by { AddRow(c, f3, v[..8], 3); }
  }

  lemma FlatSum(m: seq<Word>, a: seq<Word>, b: seq<Word>, c: seq<Word>, d: seq<Word>)
    requires |m| == |a| == |b| == |c| == |d|
    ensures Flat(XorAll(XorAll(XorAll(XorAll(m, a), b), c), d)) == SumOfRows(Flat(m), Flat(a), Flat(b), Flat(c), Flat(d))
  {
    FlatXor(m, a);
    FlatXor(XorAll(m, a), b);
    FlatXor(XorAll(XorAll(m, a), b), c);
    FlatXor(XorAll(XorAll(XorAll(m, a), b), c), d);
  }

  lemma SameTop(f: Bits, top: Word, w: Word)
    ensures Added(f + top, w) == Added(f + Zeros(32), Xor(w, top))
  {
    AddedIsTop(f, top, w);
    AddedIsTop(f, Zeros(32), Xor(w, top));
    assert Xor(top, w) == Xor(Zeros(32), Xor(w, top));
  }

  lemma FlatWordStep(c: Control, r: seq<Word>, w: Word)
    requires c.Valid() && FromGenerator(c) && |r| == c.Words()
    ensures Flat(WordStep(c, r, w)) == AdvanceN(c, Added(Flat(r), w), 4)
  {
    var v := Xor(w, r[0]);
    var low := Flat(r[1..]) + Zeros(32);
    var m := r[1..] + [Zeros(32)];
    calc {
      Flat(WordStep(c, r, w));
      { FlatSum(m, c.Row(0, v[..8]), c.Row(1, v[8..16]), c.Row(2, v[16..24]), c.Row(3, v[24..])); }
      SumOfRows(Flat(m), FlatRow(c, 0, v[..8]), FlatRow(c, 1, v[8..16]), FlatRow(c, 2, v[16..24]), FlatRow(c, 3, v[24..]));
      {
        SumReversed(Flat(m), FlatRow(c, 0, v[..8]), FlatRow(c, 1, v[8..16]), FlatRow(c, 2, v[16..24]),
                    FlatRow(c, 3, v[24..]));
      }
      SumOfRows(Flat(m), FlatRow(c, 3, v[24..]), FlatRow(c, 2, v[16..24]), FlatRow(c, 1, v[8..16]), FlatRow(c, 0, v[..8]));
      { LowPart(c, r[1..]); AddRows(c, low, v); }
      AdvanceN(c, Added(low, v), 4);
      { SameTop(Flat(r[1..]), r[0], w); }
      AdvanceN(c, Added(Flat(r), w), 4);
    }
  }

  lemma LowPart(c: Control, s: seq<Word>)
    requires c.Valid() && FromGenerator(c) && |s| == c.Words() - 1
    ensures AdvanceN(c, Flat(s) + Zeros(32), 4) == Flat(s + [Zeros(32)])
  {
    var low := Flat(s) + Zeros(32);
    assert low[|low| - 32..] == Zeros(32);
    AdvanceNLow(c, low, 4);
    FlatAppend(s, Zeros(32));
    assert Shl(low, 32) == Zeros(32) + Flat(s);
  }

  /** The bytes of a word in memory order. */
  function WordBytes(w: Word): (b: seq<Byte>)
    ensures |b| == 4
  {
    [w[24..], w[16..24], w[8..16], w[..8]]
  }

  lemma BytesOfWord(c: Control, r: seq<Word>, w: Word) returns (s: seq<Word>)
    requires c.Valid() && FromGenerator(c) && |r| == c.Words()
    ensures s == ByteEncode(c, r, WordBytes(w)) && |s| == |r|
    ensures Flat(s) == AdvanceN(c, Added(Flat(r), w), 4)
  {
    hide ByteStep, AdvanceN, Flat, At, Xor;
    s := FourBytes(c, r, w[24..], w[16..24], w[8..16], w[..8]);
    EncodeFour(c, r, w[24..], w[16..24], w[8..16], w[..8]);
  }

  /** One turn of the word loop does what four turns of the byte loop do. */
  lemma WordIsFourBytes(c: Control, r: seq<Word>, w: Word)
    requires c.Valid() && FromGenerator(c) && |r| == c.Words()
    ensures WordStep(c, r, w) == ByteEncode(c, r, WordBytes(w))
  {
    var s := BytesOfWord(c, r, w);
    FlatWordStep(c, r, w);
    FlatInjective(WordStep(c, r, w), s);
  }

  lemma EncodeFour(c: Control, r: seq<Word>, b0: Byte, b1: Byte, b2: Byte, b3: Byte)
    requires c.Valid() && |r| == c.Words()
    ensures ByteEncode(c, r, [b0, b1, b2, b3]) == ByteStep(c, ByteStep(c, ByteStep(c, ByteStep(c, r, b0), b1), b2), b3)
  {
    EncodePair(c, r, b0, b1);
    EncodePair(c, ByteStep(c, ByteStep(c, r, b0), b1), b2, b3);
    ByteEncodeSplit(c, r, [b0, b1], [b2, b3]);
    assert [b0, b1] + [b2, b3] == [b0, b1, b2, b3];
  }

  lemma EncodePair(c: Control, r: seq<Word>, a: Byte, b: Byte)
    requires c.Valid() && |r| == c.Words()
    ensures ByteEncode(c, r, [a, b]) == ByteStep(c, ByteStep(c, r, a), b)
  {
    var s := ByteStep(c, r, a);
    assert [a, b][1..] == [b] && [b][1..] == [];
    assert ByteEncode(c, s, [b]) == ByteEncode(c, ByteStep(c, s, b), []);
  }

  // ---------------------------------------------------------------------------------------------
  // The encoder

  method TurnWord(c: Control, r: array<Word>, w: Word)
    requires c.Valid() && FromGenerator(c) && r.Length == c.Words()
    modifies r
    ensures r[..] == ByteEncode(c, old(r[..]), WordBytes(w))
  {
    WordIsFourBytes(c, r[..], w);
    StepWord(c, r, w);
  }

  /** The word loop's bit swapping, byte by byte within the word. */
  function SwapWord(c: Control, w: Word): Word {
    if c.swap then
      Join(SwapBits(c, w[24..]), SwapBits(c, w[16..24]), SwapBits(c, w[8..16]), SwapBits(c, w[..8]))
    else w
  }

  lemma JoinBytes(b0: Byte, b1: Byte, b2: Byte, b3: Byte)
    ensures WordBytes(Join(b0, b1, b2, b3)) == [b0, b1, b2, b3]
  {
    var w := b3 + b2 + b1 + b0;
    assert w[24..] == b0 && w[16..24] == b1 && w[8..16] == b2 && w[..8] == b3;
  }

  /** The next word of the loop is the next four bytes, swapped. */
  lemma NextWord(c: Control, data: seq<Byte>, n: nat)
    requires 4 * n + 4 <= |data|
    ensures SwapAll(c, data)[4 * n..]
         == WordBytes(SwapWord(c, Join(data[4 * n], data[4 * n + 1], data[4 * n + 2], data[4 * n + 3])))
            + SwapAll(c, data)[4 * (n + 1)..]
  {
    hide SwapBits, Reverse, Join;
    var b0, b1, b2, b3 := data[4 * n], data[4 * n + 1], data[4 * n + 2], data[4 * n + 3];
    JoinBytes(b0, b1, b2, b3);
    JoinBytes(SwapBits(c, b0), SwapBits(c, b1), SwapBits(c, b2), SwapBits(c, b3));
    assert WordBytes(SwapWord(c, Join(b0, b1, b2, b3)))
        == [SwapBits(c, b0), SwapBits(c, b1), SwapBits(c, b2), SwapBits(c, b3)];
  }

  /** The word loop over the aligned part of the data. */
  method EncodeWords(c: Control, data: seq<Byte>, r: array<Word>)
    requires c.Valid() && FromGenerator(c) && r.Length == c.Words() && |data| % 4 == 0
    modifies r
    ensures r[..] == ByteEncode(c, old(r[..]), SwapAll(c, data))
  {
    ghost var swapped := SwapAll(c, data);
    for n := 0 to |data| / 4
      invariant ByteEncode(c, r[..], swapped[4 * n..]) == ByteEncode(c, old(r[..]), swapped)
    {
      NextWord(c, data, n);
      var w := SwapWord(c, Join(data[4 * n], data[4 * n + 1], data[4 * n + 2], data[4 * n + 3]));
      ByteEncodeSplit(c, r[..], WordBytes(w), swapped[4 * (n + 1)..]);
      TurnWord(c, r, w);
    }
    assert swapped[|data|..] == [];
  }

  /** Data at an aligned address: whole words in the local register `r`, then the bytes that are left. */
  method EncodeAligned(c: Control, data: seq<Byte>, buf: array<Word>)
    requires c.Valid() && FromGenerator(c) && buf.Length == c.Words()
    modifies buf
    ensures buf[..] == ByteEncode(c, old(buf[..]), SwapAll(c, data))
  {
    ghost var s0 := buf[..];
    var end := |data| / 4 * 4;
    var r := new Word[buf.Length](i => Zeros(32));
    CopyWords(r, buf);
    EncodeWords(c, data[..end], r);
    CopyWords(buf, r);
    ghost var s1 := buf[..];
    if end < |data| {
      EncodeUnaligned(c, data[end..], buf);
    } else {
      NothingLeft(c, s1);
      assert data[end..] == [];
    }
    TwoParts(c, data, end, s0, s1);
  }

  /** Bytes up to the first aligned address, then the rest; `address` is where the data lies. */
  method EncodeParts(c: Control, address: nat, data: seq<Byte>, buf: array<Word>)
    requires c.Valid() && FromGenerator(c) && buf.Length == c.Words()
    modifies buf
    ensures buf[..] == ByteEncode(c, old(buf[..]), SwapAll(c, data))
  {
    ghost var s0 := buf[..];
    var m := address % 4;
    if m != 0 {
      var mlen := if |data| < 4 - m then |data| else 4 - m;
      EncodeUnaligned(c, data[..mlen], buf);
      TwoParts(c, data, mlen, s0, buf[..]);
      EncodeAligned(c, data[mlen..], buf);
    } else {
      EncodeAligned(c, data, buf);
    }
  }

  method CopyWords(dst: array<Word>, src: array<Word>)
    requires dst.Length == src.Length && dst != src
    modifies dst
    ensures dst[..] == src[..]
  {
    for i := 0 to dst.Length
      invariant forall j :: 0 <= j < i ==> dst[j] == src[j]
    {
      dst[i] := src[i];
    }
  }

  method ClearWords(dst: array<Word>)
    modifies dst
    ensures dst[..] == seq(dst.Length, i => Zeros(32))
  {
    for i := 0 to dst.Length
      invariant forall j :: 0 <= j < i ==> dst[j] == Zeros(32)
    {
      dst[i] := Zeros(32);
    }
  }

  /**
   `bch_encode`. The register ends up where feeding every byte to the byte path would have left it, whatever the
   alignment and the length of the data; a code too wide for the local register is refused.
   */
  method Encode(c: Control, address: nat, data: seq<Byte>, ecc: array?<Byte>, buf: array<Word>)
    requires c.Valid() && FromGenerator(c) && buf.Length == c.Words()
    requires ecc != null ==> ecc.Length == c.Bytes()
    modifies buf, if ecc == null then {} else {ecc}
    ensures c.Words() > MAX_WORDS ==> buf[..] == old(buf[..]) && (ecc != null ==> ecc[..] == old(ecc[..]))
    ensures c.Words() <= MAX_WORDS && ecc == null ==>
              buf[..] == ByteEncode(c, seq(c.Words(), i => Zeros(32)), SwapAll(c, data))
    ensures c.Words() <= MAX_WORDS && ecc != null ==>
              buf[..] == ByteEncode(c, LoadWords(c, old(ecc[..])), SwapAll(c, data)) && ecc[..] == StoreBytes(c, buf[..])
  {
    if c.Words() > MAX_WORDS {
      return;
    }
    if ecc != null {
      LoadEcc8(c, buf, ecc);
    } else {
      ClearWords(buf);
    }
    EncodeParts(c, address, data, buf);
    if ecc != null {
      StoreEcc8(c, ecc, buf);
    }
  }

  lemma TwoParts(c: Control, data: seq<Byte>, i: nat, s0: seq<Word>, s1: seq<Word>)
    requires c.Valid() && |s0| == c.Words() && i <= |data|
    requires s1 == ByteEncode(c, s0, SwapAll(c, data[..i]))
    ensures ByteEncode(c, s1, SwapAll(c, data[i..])) == ByteEncode(c, s0, SwapAll(c, data))
  {
    SwapParts(c, data, i);
    ByteEncodeSplit(c, s0, SwapAll(c, data[..i]), SwapAll(c, data[i..]));
  }

  lemma NothingLeft(c: Control, r: seq<Word>)
    requires c.Valid() && |r| == c.Words()
    ensures ByteEncode(c, r, SwapAll(c, [])) == r
  {
    assert SwapAll(c, []) == [];
  }

  lemma SwapParts(c: Control, data: seq<Byte>, j: nat)
    requires j <= |data|
    ensures SwapAll(c, data) == SwapAll(c, data[..j]) + SwapAll(c, data[j..])
  {
  }

  // ---------------------------------------------------------------------------------------------
  // Encoding in several calls

  /** What `Encode` stores for data that continues a code word whose ECC so far is `ecc`. */
  function Continue(c: Control, ecc: seq<Byte>, data: seq<Byte>): (r: seq<Byte>)
    requires c.Valid() && |ecc| == c.Bytes()
    ensures |r| == c.Bytes()
  {
    StoreBytes(c, ByteEncode(c, LoadWords(c, ecc), SwapAll(c, data)))
  }

  /** No row of table 0 has digits outside the code's bytes. */
  ghost predicate RowsPadded(c: Control)
    requires c.Valid()
  {
    forall b: Byte :: Padded(c, c.Row(0, b))
  }

  lemma LastWord(c: Control, r: seq<Word>, b: Byte)
    requires c.Valid() && |r| == c.Words()
    ensures ByteStep(c, r, b)[|r| - 1] == Xor(Shl(r[|r| - 1], 8), c.Row(0, Xor(r[0][24..], b))[|r| - 1])
  {
    OrZeros(Shl(r[|r| - 1], 8));
  }

  lemma ZeroSum(x: Word, y: Word, k: nat)
    requires k < 4 && ByteOf(y, k) == Zeros(8) && (k < 3 ==> ByteOf(x, k + 1) == Zeros(8))
    ensures ByteOf(Xor(Shl(x, 8), y), k) == Zeros(8)
  {
    var z := ByteOf(Xor(Shl(x, 8), y), k);
    forall i | 0 <= i < 8 ensures !z[i] {
      assert !ByteOf(y, k)[i];
      if k < 3 { assert !ByteOf(x, k + 1)[i]; }
    }
  }

  lemma ByteStepPadded(c: Control, r: seq<Word>, b: Byte)
    requires c.Valid() && RowsPadded(c) && Padded(c, r)
    ensures Padded(c, ByteStep(c, r, b))
  {
    LastWord(c, r, b);
    SumPadded(c, r, c.Row(0, Xor(r[0][24..], b)), ByteStep(c, r, b));
  }

  lemma SumPadded(c: Control, r: seq<Word>, row: seq<Word>, s: seq<Word>)
    requires c.Words() > 0 && Padded(c, r) && Padded(c, row) && |s| == |r|
    requires s[|r| - 1] == Xor(Shl(r[|r| - 1], 8), row[|r| - 1])
    ensures Padded(c, s)
  {
    forall j | c.Bytes() <= j < 4 * c.Words() ensures StoreByte(c, s, j) == Zeros(8) {
      SumByte(c, r, row, s[j / 4], j);
    }
  }

  lemma SumByte(c: Control, r: seq<Word>, row: seq<Word>, w: Word, j: nat)
    requires c.Words() > 0 && Padded(c, r) && Padded(c, row) && c.Bytes() <= j < 4 * c.Words()
    requires w == Xor(Shl(r[|r| - 1], 8), row[|r| - 1])
    ensures SwapBits(c, ByteOf(w, j % 4)) == Zeros(8)
  {
    var k, x, y := j % 4, r[|r| - 1], row[|r| - 1];
    TailIndex(c, j);
    PaddedByteIsZero(c, row, j);
    if k < 3 {
      PaddedByteIsZero(c, r, j + 1);
    }
    ZeroSum(x, y, k);
    ZeroBytes(c);
  }

  lemma TailIndex(c: Control, j: nat)
    requires c.Words() > 0 && c.Bytes() <= j < 4 * c.Words()
    ensures j / 4 == c.Words() - 1
    ensures j % 4 < 3 ==> (j + 1) / 4 == c.Words() - 1 && (j + 1) % 4 == j % 4 + 1 && j + 1 < 4 * c.Words()
  {
  }

  lemma ZeroBytes(c: Control)
    ensures Xor(Zeros(8), Zeros(8)) == Zeros(8) && SwapBits(c, Zeros(8)) == Zeros(8)
  {
    assert Reverse(Zeros(8)) == Zeros(8);
  }

  lemma PaddedByteIsZero(c: Control, r: seq<Word>, j: nat)
    requires Padded(c, r) && c.Bytes() <= j < 4 * c.Words()
    ensures ByteOf(r[j / 4], j % 4) == Zeros(8)
  {
    assert StoreByte(c, r, j) == Zeros(8);
    SwapTwice(c, ByteOf(r[j / 4], j % 4));
    ZeroBytes(c);
  }

  lemma {:induction false} ByteEncodePadded(c: Control, r: seq<Word>, data: seq<Byte>)
    requires c.Valid() && RowsPadded(c) && Padded(c, r)
    ensures Padded(c, ByteEncode(c, r, data))
    decreases |data|
  {
    if data != [] {
      ByteStepPadded(c, r, data[0]);
      ByteEncodePadded(c, ByteStep(c, r, data[0]), data[1..]);
    }
  }

  /** Two calls, the second handed the ECC bytes of the first, leave what one call on all the data leaves. */
  lemma EncodingIsIncremental(c: Control, ecc: seq<Byte>, d1: seq<Byte>, d2: seq<Byte>)
    requires c.Valid() && RowsPadded(c) && |ecc| == c.Bytes()
    ensures Continue(c, ecc, d1 + d2) == Continue(c, Continue(c, ecc, d1), d2)
  {
    hide ByteEncode, LoadWords, StoreBytes, Padded;
    var r := LoadWords(c, ecc);
    var s := ByteEncode(c, r, SwapAll(c, d1));
    StoreAfterLoad(c, ecc);
    LoadAfterStore(c, r);
    ByteEncodePadded(c, r, SwapAll(c, d1));
    LoadAfterStore(c, s);
    SwapParts(c, d1 + d2, |d1|);
    assert (d1 + d2)[..|d1|] == d1 && (d1 + d2)[|d1|..] == d2;
    ByteEncodeSplit(c, r, SwapAll(c, d1), SwapAll(c, d2));
  }

  // ---------------------------------------------------------------------------------------------
  // Bit swapping

  lemma {:induction false} SwapUnused(c: Control, r: seq<Word>, data: seq<Byte>)
    requires c.Valid() && |r| == c.Words()
    ensures c.(swap := false).Valid() && ByteEncode(c, r, data) == ByteEncode(c.(swap := false), r, data)
    decreases |data|
  {
    if data != [] {
      StepWithout(c, r, data[0]);
      SwapUnused(c, ByteStep(c, r, data[0]), data[1..]);
    }
  }

  lemma StepWithout(c: Control, r: seq<Word>, b: Byte)
    requires c.Valid() && |r| == c.Words()
    ensures c.(swap := false).Valid() && ByteStep(c, r, b) == ByteStep(c.(swap := false), r, b)
  {
  }

  /**
   Encoding with swapping is encoding without it on reversed data and reversed ECC bytes, the result reversed; without
   swapping the data enters as it is.
   */
  lemma SwappedEncoding(c: Control, ecc: seq<Byte>, data: seq<Byte>)
    requires c.Valid() && |ecc| == c.Bytes()
    ensures c.(swap := false).Valid()
    ensures c.swap ==> Continue(c, ecc, data) == ReverseAll(Continue(c.(swap := false), ReverseAll(ecc), ReverseAll(data)))
    ensures !c.swap ==> Continue(c, ecc, data) == StoreBytes(c, ByteEncode(c, LoadWords(c, ecc), data))
  {
    hide ByteEncode, LoadWords, StoreBytes, SwapBits;
    var plain := c.(swap := false);
    LoadSwapped(c, ecc);
    SwapUnused(c, LoadWords(c, ecc), SwapAll(c, data));
    StoreSwapped(c, ByteEncode(c, LoadWords(c, ecc), SwapAll(c, data)));
    assert SwapAll(c, data) == if c.swap then SwapAll(plain, ReverseAll(data)) else data;
  }

  /** What one byte leaves in an empty register: its own row of the first table, or that of the reversed byte. */
  lemma OneByte(c: Control, b: Byte)
    requires c.Valid()
    ensures Value(b) < 256 && Value(Reverse(b)) < 256
    ensures ByteEncode(c, seq(c.Words(), i => Zeros(32)), SwapAll(c, [b]))
         == c.rows[if c.swap then Value(Reverse(b)) else Value(b)]
  {
    hide SwapBits, Xor, Or, Shl, Shr, Value;
    var zero: seq<Word> := seq(c.Words(), i => Zeros(32));
    var d: Byte := if c.swap then Reverse(b) else b;
    ByteIndex(b);
    ByteIndex(Reverse(b));
    assert SwapAll(c, [b]) == [d] && [d][1..] == [];
    assert Zeros(32)[24..] == Zeros(8);
    XorZeros(d);
    forall i | 0 <= i < c.Words() ensures ByteStep(c, zero, d)[i] == c.rows[Value(d)][i] {
      ZeroMoved(zero, i);
      OrZeros(c.Row(0, d)[i]);
    }
    assert ByteStep(c, zero, d) == c.rows[Value(d)];
    assert ByteEncode(c, zero, [d]) == ByteEncode(c, ByteStep(c, zero, d), []);
  }

  lemma ZeroMoved(r: seq<Word>, i: nat)
    requires i < |r| && forall k :: 0 <= k < |r| ==> r[k] == Zeros(32)
    ensures ShiftWord(r, i) == Zeros(32)
  {
    assert Shl(Zeros(32), 8) == Zeros(32) && Shr(Zeros(32), 24) == Zeros(32);
    OrZeros(Zeros(32));
  }
}
