/**
 The table-driven reflected CRC-32 against the bit-serial division it stands for.
 */
module Crc32 {
  import opened Words

  /** One shift of the register: the digit that leaves decides whether the polynomial is added. */
  function Shift(poly: Word, crc: Word): Word {
    if crc[0] then Xor(Shr(crc, 1), poly) else Shr(crc, 1)
  }

  function Shifts(poly: Word, crc: Word, n: nat): Word {
    if n == 0 then crc else Shift(poly, Shifts(poly, crc, n - 1))
  }

  /** `u32 crc = i`: the table index as a word. */
  function Widen(b: Byte): Word { b + Zeros(24) }

  /**
   The reference: the message enters as a stream of single digits, least significant digit of each byte first.
   */
  function Serial(poly: Word, crc: Word, message: Bits): Word
    decreases |message|
  {
    if message == [] then crc
    else Serial(poly, Shift(poly, [crc[0] != message[0]] + crc[1..]), message[1..])
  }

  function Stream(data: seq<Byte>): Bits {
    if data == [] then [] else data[0] + Stream(data[1..])
  }

  ghost predicate IsTable(poly: Word, table: seq<Word>) {
    |table| == 256 && forall b: Byte :: Value(b) < 256 && table[Value(b)] == Shifts(poly, Widen(b), 8)
  }

  method InitTable(poly: Word, table: array<Word>)
    requires table.Length == 256
    modifies table
    ensures IsTable(poly, table[..])
  {
    for i := 0 to 256
      invariant forall b: Byte :: Value(b) < i ==> table[Value(b)] == Shifts(poly, Widen(b), 8)
    {
      var index: Byte := OfNat(i, 8);
      var crc: Word := Widen(index);
      for bit := 0 to 8
        invariant crc == Shifts(poly, Widen(index), bit)
        invariant forall b: Byte :: Value(b) < i ==> table[Value(b)] == Shifts(poly, Widen(b), 8)
      {
        crc := if crc[0] then Xor(Shr(crc, 1), poly) else Shr(crc, 1);
      }
      table[i] := crc;
      forall b: Byte | Value(b) == i ensures b == index { ByteIndex(b); }
    }
    forall b: Byte ensures Value(b) < 256 { ByteIndex(b); }
  }

  /** The message loop, with the table it is handed. */
  method Crc32Le(crc0: Word, data: seq<Byte>, table: array<Word>, ghost poly: Word) returns (crc: Word)
    requires IsTable(poly, table[..])
    ensures crc == Serial(poly, crc0, Stream(data)) && exists q :: Divides(poly, crc0, Stream(data), q, crc)
  {
    hide Divides;
    crc := crc0;
    for i := 0 to |data|
      invariant Serial(poly, crc, Stream(data[i..])) == Serial(poly, crc0, Stream(data))
    {
      assert data[i..][0] == data[i] && data[i..][1..] == data[i + 1..];
      ghost var before := crc;
      crc := Xor(crc, Widen(data[i]));
      ByteIndex(crc[..8]);
      crc := Xor(Shr(crc, 8), table[Value(crc[..8])]);
      ByteStep(poly, before, data[i], Stream(data[i + 1..]));
    }
    ghost var q := SerialIsRemainder(poly, crc0, Stream(data));
  }

  /** The register is linear: shifting a sum is the sum of the shifts. */
  lemma ShiftXor(poly: Word, a: Word, b: Word)
    ensures Shift(poly, Xor(a, b)) == Xor(Shift(poly, a), Shift(poly, b))
  {
    var l, r := Shift(poly, Xor(a, b)), Xor(Shift(poly, a), Shift(poly, b));
    assert forall i :: 0 <= i < 32 ==> l[i] == r[i];
  }

  lemma {:induction false} ShiftsXor(poly: Word, a: Word, b: Word, n: nat)
    ensures Shifts(poly, Xor(a, b), n) == Xor(Shifts(poly, a, n), Shifts(poly, b, n))
  {
    if n != 0 {
      ShiftsXor(poly, a, b, n - 1);
      ShiftXor(poly, Shifts(poly, a, n - 1), Shifts(poly, b, n - 1));
    }
  }

  /** As long as only zeros leave the register, the polynomial is never added. */
  lemma {:induction false} ShiftsOfHighPart(poly: Word, a: Word, n: nat)
    requires n <= 8 && a[..8] == Zeros(8)
    ensures Shifts(poly, a, n) == Shr(a, n)
  {
    if n != 0 {
      ShiftsOfHighPart(poly, a, n - 1);
      assert Shr(a, n - 1)[0] == a[n - 1] == a[..8][n - 1];
      assert Shr(Shr(a, n - 1), 1) == Shr(a, n);
    }
  }

  /** One table look-up is eight shifts. */
  lemma LookUp(poly: Word, a: Word)
    ensures Shifts(poly, a, 8) == Xor(Shr(a, 8), Shifts(poly, Widen(a[..8]), 8))
  {
    var high: Word := Zeros(8) + a[8..];
    assert a == Xor(high, Widen(a[..8]));
    ShiftsXor(poly, high, Widen(a[..8]), 8);
    ShiftsOfHighPart(poly, high, 8);
    assert Shr(high, 8) == Shr(a, 8);
  }

  /** Digits that enter at the bottom one by one may as well be added all at once, before the shifts. */
  lemma {:induction false} SerialDigits(poly: Word, crc: Word, digits: Bits, n: nat)
    requires n == |digits| <= 32
    ensures Serial(poly, crc, digits) == Shifts(poly, Xor(crc, digits + Zeros(32 - n)), n)
    decreases n
  {
    var all := Xor(crc, digits + Zeros(32 - n));
    if n == 0 {
      assert all == crc;
    } else {
      var first: Word := [crc[0] != digits[0]] + crc[1..];
      FirstDigit(poly, crc, digits);
      SerialDigits(poly, Shift(poly, first), digits[1..], n - 1);
      ShiftsFront(poly, all, n);
    }
  }

  /** The first digit shifts out; the others move down with the register. */
  lemma FirstDigit(poly: Word, crc: Word, digits: Bits)
    requires 0 < |digits| <= 32
    ensures Shift(poly, Xor(crc, digits + Zeros(32 - |digits|)))
         == Xor(Shift(poly, [crc[0] != digits[0]] + crc[1..]), digits[1..] + Zeros(33 - |digits|))
  {
    var first: Word := [crc[0] != digits[0]] + crc[1..];
    var low: Word := [false] + digits[1..] + Zeros(32 - |digits|);
    assert Xor(crc, digits + Zeros(32 - |digits|)) == Xor(first, low);
    ShiftXor(poly, first, low);
    assert Shift(poly, low) == digits[1..] + Zeros(33 - |digits|);
  }

  lemma {:induction false} ShiftsFront(poly: Word, a: Word, n: nat)
    requires n > 0
    ensures Shifts(poly, a, n) == Shifts(poly, Shift(poly, a), n - 1)
  {
    if n > 1 { ShiftsFront(poly, a, n - 1); }
  }

  /** Feeding the stream in two parts is feeding it in one. */
  lemma {:induction false} SerialSplit(poly: Word, crc: Word, m1: Bits, m2: Bits)
    ensures Serial(poly, crc, m1 + m2) == Serial(poly, Serial(poly, crc, m1), m2)
    decreases |m1|
  {
    if m1 == [] {
      assert m1 + m2 == m2;
    } else {
      assert (m1 + m2)[1..] == m1[1..] + m2;
      SerialSplit(poly, Shift(poly, [crc[0] != m1[0]] + crc[1..]), m1[1..], m2);
    }
  }

  lemma ByteStep(poly: Word, crc: Word, b: Byte, rest: Bits)
    ensures Serial(poly, crc, b + rest)
         == Serial(poly, Xor(Shr(Xor(crc, Widen(b)), 8), Shifts(poly, Widen(Xor(crc, Widen(b))[..8]), 8)), rest)
  {
    SerialSplit(poly, crc, b, rest);
    SerialDigits(poly, crc, b, 8);
    LookUp(poly, Xor(crc, Widen(b)));
  }

  lemma {:induction false} StreamSplit(d1: seq<Byte>, d2: seq<Byte>)
    ensures Stream(d1 + d2) == Stream(d1) + Stream(d2)
  {
    if d1 == [] {
      assert d1 + d2 == d2;
    } else {
      assert (d1 + d2)[1..] == d1[1..] + d2;
      StreamSplit(d1[1..], d2);
    }
  }

  /** A message cut into two calls, the second seeded with the result of the first, gives the value of one call. */
  lemma CrcOfSplitMessage(poly: Word, crc: Word, d1: seq<Byte>, d2: seq<Byte>)
    ensures Serial(poly, crc, Stream(d1 + d2)) == Serial(poly, Serial(poly, crc, Stream(d1)), Stream(d2))
  {
    StreamSplit(d1, d2);
    SerialSplit(poly, crc, Stream(d1), Stream(d2));
  }

  // ---------------------------------------------------------------------------------------------
  // Polynomial division

  /** The product of two polynomials over the two-element field, highest coefficients first. */
  function Times(q: Bits, p: Bits): (r: Bits)
    requires p != []
    ensures |r| == |q| + |p| - 1
  {
    if q == [] then Zeros(|p| - 1)
    else Xor((if q[0] then p else Zeros(|p|)) + Zeros(|q| - 1), [false] + Times(q[1..], p))
  }

  /** The message behind 32 zero digits, with the initial register added to its front. */
  function Dividend(crc: Word, message: Bits): (d: Bits)
    ensures |d| == |message| + 32
  {
    Xor(crc + Zeros(|message|), message + Zeros(32))
  }

  /** What is left of the dividend when `q` times the generator, whose top coefficient is not stored, is taken away. */
  function Left(poly: Word, crc: Word, message: Bits, q: Bits): (r: Bits)
    requires |q| == |message|
    ensures |r| == |message| + 32
  {
    Xor(Dividend(crc, message), Times(q, [true] + poly))
  }

  /** `message * x^32 + crc * x^n` is `q` times the generator, plus `r`. */
  ghost predicate Divides(poly: Word, crc: Word, message: Bits, q: Bits, r: Word) {
    |q| == |message| && Left(poly, crc, message, q) == Zeros(|message|) + r
  }

  /** One step of long division: the leading digit is the quotient's, and what is left is divided on. */
  lemma DivisionStep(poly: Word, crc: Word, message: Bits, q: Bits)
    requires |q| == |message| > 0 && q[0] == (crc[0] != message[0])
    ensures Left(poly, crc, message, q) == [false] + Left(poly, Shift(poly, [q[0]] + crc[1..]), message[1..], q[1..])
  {
    hide Left, Shift;
    var next := Shift(poly, [q[0]] + crc[1..]);
    var l, r := Left(poly, crc, message, q), Left(poly, next, message[1..], q[1..]);
    LeadingLeft(poly, crc, message, q);
    forall i | 0 < i < |message| + 32 ensures l[i] == ([false] + r)[i] {
      LeftDigit(poly, crc, message, q, i);
    }
  }

  /** Digit `i` of what is left. */
  lemma LeftDigit(poly: Word, crc: Word, message: Bits, q: Bits, i: nat)
    requires |q| == |message| && 0 < i < |message| + 32 && message != []
    ensures Left(poly, crc, message, q)[i] == Left(poly, Shift(poly, [q[0]] + crc[1..]), message[1..], q[1..])[i - 1]
  {
    hide Times, Dividend, Xor, Shift;
    var next, p := Shift(poly, [q[0]] + crc[1..]), [true] + poly;
    DividendDigit(crc, message, i);
    DividendDigit(next, message[1..], i - 1);
    TimesDigit(q, p, i);
    assert p[1..] == poly;
    NextDigit(poly, crc, q[0], i);
    assert i < |message| ==> message[1..][i - 1] == message[i];
    assert i <= 32 ==> p[i] == poly[i - 1];
  }

  lemma DividendDigit(crc: Word, message: Bits, i: nat)
    requires i < |message| + 32
    ensures Dividend(crc, message)[i] == ((i < 32 && crc[i]) != (i < |message| && message[i]))
  {
  }

  lemma TimesDigit(q: Bits, p: Bits, i: nat)
    requires q != [] && p != [] && 0 < i < |q| + |p| - 1
    ensures Times(q, p)[i] == ((q[0] && i < |p| && p[i]) != Times(q[1..], p)[i - 1])
  {
  }

  lemma LeadingLeft(poly: Word, crc: Word, message: Bits, q: Bits)
    requires |q| == |message| > 0
    ensures Left(poly, crc, message, q)[0] == ((crc[0] != message[0]) != q[0])
  {
  }

  /** Where the digits of the shifted register come from. */
  lemma NextDigit(poly: Word, crc: Word, top: bool, i: nat)
    requires i > 0
    ensures i <= 32 ==> Shift(poly, [top] + crc[1..])[i - 1] == ((i < 32 && crc[i]) != (top && poly[i - 1]))
  {
  }

  lemma NothingLeft(poly: Word, crc: Word)
    ensures Left(poly, crc, [], []) == Zeros(0) + crc
  {
    assert crc + Zeros(0) == crc && [] + Zeros(32) == Zeros(32) && Zeros(0) + crc == crc;
    XorZeros(crc);
  }

  /**
   What the serial form computes is the remainder of the message under division by the generator, and nothing else is.
   */
  lemma {:induction false} SerialIsRemainder(poly: Word, crc: Word, message: Bits) returns (q: Bits)
    ensures Divides(poly, crc, message, q, Serial(poly, crc, message))
    decreases |message|
  {
    hide Left, Shift;
    if message == [] {
      q := [];
      NothingLeft(poly, crc);
    } else {
      var top := crc[0] != message[0];
      var next := Shift(poly, [top] + crc[1..]);
      var more := SerialIsRemainder(poly, next, message[1..]);
      q := [top] + more;
      assert q[1..] == more;
      DivisionStep(poly, crc, message, q);
      LongerZeros(|message| - 1, Serial(poly, next, message[1..]));
    }
  }

  lemma LongerZeros(n: nat, r: Word)
    ensures [false] + (Zeros(n) + r) == Zeros(n + 1) + r && (Zeros(n + 1) + r)[1..] == Zeros(n) + r
    ensures (Zeros(n + 1) + r)[0] == false
  {
    assert [false] + Zeros(n) == Zeros(n + 1);
  }

  lemma {:induction false} RemainderIsSerial(poly: Word, crc: Word, message: Bits, q: Bits, r: Word)
    requires Divides(poly, crc, message, q, r)
    ensures r == Serial(poly, crc, message)
    decreases |message|
  {
    hide Left, Shift;
    if message == [] {
      NothingLeft(poly, crc);
      assert q == [] && Zeros(0) + r == r && Zeros(0) + crc == crc;
    } else {
      var n := |message| - 1;
      LongerZeros(n, r);
      LeadingLeft(poly, crc, message, q);
      var next := Shift(poly, [q[0]] + crc[1..]);
      DivisionStep(poly, crc, message, q);
      var less := Left(poly, next, message[1..], q[1..]);
      assert ([false] + less)[1..] == less;
      RemainderIsSerial(poly, next, message[1..], q[1..], r);
    }
  }
}
