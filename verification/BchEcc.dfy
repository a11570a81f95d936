/**
 The control block of the BCH encoder, its bit-swapping table, and the conversions between ECC bytes and ECC words.
 */
module BchEcc {
  import opened Powers
  import opened Words

  /** `BCH_ECC_MAX_WORDS`: the size of the local register `r`. */
  const MAX_WORDS: nat := 30

  /** Every byte value below 16 with its four digits in reverse order; two of them make `swap_bits_table`. */
  const NIBBLES: seq<nat> := [0x0, 0x8, 0x4, 0xc, 0x2, 0xa, 0x6, 0xe, 0x1, 0x9, 0x5, 0xd, 0x3, 0xb, 0x7, 0xf]

  /**
   The control block: the code's size in bits, bit swapping, and `mod8_tab` as its rows, four tables of 256 rows each,
   a row being as long as the register.
   */
  datatype Control = Control(eccBits: nat, swap: bool, rows: seq<seq<Word>>) {
    function Words(): nat { (eccBits + 31) / 32 }

    function Bytes(): nat { (eccBits + 7) / 8 }

    ghost predicate Valid() {
      eccBits > 0 && |rows| == 4 * 256 && forall i :: 0 <= i < |rows| ==> |rows[i]| == Words()
    }

    /** Row `b` of table `k`. */
    function Row(k: nat, b: Byte): (row: seq<Word>)
      requires Valid() && k < 4
      ensures |row| == Words()
    {
      ByteIndex(b);
      rows[256 * k + Value(b)]
    }
  }

  /** Words and bytes of the code: as many as its bits need, and no more. */
  lemma CodeSizes(c: Control)
    requires c.eccBits > 0
    ensures 32 * c.Words() - 32 < c.eccBits <= 32 * c.Words() && 8 * c.Bytes() - 8 < c.eccBits <= 8 * c.Bytes()
  {
  }

  // ---------------------------------------------------------------------------------------------
  // Bytes and words

  function Reverse(b: Bits): (r: Bits)
    ensures |r| == |b|
  {
    seq(|b|, i requires 0 <= i < |b| => b[|b| - 1 - i])
  }

  function Digit(v: nat, k: nat): bool
    requires k > 0
  {
    v / k % 2 == 1
  }

  lemma FourDigits(v: nat)
    ensures OfNat(v, 4) == [Digit(v, 1), Digit(v, 2), Digit(v, 4), Digit(v, 8)]
  {
    assert OfNat(v, 4) == [v % 2 == 1] + OfNat(v / 2, 3);
    assert OfNat(v / 2, 3) == [v / 2 % 2 == 1] + OfNat(v / 4, 2);
    assert OfNat(v / 4, 2) == [v / 4 % 2 == 1] + OfNat(v / 8, 1);
    assert OfNat(v / 8, 1) == [v / 8 % 2 == 1] + OfNat(v / 16, 0);
  }

  lemma NibbleTable(v: nat)
    requires v < 16
    ensures NIBBLES[v] < 16
    ensures Digit(NIBBLES[v], 1) == Digit(v, 8) && Digit(NIBBLES[v], 2) == Digit(v, 4)
    ensures Digit(NIBBLES[v], 4) == Digit(v, 2) && Digit(NIBBLES[v], 8) == Digit(v, 1)
  {
    if v < 8 {
      assert v == 0 || v == 1 || v == 2 || v == 3 || v == 4 || v == 5 || v == 6 || v == 7;
    } else {
      assert v == 8 || v == 9 || v == 10 || v == 11 || v == 12 || v == 13 || v == 14 || v == 15;
    }
  }

  lemma NibbleReversed(n: Bits)
    requires |n| == 4
    ensures Value(n) < 16 && OfNat(NIBBLES[Value(n)], 4) == Reverse(n)
  {
    hide OfNat, Value, Digit;
    NibbleValue(n);
    var v := Value(n);
    NibbleTable(v);
    FourDigits(v);
    FourDigits(NIBBLES[v]);
  }

  lemma NibbleValue(n: Bits)
    requires |n| == 4
    ensures Value(n) < 16 && OfNat(Value(n), 4) == n
  {
    ValueBound(n);
    assert Pow(2, 2) == 4 && Pow(2, 4) == 16;
    OfNatValue(n);
  }

  /** The entry of `swap_bits_table` for a byte: its nibbles, exchanged, each looked up. */
  function TableEntry(b: Byte): Byte {
    NibbleValue(b[..4]);
    NibbleValue(b[4..]);
    OfNat(NIBBLES[Value(b[4..])], 4) + OfNat(NIBBLES[Value(b[..4])], 4)
  }

  /** It is the byte with its digits in reverse order. */
  lemma SwapTable(b: Byte)
    ensures TableEntry(b) == Reverse(b)
  {
    NibbleReversed(b[..4]);
    NibbleReversed(b[4..]);
  }

  /** `swap_bits`: the table is used when the control block asks for it, which reverses the digits of the byte. */
  function SwapBits(c: Control, b: Byte): (r: Byte)
    ensures r == if c.swap then Reverse(b) else b
  {
    if c.swap then
      SwapTable(b);
      TableEntry(b)
    else b
  }

  function SwapAll(c: Control, data: seq<Byte>): (r: seq<Byte>)
    ensures |r| == |data|
  {
    seq(|data|, i requires 0 <= i < |data| => SwapBits(c, data[i]))
  }

  /** `a << 24 | b << 16 | c << 8 | d` */
  function Join(a: Byte, b: Byte, c: Byte, d: Byte): Word {
    d + c + b + a
  }

  lemma JoinIsOr(a: Byte, b: Byte, c: Byte, d: Byte)
    ensures Or(Or(Or(Shl(a + Zeros(24), 24), Shl(b + Zeros(24), 16)), Shl(c + Zeros(24), 8)), d + Zeros(24))
         == Join(a, b, c, d)
  {
    var w := Or(Or(Or(Shl(a + Zeros(24), 24), Shl(b + Zeros(24), 16)), Shl(c + Zeros(24), 8)), d + Zeros(24));
    assert forall i :: 0 <= i < 32 ==> w[i] == (d + c + b + a)[i];
  }

  /** Byte `k` of a word in memory order: `w >> (24 - 8 * k)`. */
  function ByteOf(w: Word, k: nat): Byte
    requires k < 4
  {
    if k == 0 then w[24..] else if k == 1 then w[16..24] else if k == 2 then w[8..16] else w[..8]
  }

  /** Byte `j` of the ECC as the words see it; past the end of the ECC there are zeros. */
  function PaddedByte(c: Control, ecc: seq<Byte>, j: nat): Byte {
    SwapBits(c, if j < |ecc| then ecc[j] else Zeros(8))
  }

  /** Word `i` of the ECC bytes. */
  function LoadWord(c: Control, ecc: seq<Byte>, i: nat): (w: Word)
    ensures forall k :: 0 <= k < 4 ==> ByteOf(w, k) == PaddedByte(c, ecc, 4 * i + k)
  {
    Join(PaddedByte(c, ecc, 4 * i), PaddedByte(c, ecc, 4 * i + 1),
         PaddedByte(c, ecc, 4 * i + 2), PaddedByte(c, ecc, 4 * i + 3))
  }

  function LoadWords(c: Control, ecc: seq<Byte>): (r: seq<Word>)
    ensures |r| == c.Words()
  {
    seq(c.Words(), i requires 0 <= i < c.Words() => LoadWord(c, ecc, i))
  }

  /** Byte `j` of the ECC words. */
  function StoreByte(c: Control, r: seq<Word>, j: nat): Byte
    requires j < 4 * |r|
  {
    SwapBits(c, ByteOf(r[j / 4], j % 4))
  }

  /** The ECC bytes of the ECC words; what does not belong to the code is dropped. */
  function StoreBytes(c: Control, r: seq<Word>): (ecc: seq<Byte>)
    requires |r| == c.Words()
    ensures |ecc| == c.Bytes()
  {
    seq(c.Bytes(), j requires 0 <= j < c.Bytes() => StoreByte(c, r, j))
  }

  /** The bytes with their digits reversed, each in its place. */
  function ReverseAll(data: seq<Byte>): (r: seq<Byte>)
    ensures |r| == |data|
  {
    seq(|data|, i requires 0 <= i < |data| => Reverse(data[i]))
  }

  lemma ReversedTwice(data: seq<Byte>)
    ensures ReverseAll(ReverseAll(data)) == data
  {
    forall i | 0 <= i < |data| ensures Reverse(Reverse(data[i])) == data[i] {
      assert Reverse(Reverse(data[i])) == data[i];
    }
  }

  /** Swapping on the way in is loading reversed bytes; without it the bytes are those of the words as they are. */
  lemma LoadSwapped(c: Control, ecc: seq<Byte>)
    requires |ecc| == c.Bytes()
    ensures c.swap ==> LoadWords(c, ecc) == LoadWords(c.(swap := false), ReverseAll(ecc))
    ensures !c.swap ==> forall j :: 0 <= j < 4 * c.Words() ==>
              ByteOf(LoadWords(c, ecc)[j / 4], j % 4) == if j < |ecc| then ecc[j] else Zeros(8)
  {
    hide SwapBits, ByteOf, PaddedByte, LoadWord, Reverse;
    forall i | 0 <= i < c.Words() ensures c.swap ==> LoadWord(c, ecc, i) == LoadWord(c.(swap := false), ReverseAll(ecc), i) {
      WordSwapped(c, ecc, i);
    }
    forall j | 0 <= j < 4 * c.Words()
      ensures ByteOf(LoadWords(c, ecc)[j / 4], j % 4) == PaddedByte(c, ecc, j)
      ensures !c.swap ==> PaddedByte(c, ecc, j) == if j < |ecc| then ecc[j] else Zeros(8)
    {
      assert 4 * (j / 4) + j % 4 == j;
      PaddedByteIs(c, ecc, j);
    }
  }

  lemma PaddedByteIs(c: Control, ecc: seq<Byte>, j: nat)
    ensures c.swap ==> PaddedByte(c, ecc, j) == PaddedByte(c.(swap := false), ReverseAll(ecc), j)
    ensures !c.swap ==> PaddedByte(c, ecc, j) == if j < |ecc| then ecc[j] else Zeros(8)
  {
    hide SwapBits;
    assert Reverse(Zeros(8)) == Zeros(8);
  }

  lemma WordSwapped(c: Control, ecc: seq<Byte>, i: nat)
    ensures c.swap ==> LoadWord(c, ecc, i) == LoadWord(c.(swap := false), ReverseAll(ecc), i)
  {
    hide SwapBits, PaddedByte, Join, Reverse;
    PaddedByteIs(c, ecc, 4 * i);
    PaddedByteIs(c, ecc, 4 * i + 1);
    PaddedByteIs(c, ecc, 4 * i + 2);
    PaddedByteIs(c, ecc, 4 * i + 3);
  }

  /** Swapping on the way out is storing reversed bytes; without it the bytes are those of the words as they are. */
  lemma StoreSwapped(c: Control, r: seq<Word>)
    requires |r| == c.Words()
    ensures c.swap ==> StoreBytes(c, r) == ReverseAll(StoreBytes(c.(swap := false), r))
    ensures !c.swap ==> forall j :: 0 <= j < c.Bytes() ==> StoreBytes(c, r)[j] == ByteOf(r[j / 4], j % 4)
  {
    hide SwapBits;
  }

  lemma WordLoaded(c: Control, ecc: seq<Byte>, i: nat, b: seq<Byte>)
    requires |b| == 4 && forall k :: 0 <= k < 4 ==> b[k] == if 4 * i + k < |ecc| then ecc[4 * i + k] else Zeros(8)
    ensures Join(SwapBits(c, b[0]), SwapBits(c, b[1]), SwapBits(c, b[2]), SwapBits(c, b[3])) == LoadWord(c, ecc, i)
  {
  }

  method LoadEcc8(c: Control, dst: array<Word>, src: array<Byte>)
    requires c.Valid() && dst.Length == c.Words() && src.Length == c.Bytes()
    modifies dst
    ensures dst[..] == LoadWords(c, src[..])
  {
    hide SwapBits, Join, LoadWord;
    ghost var ecc := src[..];
    var nwords := c.Words() - 1;
    for i := 0 to nwords
      invariant forall j :: 0 <= j < i ==> dst[j] == LoadWord(c, ecc, j)
    {
      var b := src[4 * i..4 * i + 4];
      WordLoaded(c, ecc, i, b);
      dst[i] := Join(SwapBits(c, b[0]), SwapBits(c, b[1]), SwapBits(c, b[2]), SwapBits(c, b[3]));
    }
    var pad := src[4 * nwords..] + seq(4 - (c.Bytes() - 4 * nwords), k => Zeros(8));
    WordLoaded(c, ecc, nwords, pad);
    dst[nwords] := Join(SwapBits(c, pad[0]), SwapBits(c, pad[1]), SwapBits(c, pad[2]), SwapBits(c, pad[3]));
  }

  /** The four bytes a word is stored as. */
  function StoreWord(c: Control, w: Word): (b: seq<Byte>)
    ensures |b| == 4
  {
    [SwapBits(c, ByteOf(w, 0)), SwapBits(c, ByteOf(w, 1)), SwapBits(c, ByteOf(w, 2)), SwapBits(c, ByteOf(w, 3))]
  }

  lemma WordStored(c: Control, r: seq<Word>, i: nat, k: nat)
    requires i < |r| && k < 4
    ensures 4 * i + k < 4 * |r| && StoreWord(c, r[i])[k] == StoreByte(c, r, 4 * i + k)
  {
    assert (4 * i + k) / 4 == i && (4 * i + k) % 4 == k;
  }

  method StoreEcc8(c: Control, dst: array<Byte>, src: array<Word>)
    requires c.Valid() && src.Length == c.Words() && dst.Length == c.Bytes()
    modifies dst
    ensures dst[..] == StoreBytes(c, src[..])
  {
    ghost var words := src[..];
    var nwords := c.Words() - 1;
    for i := 0 to nwords
      invariant forall j :: 0 <= j < 4 * i ==> dst[j] == StoreByte(c, words, j)
    {
      CopyBytes(c, dst, i, StoreWord(c, src[i]), 4, words);
    }
    CopyBytes(c, dst, nwords, StoreWord(c, src[nwords]), c.Bytes() - 4 * nwords, words);
  }

  /** The first `n` bytes of word `i` go to their place. */
  method CopyBytes(c: Control, dst: array<Byte>, i: nat, b: seq<Byte>, n: nat, ghost words: seq<Word>)
    requires i < |words| && n <= 4 && 4 * i + n <= dst.Length && b == StoreWord(c, words[i])
    requires forall j :: 0 <= j < 4 * i ==> dst[j] == StoreByte(c, words, j)
    modifies dst
    ensures forall j :: 0 <= j < 4 * i + n ==> dst[j] == StoreByte(c, words, j)
  {
    for k := 0 to n
      invariant forall j :: 0 <= j < 4 * i + k ==> dst[j] == StoreByte(c, words, j)
    {
      WordStored(c, words, i, k);
      dst[4 * i + k] := b[k];
    }
  }

  lemma SwapTwice(c: Control, b: Byte)
    ensures SwapBits(c, SwapBits(c, b)) == b
  {
    assert Reverse(Reverse(b)) == b;
  }

  lemma StoredByte(c: Control, ecc: seq<Byte>, j: nat)
    requires j < 4 * c.Words()
    ensures StoreByte(c, LoadWords(c, ecc), j) == if j < |ecc| then ecc[j] else Zeros(8)
  {
    hide SwapBits, ByteOf, LoadWord, Reverse;
    assert 4 * (j / 4) + j % 4 == j;
    assert ByteOf(LoadWord(c, ecc, j / 4), j % 4) == PaddedByte(c, ecc, j);
    SwapTwice(c, if j < |ecc| then ecc[j] else Zeros(8));
  }

  /** Storing what was loaded gives the bytes back, whatever the width of the code, swapped or not. */
  lemma StoreAfterLoad(c: Control, ecc: seq<Byte>)
    requires |ecc| == c.Bytes()
    ensures StoreBytes(c, LoadWords(c, ecc)) == ecc
  {
    var back := StoreBytes(c, LoadWords(c, ecc));
    forall j | 0 <= j < |ecc| ensures back[j] == ecc[j] {
      StoredByte(c, ecc, j);
    }
  }

  /** No digit outside the code's bytes. */
  ghost predicate Padded(c: Control, r: seq<Word>) {
    |r| == c.Words() && forall j :: c.Bytes() <= j < 4 * c.Words() ==> StoreByte(c, r, j) == Zeros(8)
  }

  /** Loading what was stored gives the words back when nothing was dropped, and only then. */
  lemma LoadAfterStore(c: Control, r: seq<Word>)
    requires |r| == c.Words()
    ensures LoadWords(c, StoreBytes(c, r)) == r <==> Padded(c, r)
  {
    var ecc := StoreBytes(c, r);
    var s := LoadWords(c, ecc);
    forall j | 0 <= j < 4 * c.Words()
      ensures StoreByte(c, s, j) == if j < c.Bytes() then StoreByte(c, r, j) else Zeros(8)
    {
      StoredByte(c, ecc, j);
    }
    if Padded(c, r) {
      forall i | 0 <= i < |r| ensures s[i] == r[i] {
        forall k | 0 <= k < 4 ensures ByteOf(s[i], k) == ByteOf(r[i], k) {
          assert (4 * i + k) / 4 == i && (4 * i + k) % 4 == k;
          assert StoreByte(c, s, 4 * i + k) == StoreByte(c, r, 4 * i + k);
          SwapTwice(c, ByteOf(s[i], k));
          SwapTwice(c, ByteOf(r[i], k));
        }
        BytesMakeWord(s[i], r[i]);
      }
    }
  }

  lemma BytesMakeWord(v: Word, w: Word)
    requires forall k :: 0 <= k < 4 ==> ByteOf(v, k) == ByteOf(w, k)
    ensures v == w
  {
    assert v == ByteOf(v, 3) + ByteOf(v, 2) + ByteOf(v, 1) + ByteOf(v, 0);
    assert w == ByteOf(w, 3) + ByteOf(w, 2) + ByteOf(w, 1) + ByteOf(w, 0);
  }
}
