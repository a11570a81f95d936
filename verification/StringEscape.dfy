/**
 The string escaper that the closure generator emits: a bounded writer whose position runs on past the end of the
 buffer, so that the return value is the length the whole escaped string would have had.
 */
module StringEscape {
  import opened Options

  type u8 = x: int | 0 <= x < 0x100

  const BACKSLASH: u8 := 0x5c
  const ZERO: u8 := 0x30

  /** The `ESCAPE_*` bits of `flags`. */
  datatype Flags = Flags(space: bool, special: bool, nul: bool, octal: bool, hex: bool,
                         np: bool, na: bool, nap: bool, append: bool)

  /** `only`: a NUL-terminated set of bytes, or no set at all. */
  type Dictionary = Option<seq<u8>>

  predicate IsDict(only: Dictionary) { only.Some? && only.value != [] }

  /** `is_dict && strchr(only, c)`; the terminator counts as a member of the string. */
  predicate InDict(only: Dictionary, c: u8) { IsDict(only) && (c in only.value || c == 0) }

  predicate IsAscii(c: u8) { c < 0x80 }

  // ---------------------------------------------------------------------------------------------
  // What one byte is escaped to

  function SpaceLetter(c: u8): Option<u8> {
    if c == 0x0a then Some(0x6e) else if c == 0x0d then Some(0x72) else if c == 0x09 then Some(0x74)
    else if c == 0x0b then Some(0x76) else if c == 0x0c then Some(0x66) else None
  }

  function SpecialLetter(c: u8): Option<u8> {
    if c == 0x5c then Some(0x5c) else if c == 0x07 then Some(0x61) else if c == 0x1b then Some(0x65)
    else if c == 0x22 then Some(0x22) else None
  }

  function OctalDigits(c: u8): seq<u8> { [BACKSLASH, c / 64 % 8 + ZERO, c / 8 % 8 + ZERO, c % 8 + ZERO] }

  function HexDigit(d: nat): u8
    requires d < 16
  {
    if d < 10 then ZERO + d else 0x61 + (d - 10)
  }

  function HexDigits(c: u8): seq<u8> { [BACKSLASH, 0x78, HexDigit(c / 16), HexDigit(c % 16)] }

  /** Whether a byte is copied as it is, before any escape class is looked at. */
  predicate PassesThrough(f: Flags, only: Dictionary, isPrint: u8 -> bool, c: u8) {
    || (!(f.append || InDict(only, c)) && IsDict(only))
    || (!(f.append && InDict(only, c))
        && ((f.nap && IsAscii(c) && isPrint(c)) || (f.np && isPrint(c)) || (f.na && IsAscii(c))))
  }

  function Escape(f: Flags, only: Dictionary, isPrint: u8 -> bool, c: u8): seq<u8> {
    if PassesThrough(f, only, isPrint, c) then [c]
    else if f.space && SpaceLetter(c).Some? then [BACKSLASH, SpaceLetter(c).value]
    else if f.special && SpecialLetter(c).Some? then [BACKSLASH, SpecialLetter(c).value]
    else if f.nul && c == 0 then [BACKSLASH, ZERO]
    else if f.octal then OctalDigits(c)
    else if f.hex then HexDigits(c)
    else [c]
  }

  function EscapeAll(f: Flags, only: Dictionary, isPrint: u8 -> bool, src: seq<u8>): seq<u8> {
    if src == [] then [] else Escape(f, only, isPrint, src[0]) + EscapeAll(f, only, isPrint, src[1..])
  }

  /** A flag that lets a byte through: all that prints, all of ASCII, or what is both. */
  ghost predicate LetThrough(f: Flags, isPrint: u8 -> bool, c: u8) {
    || (f.np && isPrint(c))
    || (f.na && c <= 0x7f)
    || (f.nap && c <= 0x7f && isPrint(c))
  }

  /**
   Which bytes are not escaped. Without a dictionary, those that a flag lets through. With one, and without `append`, all
   that are not in it, and of those that are, the ones that a flag lets through. With one and `append`, only those outside
   it that a flag lets through.
   */
  lemma PassingExactly(f: Flags, only: Dictionary, isPrint: u8 -> bool, c: u8)
    ensures only == None || only == Some([]) ==>
              (PassesThrough(f, only, isPrint, c) <==> LetThrough(f, isPrint, c))
    ensures only.Some? && only.value != [] && !f.append ==>
              (PassesThrough(f, only, isPrint, c) <==>
                 (c != 0 && c !in only.value) || LetThrough(f, isPrint, c))
    ensures only.Some? && only.value != [] && f.append ==>
              (PassesThrough(f, only, isPrint, c) <==>
                 c != 0 && c !in only.value && LetThrough(f, isPrint, c))
  {
  }

  /** The letters, byte by byte: each class has its own, and a byte of another class is written as a number or copied. */
  lemma LettersExactly(f: Flags, only: Dictionary, isPrint: u8 -> bool, c: u8)
    requires !PassesThrough(f, only, isPrint, c)
    ensures f.space && c == '\n' as int ==> Escape(f, only, isPrint, c) == [0x5c, 'n' as int]
    ensures f.space && c == '\r' as int ==> Escape(f, only, isPrint, c) == [0x5c, 'r' as int]
    ensures f.space && c == '\t' as int ==> Escape(f, only, isPrint, c) == [0x5c, 't' as int]
    ensures f.space && c == 11 ==> Escape(f, only, isPrint, c) == [0x5c, 'v' as int]
    ensures f.space && c == 12 ==> Escape(f, only, isPrint, c) == [0x5c, 'f' as int]
    ensures f.special && c == '\\' as int ==> Escape(f, only, isPrint, c) == [0x5c, 0x5c]
    ensures f.special && c == '\"' as int ==> Escape(f, only, isPrint, c) == [0x5c, '\"' as int]
    ensures f.special && c == 7 ==> Escape(f, only, isPrint, c) == [0x5c, 'a' as int]
    ensures f.special && c == 27 ==> Escape(f, only, isPrint, c) == [0x5c, 'e' as int]
    ensures f.nul && c == 0 ==> Escape(f, only, isPrint, c) == [0x5c, '0' as int]
    ensures |Escape(f, only, isPrint, c)| == 2 <==>
              || (f.space && 9 <= c <= 13)
              || (f.special && (c == 7 || c == 27 || c == '\\' as int || c == '\"' as int))
              || (f.nul && c == 0)
  {
    hide PassesThrough, HexDigit;
  }

  /** Bytes that no letter stands for: octal before hexadecimal, and copied when neither is asked for. */
  lemma NumbersExactly(f: Flags, only: Dictionary, isPrint: u8 -> bool, c: u8)
    requires !PassesThrough(f, only, isPrint, c)
    ensures |Escape(f, only, isPrint, c)| == 1 ==> !f.octal && !f.hex && Escape(f, only, isPrint, c) == [c]
    ensures |Escape(f, only, isPrint, c)| == 4 && f.octal ==>
              var e := Escape(f, only, isPrint, c);
              e[0] == 0x5c && c == 64 * (e[1] - '0' as int) + 8 * (e[2] - '0' as int) + (e[3] - '0' as int)
    ensures |Escape(f, only, isPrint, c)| == 4 && !f.octal ==>
              f.hex && Escape(f, only, isPrint, c)[..2] == [0x5c, 'x' as int]
  {
    hide PassesThrough, HexDigit;
    assert c == 64 * (c / 64 % 8) + 8 * (c / 8 % 8) + c % 8;
  }

  // ---------------------------------------------------------------------------------------------
  // The bounded writer

  /** A buffer after `piece` was written at `p`, of which only the part below `size` is kept. */
  function Written(buf: seq<u8>, size: nat, p: nat, piece: seq<u8>): (r: seq<u8>)
    ensures |r| == |buf|
  {
    seq(|buf|, i requires 0 <= i < |buf| => if p <= i < p + |piece| && i < size then piece[i - p] else buf[i])
  }

  lemma WrittenTwice(buf: seq<u8>, size: nat, p: nat, a: seq<u8>, b: seq<u8>)
    ensures Written(Written(buf, size, p, a), size, p + |a|, b) == Written(buf, size, p, a + b)
  {
  }

  /** `if (out < end) *out = c; ++out;` */
  method Put(dst: array<u8>, size: nat, p: nat, c: u8) returns (q: nat)
    requires size <= dst.Length
    modifies dst
    ensures q == p + 1 && dst[..] == Written(old(dst[..]), size, p, [c])
  {
    if p < size {
      dst[p] := c;
    }
    q := p + 1;
  }

  method PutPair(dst: array<u8>, size: nat, p: nat, c: u8) returns (q: nat)
    requires size <= dst.Length
    modifies dst
    ensures q == p + 2 && dst[..] == Written(old(dst[..]), size, p, [BACKSLASH, c])
  {
    ghost var buf := dst[..];
    q := Put(dst, size, p, BACKSLASH);
    q := Put(dst, size, q, c);
    WrittenTwice(buf, size, p, [BACKSLASH], [c]);
  }

  method PutFour(dst: array<u8>, size: nat, p: nat, a: u8, b: u8, c: u8) returns (q: nat)
    requires size <= dst.Length
    modifies dst
    ensures q == p + 4 && dst[..] == Written(old(dst[..]), size, p, [BACKSLASH, a, b, c])
  {
    ghost var buf := dst[..];
    q := PutPair(dst, size, p, a);
    q := Put(dst, size, q, b);
    WrittenTwice(buf, size, p, [BACKSLASH, a], [b]);
    q := Put(dst, size, q, c);
    assert [BACKSLASH, a] + [b] == [BACKSLASH, a, b] && [BACKSLASH, a, b] + [c] == [BACKSLASH, a, b, c];
    WrittenTwice(buf, size, p, [BACKSLASH, a, b], [c]);
  }

  /** One turn of the loop: the chain of attempts, each of which ends the turn when it applies. */
  method EscapeByte(f: Flags, only: Dictionary, isPrint: u8 -> bool, c: u8, dst: array<u8>, size: nat, p: nat)
    returns (q: nat)
    requires size <= dst.Length
    modifies dst
    ensures q == p + |Escape(f, only, isPrint, c)|
    ensures dst[..] == Written(old(dst[..]), size, p, Escape(f, only, isPrint, c))
  {
    hide Written;
    var inDict := InDict(only, c);
    if !(f.append || inDict) && IsDict(only) {
      q := Put(dst, size, p, c);
    } else if !(f.append && inDict) && IsAscii(c) && isPrint(c) && f.nap {
      q := Put(dst, size, p, c);
    } else if !(f.append && inDict) && isPrint(c) && f.np {
      q := Put(dst, size, p, c);
    } else if !(f.append && inDict) && IsAscii(c) && f.na {
      q := Put(dst, size, p, c);
    } else {
      q := EscapeClass(f, only, isPrint, c, dst, size, p);
    }
  }

  method EscapeClass(f: Flags, only: Dictionary, isPrint: u8 -> bool, c: u8, dst: array<u8>, size: nat, p: nat)
    returns (q: nat)
    requires size <= dst.Length && !PassesThrough(f, only, isPrint, c)
    modifies dst
    ensures q == p + |Escape(f, only, isPrint, c)|
    ensures dst[..] == Written(old(dst[..]), size, p, Escape(f, only, isPrint, c))
  {
    hide Written, PassesThrough;
    if f.space && SpaceLetter(c).Some? {
      q := PutPair(dst, size, p, SpaceLetter(c).value);
    } else if f.special && SpecialLetter(c).Some? {
      q := PutPair(dst, size, p, SpecialLetter(c).value);
    } else if f.nul && c == 0 {
      q := PutPair(dst, size, p, ZERO);
    } else if f.octal {
      q := PutFour(dst, size, p, c / 64 % 8 + ZERO, c / 8 % 8 + ZERO, c % 8 + ZERO);
    } else if f.hex {
      q := PutFour(dst, size, p, 0x78, HexDigit(c / 16), HexDigit(c % 16));
    } else {
      q := Put(dst, size, p, c);
    }
  }

  /** `p - dst` as the `int` it is returned in. */
  function ToInt32(n: int): int { (n + 0x8000_0000) % 0x1_0000_0000 - 0x8000_0000 }

  lemma CutTo32(n: nat)
    ensures -0x8000_0000 <= ToInt32(n) < 0x8000_0000 && (n - ToInt32(n)) % 0x1_0000_0000 == 0
    ensures n < 0x8000_0000 ==> ToInt32(n) == n
  {
  }

  /**
   The return value is the length of the whole escaped string, as an `int`; the buffer holds the part of it that fits,
   from the start, and nothing else changes.
   */
  method StringEscapeMem(src: seq<u8>, dst: array<u8>, size: nat, f: Flags, only: Dictionary, isPrint: u8 -> bool)
    returns (r: int)
    requires size <= dst.Length
    modifies dst
    ensures -0x8000_0000 <= r < 0x8000_0000 && (|EscapeAll(f, only, isPrint, src)| - r) % 0x1_0000_0000 == 0
    ensures |EscapeAll(f, only, isPrint, src)| < 0x8000_0000 ==> r == |EscapeAll(f, only, isPrint, src)|
    ensures forall i :: 0 <= i < dst.Length ==>
              dst[i] == if i < size && i < |EscapeAll(f, only, isPrint, src)| then EscapeAll(f, only, isPrint, src)[i]
                        else old(dst[i])
  {
    hide EscapeAll, Written, ToInt32;
    ghost var buf := dst[..];
    var p := EscapeLoop(src, dst, size, f, only, isPrint);
    r := ToInt32(p);
    CutTo32(p);
    WrittenAtStart(buf, size, EscapeAll(f, only, isPrint, src));
    assert forall i :: 0 <= i < dst.Length ==> dst[i] == dst[..][i];
  }

  method EscapeLoop(src: seq<u8>, dst: array<u8>, size: nat, f: Flags, only: Dictionary, isPrint: u8 -> bool)
    returns (p: nat)
    requires size <= dst.Length
    modifies dst
    ensures p == |EscapeAll(f, only, isPrint, src)|
    ensures dst[..] == Written(old(dst[..]), size, 0, EscapeAll(f, only, isPrint, src))
  {
    hide Escape, Written;
    ghost var buf, done := dst[..], [];
    p := 0;
    WrittenNothing(buf, size);
    for n := 0 to |src|
      invariant p == |done| && done + EscapeAll(f, only, isPrint, src[n..]) == EscapeAll(f, only, isPrint, src)
      invariant dst[..] == Written(buf, size, 0, done)
    {
      p := EscapeByte(f, only, isPrint, src[n], dst, size, p);
      WrittenTwice(buf, size, 0, done, Escape(f, only, isPrint, src[n]));
      NextPiece(f, only, isPrint, src, n, done);
      done := done + Escape(f, only, isPrint, src[n]);
    }
    assert src[|src|..] == [] && done + [] == done;
  }

  lemma NextPiece(f: Flags, only: Dictionary, isPrint: u8 -> bool, src: seq<u8>, n: nat, done: seq<u8>)
    requires n < |src|
    ensures done + EscapeAll(f, only, isPrint, src[n..])
         == done + Escape(f, only, isPrint, src[n]) + EscapeAll(f, only, isPrint, src[n + 1..])
  {
    hide Escape;
    assert src[n..][1..] == src[n + 1..];
  }

  lemma WrittenAtStart(buf: seq<u8>, size: nat, all: seq<u8>)
    ensures forall i :: 0 <= i < |buf| ==>
              Written(buf, size, 0, all)[i] == if i < size && i < |all| then all[i] else buf[i]
  {
  }

  lemma WrittenNothing(buf: seq<u8>, size: nat)
    ensures Written(buf, size, 0, []) == buf
  {
  }

  // ---------------------------------------------------------------------------------------------
  // Reading the escaped string back

  predicate IsOctal(c: u8) { ZERO <= c < ZERO + 8 }

  function HexValue(c: u8): Option<nat> {
    if ZERO <= c < ZERO + 10 then Some(c - ZERO) else if 0x61 <= c < 0x67 then Some(c - 0x61 + 10) else None
  }

  function Letter(c: u8): Option<u8> {
    if c == 0x6e then Some(0x0a) else if c == 0x72 then Some(0x0d) else if c == 0x74 then Some(0x09)
    else if c == 0x76 then Some(0x0b) else if c == 0x66 then Some(0x0c) else if c == 0x5c then Some(0x5c)
    else if c == 0x61 then Some(0x07) else if c == 0x65 then Some(0x1b) else if c == 0x22 then Some(0x22) else None
  }

  /** The byte an escape sequence stands for, and the sequence's length. */
  function DecodeOne(s: seq<u8>): Option<(u8, nat)> {
    if |s| < 2 || s[0] != BACKSLASH then None
    else if Letter(s[1]).Some? then Some((Letter(s[1]).value, 2))
    else if s[1] == 0x78 then
      if |s| < 4 || HexValue(s[2]).None? || HexValue(s[3]).None? then None
      else Some((16 * HexValue(s[2]).value + HexValue(s[3]).value, 4))
    else if |s| >= 4 && ZERO <= s[1] < ZERO + 4 && IsOctal(s[2]) && IsOctal(s[3]) then
      Some((64 * (s[1] - ZERO) + 8 * (s[2] - ZERO) + (s[3] - ZERO), 4))
    else if s[1] == ZERO then Some((0, 2))
    else None
  }

  function Decode(s: seq<u8>): Option<seq<u8>>
    decreases |s|
  {
    if s == [] then Some([])
    else
      var one := DecodeOne(s);
      if one.None? || one.value.1 > |s| || one.value.1 == 0 then None
      else
        var rest := Decode(s[one.value.1..]);
        if rest.None? then None else Some([one.value.0] + rest.value)
  }

  /** The flags under which every byte becomes an escape sequence. */
  predicate EscapesEverything(f: Flags, only: Dictionary) {
    !IsDict(only) && !f.np && !f.na && !f.nap && (f.octal || f.hex)
  }

  lemma DecodePair(c: u8, letter: u8, rest: seq<u8>)
    requires Letter(letter) == Some(c) || (letter == ZERO && c == 0 && (rest != [] ==> rest[0] == BACKSLASH))
    ensures DecodeOne([BACKSLASH, letter] + rest) == Some((c, 2))
  {
  }

  lemma DecodeOctal(c: u8, rest: seq<u8>)
    ensures DecodeOne(OctalDigits(c) + rest) == Some((c, 4))
  {
    var a, b, d := c / 64 % 8, c / 8 % 8, c % 8;
    assert c == 64 * a + 8 * b + d && a < 4;
  }

  lemma DecodeHex(c: u8, rest: seq<u8>)
    ensures DecodeOne(HexDigits(c) + rest) == Some((c, 4))
  {
    assert HexValue(HexDigit(c / 16)) == Some(c / 16) && HexValue(HexDigit(c % 16)) == Some(c % 16);
  }

  /** An escape sequence is read back as its byte when another one, or nothing, follows. */
  lemma DecodeEscape(f: Flags, only: Dictionary, isPrint: u8 -> bool, c: u8, rest: seq<u8>)
    requires EscapesEverything(f, only) && (rest != [] ==> rest[0] == BACKSLASH)
    ensures DecodeOne(Escape(f, only, isPrint, c) + rest) == Some((c, |Escape(f, only, isPrint, c)|))
    ensures |Escape(f, only, isPrint, c)| > 0 && Escape(f, only, isPrint, c)[0] == BACKSLASH
  {
    hide DecodeOne;
    if f.space && SpaceLetter(c).Some? {
      DecodePair(c, SpaceLetter(c).value, rest);
    } else if f.special && SpecialLetter(c).Some? {
      DecodePair(c, SpecialLetter(c).value, rest);
    } else if f.nul && c == 0 {
      DecodePair(c, ZERO, rest);
    } else if f.octal {
      DecodeOctal(c, rest);
    } else {
      DecodeHex(c, rest);
    }
  }

  /** Under such flags every byte string is read back from its escaped form. */
  lemma {:induction false} DecodeAfterEscape(f: Flags, only: Dictionary, isPrint: u8 -> bool, src: seq<u8>)
    requires EscapesEverything(f, only)
    ensures Decode(EscapeAll(f, only, isPrint, src)) == Some(src)
  {
    hide Escape, DecodeOne;
    if src != [] {
      var head, rest := Escape(f, only, isPrint, src[0]), EscapeAll(f, only, isPrint, src[1..]);
      DecodeAfterEscape(f, only, isPrint, src[1..]);
      if src[1..] != [] {
        DecodeEscape(f, only, isPrint, src[1], []);
      }
      DecodeEscape(f, only, isPrint, src[0], rest);
      assert (head + rest)[|head|..] == rest;
      assert src == [src[0]] + src[1..];
    }
  }

  // ---------------------------------------------------------------------------------------------
  // When no two strings are escaped alike

  predicate Raw(f: Flags, only: Dictionary, isPrint: u8 -> bool, c: u8) { Escape(f, only, isPrint, c) == [c] }

  /**
   The escape of `c` can be read in another way: as a backslash and characters that are all copied as they are, or, when it
   is octal and begins with a zero, as the escape of NUL and two digits that are copied as they are.
   */
  predicate Ambiguous(f: Flags, only: Dictionary, isPrint: u8 -> bool, c: u8) {
    var e := Escape(f, only, isPrint, c);
    || (|e| > 1 && Raw(f, only, isPrint, BACKSLASH) && forall j :: 1 <= j < |e| ==> Raw(f, only, isPrint, e[j]))
    || (Escape(f, only, isPrint, 0) == [BACKSLASH, ZERO] && e == OctalDigits(c) && e[1] == ZERO && c != 0
        && Raw(f, only, isPrint, e[2]) && Raw(f, only, isPrint, e[3]))
  }

  ghost predicate Injective(f: Flags, only: Dictionary, isPrint: u8 -> bool) {
    forall a, b :: EscapeAll(f, only, isPrint, a) == EscapeAll(f, only, isPrint, b) ==> a == b
  }

  /** The forms of an escape. */
  lemma EscapeForms(f: Flags, only: Dictionary, isPrint: u8 -> bool, c: u8)
    ensures var e := Escape(f, only, isPrint, c);
            || e == [c]
            || (|e| == 2 && e[0] == BACKSLASH && (Letter(e[1]) == Some(c) || (e[1] == ZERO && c == 0)))
            || e == if f.octal then OctalDigits(c) else HexDigits(c)
  {
    hide PassesThrough;
  }

  lemma EscapeFront(f: Flags, only: Dictionary, isPrint: u8 -> bool, c: u8, s: seq<u8>)
    ensures EscapeAll(f, only, isPrint, [c] + s) == Escape(f, only, isPrint, c) + EscapeAll(f, only, isPrint, s)
  {
    hide Escape;
    assert ([c] + s)[1..] == s;
  }

  lemma {:induction false} EscapeRaw(f: Flags, only: Dictionary, isPrint: u8 -> bool, s: seq<u8>)
    requires forall j :: 0 <= j < |s| ==> Raw(f, only, isPrint, s[j])
    ensures EscapeAll(f, only, isPrint, s) == s
  {
    hide Escape;
    if s != [] {
      assert Raw(f, only, isPrint, s[0]);
      EscapeRaw(f, only, isPrint, s[1..]);
    }
  }

  lemma EscapeSingle(f: Flags, only: Dictionary, isPrint: u8 -> bool, c: u8)
    ensures EscapeAll(f, only, isPrint, [c]) == Escape(f, only, isPrint, c)
  {
    hide Escape;
    EscapeFront(f, only, isPrint, c, []);
    assert [c] + [] == [c] && EscapeAll(f, only, isPrint, []) == [];
  }

  /** Two strings with the same escaped form. */
  lemma Collision(f: Flags, only: Dictionary, isPrint: u8 -> bool, c: u8) returns (a: seq<u8>, b: seq<u8>)
    requires Ambiguous(f, only, isPrint, c)
    ensures a != b && EscapeAll(f, only, isPrint, a) == EscapeAll(f, only, isPrint, b)
  {
    var e := Escape(f, only, isPrint, c);
    EscapeForms(f, only, isPrint, c);
    hide Escape;
    EscapeSingle(f, only, isPrint, c);
    a := [c];
    if |e| > 1 && Raw(f, only, isPrint, BACKSLASH) && forall j :: 1 <= j < |e| ==> Raw(f, only, isPrint, e[j]) {
      EscapeRaw(f, only, isPrint, e);
      b := e;
    } else {
      EscapeRaw(f, only, isPrint, e[2..]);
      EscapeFront(f, only, isPrint, 0, e[2..]);
      assert [BACKSLASH, ZERO] + e[2..] == e;
      b := [0] + e[2..];
    }
  }

  /** One escape, one byte. */
  lemma SameEscape(f: Flags, only: Dictionary, isPrint: u8 -> bool, x: u8, y: u8)
    requires Escape(f, only, isPrint, x) == Escape(f, only, isPrint, y)
    ensures x == y
  {
    EscapeForms(f, only, isPrint, x);
    EscapeForms(f, only, isPrint, y);
    hide Escape, DecodeOne;
    DecodeOctal(x, []);
    DecodeOctal(y, []);
    DecodeHex(x, []);
    DecodeHex(y, []);
  }

  /** Characters other than backslashes at the front of an escaped string are copies. */
  lemma {:induction false} FrontIsRaw(f: Flags, only: Dictionary, isPrint: u8 -> bool, s: seq<u8>, w: seq<u8>)
    requires w <= EscapeAll(f, only, isPrint, s) && BACKSLASH !in w
    ensures forall j :: 0 <= j < |w| ==> Raw(f, only, isPrint, w[j])
  {
    if w != [] {
      EscapeForms(f, only, isPrint, s[0]);
      hide Escape;
      var rest := EscapeAll(f, only, isPrint, s[1..]);
      assert w[0] in w;
      assert Escape(f, only, isPrint, s[0])[0] == w[0];
      assert EscapeAll(f, only, isPrint, s) == [w[0]] + rest;
      assert w[1..] <= rest;
      FrontIsRaw(f, only, isPrint, s[1..], w[1..]);
    }
  }

  /** Where two strings with one escaped form part, one of the two bytes is ambiguous. */
  lemma PartsAmbiguously(f: Flags, only: Dictionary, isPrint: u8 -> bool, x: u8, a: seq<u8>, y: u8, b: seq<u8>)
    requires x != y && |Escape(f, only, isPrint, x)| <= |Escape(f, only, isPrint, y)|
    requires Escape(f, only, isPrint, x) + EscapeAll(f, only, isPrint, a)
          == Escape(f, only, isPrint, y) + EscapeAll(f, only, isPrint, b)
    ensures Ambiguous(f, only, isPrint, y)
  {
    var d, e := Escape(f, only, isPrint, x), Escape(f, only, isPrint, y);
    EscapeForms(f, only, isPrint, x);
    EscapeForms(f, only, isPrint, y);
    hide Escape;
    PrefixOf(d, EscapeAll(f, only, isPrint, a), e, EscapeAll(f, only, isPrint, b));
    if |d| == |e| {
      SameEscape(f, only, isPrint, x, y);
      assert false;
    }
    assert |d| > 0 && |e| > 1 && d[0] == e[..|d|][0] == e[0] == BACKSLASH;
    assert |d| == 1 ==> d == [x];
    OnlyFirstIsBackslash(f, only, isPrint, y, |d|);
    FrontIsRaw(f, only, isPrint, a, e[|d|..]);
    forall j | |d| <= j < |e| ensures Raw(f, only, isPrint, e[j]) {
      assert e[j] == e[|d|..][j - |d|];
    }
    if |d| == 1 {
      assert Raw(f, only, isPrint, BACKSLASH);
    } else {
      assert |d| == 2 && d[1] == e[..|d|][1] == e[1];
      assert x == 0 && d == [BACKSLASH, ZERO] && e == OctalDigits(y);
    }
  }

  lemma PrefixOf(d: seq<u8>, u: seq<u8>, e: seq<u8>, v: seq<u8>)
    requires d + u == e + v && |d| <= |e|
    ensures e[..|d|] == d && e[|d|..] <= u
  {
    assert (d + u)[..|d|] == d && (d + u)[|d|..] == u;
    assert (e + v)[..|d|] == e[..|d|] && (e + v)[|d|..] == e[|d|..] + v;
  }

  /** Behind the first character there is a backslash only in the escape of the backslash itself. */
  lemma OnlyFirstIsBackslash(f: Flags, only: Dictionary, isPrint: u8 -> bool, c: u8, n: nat)
    requires 0 < n < |Escape(f, only, isPrint, c)|
    requires c == BACKSLASH ==> n > 1
    ensures BACKSLASH !in Escape(f, only, isPrint, c)[n..]
  {
  }

  /** The escaper loses nothing, whatever the flags, exactly when no byte's escape is ambiguous. */
  lemma InjectiveExactly(f: Flags, only: Dictionary, isPrint: u8 -> bool)
    ensures Injective(f, only, isPrint) <==> forall c :: !Ambiguous(f, only, isPrint, c)
  {
    hide Escape, Ambiguous;
    if c :| Ambiguous(f, only, isPrint, c) {
      var a, b := Collision(f, only, isPrint, c);
    } else {
      forall a, b | EscapeAll(f, only, isPrint, a) == EscapeAll(f, only, isPrint, b) ensures a == b {
        SameSource(f, only, isPrint, a, b);
      }
    }
  }

  lemma {:induction false} SameSource(f: Flags, only: Dictionary, isPrint: u8 -> bool, a: seq<u8>, b: seq<u8>)
    requires forall c :: !Ambiguous(f, only, isPrint, c)
    requires EscapeAll(f, only, isPrint, a) == EscapeAll(f, only, isPrint, b)
    ensures a == b
    decreases |a|
  {
    hide Escape, Ambiguous;
    if a == [] || b == [] {
      NothingEscaped(f, only, isPrint, a);
      NothingEscaped(f, only, isPrint, b);
    } else {
      var d, e := Escape(f, only, isPrint, a[0]), Escape(f, only, isPrint, b[0]);
      if a[0] != b[0] {
        if |d| <= |e| {
          PartsAmbiguously(f, only, isPrint, a[0], a[1..], b[0], b[1..]);
        } else {
          PartsAmbiguously(f, only, isPrint, b[0], b[1..], a[0], a[1..]);
        }
        assert false;
      }
      PrefixOf(d, EscapeAll(f, only, isPrint, a[1..]), e, EscapeAll(f, only, isPrint, b[1..]));
      assert (d + EscapeAll(f, only, isPrint, a[1..]))[|d|..] == EscapeAll(f, only, isPrint, a[1..]);
      assert (e + EscapeAll(f, only, isPrint, b[1..]))[|d|..] == EscapeAll(f, only, isPrint, b[1..]);
      SameSource(f, only, isPrint, a[1..], b[1..]);
      assert a == [a[0]] + a[1..] && b == [b[0]] + b[1..];
    }
  }

  lemma NothingEscaped(f: Flags, only: Dictionary, isPrint: u8 -> bool, s: seq<u8>)
    ensures EscapeAll(f, only, isPrint, s) == [] <==> s == []
  {
    if s != [] {
      EscapeForms(f, only, isPrint, s[0]);
    }
  }

  /** Copying printable bytes while others are written in octal is such a case. */
  lemma PassthroughIsAmbiguous(only: Dictionary, isPrint: u8 -> bool)
    requires !IsDict(only) && isPrint(0x5c) && isPrint(0x30) && isPrint(0x31) && !isPrint(0x01)
    ensures Ambiguous(Flags(false, false, false, true, false, true, false, false, false), only, isPrint, 0x01)
  {
  }
}
