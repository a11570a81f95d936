/** The page map as text: how the builder prints it, and how one line of it is read by the manager. */
module PageMapText {
  import opened Alignment
  import opened Concatenation
  import opened Options
  import opened PageMappings
  import opened Regions

  // ---------------------------------------------------------------------------------------------
  // Printing

  function HexDigit(d: nat): char
    requires d < 16
  {
    if d < 10 then (0x30 + d) as char else (0x61 + (d - 10)) as char
  }

  function Hex(n: nat): (s: string)
    ensures |s| >= 1
  {
    if n < 16 then [HexDigit(n)] else Hex(n / 16) + [HexDigit(n % 16)]
  }

  function KindName(k: MapKind): string { match k case Text => "text" case Rodata => "rodata" }

  /** A field, a comma, and the fields behind it. */
  function Join(f: string, rest: string): string { f + [','] + rest }

  function Body(m: Mapping): string {
    Join("0x" + Hex(m.fileOffset), Join("0x" + Hex(m.kernel), Join(KindName(m.kind), m.section)))
  }

  const HEADING: string := "# file_offset,kernel_vaddr,kind,section\n"

  function LineOf(m: Mapping): string { Body(m) + "\n" }

  ghost function Lines(maps: seq<Mapping>): seq<string> {
    [HEADING] + seq(|maps|, k requires 0 <= k < |maps| => LineOf(maps[k]))
  }

  /** `write_reusable_page_map`; without mappings there is no map. */
  method WritePageMap(maps: seq<Mapping>) returns (text: Option<string>)
    ensures text == if maps == [] then None else Some(Flatten(Lines(maps)))
  {
    if maps == [] {
      return None;
    }
    var s := HEADING;
    ghost var lines := Lines(maps);
    assert lines[..1] == [HEADING];
    FlattenPush([], HEADING);
    for k := 0 to |maps|
      invariant s == Flatten(lines[..k + 1])
    {
      FlattenStep(lines, k + 1);
      s := s + LineOf(maps[k]);
    }
    assert lines[..|maps| + 1] == lines;
    text := Some(s);
  }

  // ---------------------------------------------------------------------------------------------
  // C strings

  predicate IsBlank(c: char) { c == ' ' || c == '\t' }

  /** Everything before the first NUL, carriage return or newline. */
  function Strip(s: string): (r: string)
    ensures r <= s && '\0' !in r && '\r' !in r && '\n' !in r
    ensures |r| < |s| ==> s[|r|] == '\0' || s[|r|] == '\r' || s[|r|] == '\n'
  {
    if s == "" || s[0] == '\0' || s[0] == '\r' || s[0] == '\n' then "" else [s[0]] + Strip(s[1..])
  }

  function TrimLeft(s: string): (r: string)
    ensures |r| <= |s| && s[|s| - |r|..] == r && (r != "" ==> r[0] != ' ' && r[0] != '\t')
    ensures forall k :: 0 <= k < |s| - |r| ==> s[k] == ' ' || s[k] == '\t'
  {
    if s != "" && IsBlank(s[0]) then TrimLeft(s[1..]) else s
  }

  function TrimRight(s: string): (r: string)
    ensures r <= s && (r != "" ==> r[|r| - 1] != ' ' && r[|r| - 1] != '\t')
    ensures forall k :: |r| <= k < |s| ==> s[k] == ' ' || s[k] == '\t'
  {
    if s != "" && IsBlank(s[|s| - 1]) then TrimRight(s[..|s| - 1]) else s
  }

  function Trim(s: string): string { TrimRight(TrimLeft(s)) }

  ghost predicate AllBlank(s: string) { forall k :: 0 <= k < |s| ==> s[k] == ' ' || s[k] == '\t' }

  /** Blanks go at both ends, and nothing else does. */
  lemma TrimExactly(left: string, middle: string, right: string)
    requires AllBlank(left) && AllBlank(right)
    requires middle != "" ==> !AllBlank(middle[..1]) && !AllBlank(middle[|middle| - 1..])
    ensures Trim(left + middle + right) == middle
  {
    hide TrimLeft, TrimRight;
    if middle == "" {
      BlankGoes(left + right);
      assert left + middle + right == left + right;
    } else {
      assert (middle + right)[..1] == middle[..1];
      StartsBehind(left, middle + right);
      EndsBefore(middle, right);
      assert left + middle + right == left + (middle + right);
    }
  }

  lemma BlankGoes(s: string)
    requires AllBlank(s)
    ensures Trim(s) == ""
  {
  }

  lemma StartsBehind(left: string, rest: string)
    requires AllBlank(left) && rest != "" && !AllBlank(rest[..1])
    ensures TrimLeft(left + rest) == rest
  {
    hide TrimLeft;
    var s := left + rest;
    var n := |s| - |TrimLeft(s)|;
    assert s[|left|] == rest[..1][0];
    assert forall k :: 0 <= k < |left| ==> s[k] == left[k];
    assert n < |s| ==> s[n] == s[n..][0];
    assert s[|left|..] == rest;
  }

  lemma EndsBefore(rest: string, right: string)
    requires AllBlank(right) && rest != "" && !AllBlank(rest[|rest| - 1..])
    ensures TrimRight(rest + right) == rest
  {
    hide TrimRight;
    var s := rest + right;
    var n := |TrimRight(s)|;
    assert s[|rest| - 1] == rest[|rest| - 1..][0];
    assert forall k :: |rest| <= k < |s| ==> s[k] == right[k - |rest|];
    assert n > 0 ==> TrimRight(s)[n - 1] == s[n - 1];
    assert s[..|rest|] == rest;
  }

  /** `strchr` from `from` on; the length of the string when the character is missing. */
  function Find(s: string, c: char, from: nat): (r: nat)
    requires from <= |s|
    ensures from <= r <= |s| && (r < |s| ==> s[r] == c) && forall k :: from <= k < r ==> s[k] != c
    decreases |s| - from
  {
    if from == |s| || s[from] == c then from else Find(s, c, from + 1)
  }

  // ---------------------------------------------------------------------------------------------
  // strtoull with base 0

  const ULLONG_MAX: nat := 0xFFFF_FFFF_FFFF_FFFF
  const LLONG_MAX: nat := 0x7FFF_FFFF_FFFF_FFFF

  predicate IsSpace(c: char) { c == ' ' || '\t' <= c <= '\r' }

  /** The value of a digit, or 99. */
  function DigitValue(c: char): nat {
    if '0' <= c <= '9' then c as nat - '0' as nat
    else if 'a' <= c <= 'z' then c as nat - 'a' as nat + 10
    else if 'A' <= c <= 'Z' then c as nat - 'A' as nat + 10
    else 99
  }

  function SkipSpace(s: string, i: nat): (r: nat)
    requires i <= |s|
    ensures i <= r <= |s|
    decreases |s| - i
  {
    if i < |s| && IsSpace(s[i]) then SkipSpace(s, i + 1) else i
  }

  function DigitsEnd(s: string, i: nat, base: nat): (r: nat)
    requires i <= |s|
    ensures i <= r <= |s|
    decreases |s| - i
  {
    if i < |s| && DigitValue(s[i]) < base then DigitsEnd(s, i + 1, base) else i
  }

  function FromDigits(s: string, base: nat): nat {
    if s == "" then 0 else FromDigits(s[..|s| - 1], base) * base + DigitValue(s[|s| - 1])
  }

  /** The value, where the number ends (at the start if there is none), and whether it is out of range. */
  datatype Number = Number(value: nat, end: nat, outOfRange: bool)

  function Strtoull(s: string): (n: Number)
    ensures n.end <= |s|
  {
    var i := SkipSpace(s, 0);
    var negative := i < |s| && s[i] == '-';
    var j := if i < |s| && (s[i] == '-' || s[i] == '+') then i + 1 else i;
    var hex := j + 2 < |s| && s[j] == '0' && (s[j + 1] == 'x' || s[j + 1] == 'X') && DigitValue(s[j + 2]) < 16;
    var base := if hex then 16 else if j < |s| && s[j] == '0' then 8 else 10;
    var start := if hex then j + 2 else j;
    var end := DigitsEnd(s, start, base);
    var v := FromDigits(s[start..end], base);
    if end == start then Number(0, 0, false)
    else if v > ULLONG_MAX then Number(ULLONG_MAX, end, true)
    else Number(if negative then (ULLONG_MAX + 1 - v) % (ULLONG_MAX + 1) else v, end, false)
  }

  function ParseU64(text: string): Option<nat> {
    var n := Strtoull(text);
    if (text != "" && text[0] == '-') || n.outOfRange || n.end == 0 || Trim(text[n.end..]) != "" then None
    else Some(n.value)
  }

  // ---------------------------------------------------------------------------------------------
  // One line

  datatype Entry = Entry(fileOffset: nat, kernel: nat, kind: string, section: string)

  datatype LineResult = Skipped | Rejected | Accepted(entry: Entry)

  /** What `load_page_mappings` makes of one line, as `fgets` has read it. */
  function ParseLine(raw: string): LineResult {
    var line := Strip(raw);
    var trimmed := Trim(line);
    if trimmed == "" || trimmed[0] == '#' then Skipped
    else
      var l := TrimRight(line);
      var c1 := Find(l, ',', 0);
      var c2 := if c1 < |l| then Find(l, ',', c1 + 1) else |l|;
      var c3 := if c2 < |l| then Find(l, ',', c2 + 1) else |l|;
      if c3 >= |l| then Rejected
      else ParseFields(Trim(l[..c1]), Trim(l[c1 + 1..c2]), Trim(l[c2 + 1..c3]), Trim(l[c3 + 1..|l|]))
  }

  function ParseFields(offset: string, vaddr: string, kind: string, section: string): LineResult {
    if ',' in section then Rejected
    else
      match (ParseU64(offset), ParseU64(vaddr))
      case (Some(a), Some(b)) =>
        if a == 0 || a % PAGE != 0 || b == 0 || b % PAGE != 0 || a > LLONG_MAX then Rejected
        else if (kind != "text" && kind != "rodata") || section == "" then Rejected
        else Accepted(Entry(a, b, kind, section))
      case _ => Rejected
  }

  // ---------------------------------------------------------------------------------------------
  // Reading what was printed

  predicate PlainChar(c: char) { c != ',' && !IsBlank(c) && c != '\0' && c != '\r' && c != '\n' }

  ghost predicate Plain(s: string) { forall k :: 0 <= k < |s| ==> PlainChar(s[k]) }

  lemma HexChar(d: nat)
    requires d < 16
    ensures PlainChar(HexDigit(d)) && DigitValue(HexDigit(d)) == d && !IsSpace(HexDigit(d))
    ensures ('0' <= HexDigit(d) <= '9' || 'a' <= HexDigit(d) <= 'f') && (HexDigit(d) == '0' <==> d == 0)
  {
  }

  lemma {:induction false} HexBack(n: nat)
    ensures Plain(Hex(n)) && FromDigits(Hex(n), 16) == n
    ensures forall k :: 0 <= k < |Hex(n)| ==> DigitValue(Hex(n)[k]) < 16
    ensures forall k :: 0 <= k < |Hex(n)| ==> '0' <= Hex(n)[k] <= '9' || 'a' <= Hex(n)[k] <= 'f'
    ensures Hex(n)[0] == '0' <==> n == 0
  {
    hide HexDigit, PlainChar, DigitValue;
    if n < 16 {
      HexChar(n);
      assert Hex(n)[..0] == "";
      assert FromDigits("", 16) == 0;
    } else {
      HexBack(n / 16);
      HexChar(n % 16);
      assert Hex(n)[..|Hex(n)| - 1] == Hex(n / 16);
    }
  }

  lemma {:induction false} DigitsToEnd(s: string, i: nat, base: nat)
    requires i <= |s| && forall k :: i <= k < |s| ==> DigitValue(s[k]) < base
    ensures DigitsEnd(s, i, base) == |s|
    decreases |s| - i
  {
    if i < |s| { DigitsToEnd(s, i + 1, base); }
  }

  lemma ReadHex(n: nat)
    ensures Strtoull("0x" + Hex(n)) == if n <= ULLONG_MAX then Number(n, 2 + |Hex(n)|, false)
                                       else Number(ULLONG_MAX, 2 + |Hex(n)|, true)
  {
    hide DigitValue, FromDigits, Hex, DigitsEnd, PlainChar;
    HexBack(n);
    var s := "0x" + Hex(n);
    assert SkipSpace(s, 0) == 0;
    assert forall k :: 2 <= k < |s| ==> s[k] == Hex(n)[k - 2];
    DigitsToEnd(s, 2, 16);
    assert s[2..|s|] == Hex(n);
  }

  /** A printed number is read back if it has no more than 64 bits, and refused otherwise. */
  lemma NumberBack(n: nat)
    ensures Plain("0x" + Hex(n))
    ensures ParseU64("0x" + Hex(n)) == if n <= 0xFFFF_FFFF_FFFF_FFFF then Some(n) else None
  {
    hide DigitValue, FromDigits, Hex, Strtoull;
    HexBack(n);
    ReadHex(n);
    assert ("0x" + Hex(n))[2 + |Hex(n)|..] == "";
  }

  lemma DecimalChar(d: nat)
    requires d < 10
    ensures '0' <= Digit(d) <= '9' && DigitValue(Digit(d)) == d && (Digit(d) == '0' <==> d == 0)
  {
  }

  lemma {:induction false} FromDecimal(n: nat)
    ensures FromDigits(Decimal(n), 10) == n && Decimal(n) != ""
    ensures forall k :: 0 <= k < |Decimal(n)| ==> '0' <= Decimal(n)[k] <= '9' && DigitValue(Decimal(n)[k]) < 10
    ensures n > 0 ==> Decimal(n)[0] != '0'
  {
    hide Digit, DigitValue;
    if n < 10 {
      DecimalChar(n);
      assert Decimal(n)[..0] == "";
      assert FromDigits("", 10) == 0;
    } else {
      FromDecimal(n / 10);
      DecimalChar(n % 10);
      assert Decimal(n)[..|Decimal(n)| - 1] == Decimal(n / 10);
    }
  }

  lemma OnlyZero()
    ensures Decimal(0) == "0" && DigitValue('0') == 0 && FromDigits("0", 8) == 0 && DigitsEnd("0", 0, 8) == 1
  {
    assert FromDigits("", 8) == 0 && "0"[..0] == "";
  }

  lemma ReadDecimal(n: nat)
    ensures Decimal(n) != "" && '0' <= Decimal(n)[0] <= '9'
    ensures Strtoull(Decimal(n)) == if n <= ULLONG_MAX then Number(n, |Decimal(n)|, false)
                                    else Number(ULLONG_MAX, |Decimal(n)|, true)
  {
    hide DigitValue, FromDigits, Decimal, DigitsEnd;
    FromDecimal(n);
    var s := Decimal(n);
    assert SkipSpace(s, 0) == 0;
    assert s[0..|s|] == s;
    if n == 0 {
      OnlyZero();
    } else {
      DigitsToEnd(s, 0, 10);
    }
  }

  /** So is a number in decimal digits, and a minus sign is refused. */
  lemma DecimalBack(n: nat)
    ensures ParseU64(Decimal(n)) == if n <= 0xFFFF_FFFF_FFFF_FFFF then Some(n) else None
    ensures ParseU64("-" + Decimal(n)) == None
  {
    hide Strtoull, Decimal;
    ReadDecimal(n);
    assert Decimal(n)[|Decimal(n)|..] == "";
  }

  lemma TrimPlain(s: string)
    requires Plain(s)
    ensures Trim(s) == s
  {
  }

  lemma FirstField(f: string, rest: string)
    requires ',' !in f
    ensures |Join(f, rest)| == |f| + 1 + |rest| && Find(Join(f, rest), ',', 0) == |f|
    ensures Join(f, rest)[..|f|] == f
  {
    var l := Join(f, rest);
    assert l[|f|] == ',';
    assert forall k :: 0 <= k < |f| ==> l[k] == f[k];
  }

  lemma FindIs(s: string, c: char, from: nat, r: nat)
    requires from <= r <= |s| && (r < |s| ==> s[r] == c) && forall k :: from <= k < r ==> s[k] != c
    ensures Find(s, c, from) == r
  {
    hide Find;
  }

  lemma LaterField(f: string, rest: string, i: nat, j: nat)
    requires i <= j <= |rest|
    ensures |f| + 1 + j <= |Join(f, rest)|
    ensures Find(Join(f, rest), ',', |f| + 1 + i) == |f| + 1 + Find(rest, ',', i)
    ensures Join(f, rest)[|f| + 1 + i..|f| + 1 + j] == rest[i..j]
  {
    hide Find;
    var l, n := Join(f, rest), |f| + 1;
    var y := Find(rest, ',', i);
    forall k | n + i <= k < n + y ensures l[k] != ',' {
      assert l[k] == rest[k - n];
    }
    FindIs(l, ',', n + i, n + y);
    forall k | n + i <= k < n + j ensures l[k] == rest[k - n] {
    }
    assert l[n + i..n + j] == rest[i..j];
  }

  lemma JoinLength(f: string, rest: string)
    ensures |Join(f, rest)| == |f| + 1 + |rest|
  {
  }

  lemma MiddleField(f1: string, f2: string, rest: string, l: string, a: nat, b: nat)
    requires ',' !in f2 && l == Join(f1, Join(f2, rest)) && a == |f1| && b == a + 1 + |f2|
    ensures b < |l| && Find(l, ',', a + 1) == b && l[a + 1..b] == f2
  {
    hide Plain, Find, Join;
    JoinLength(f2, rest);
    JoinLength(f1, Join(f2, rest));
    FirstField(f2, rest);
    LaterField(f1, Join(f2, rest), 0, |f2|);
  }

  lemma ThirdField(f1: string, f2: string, f3: string, f4: string, l: string, b: nat, c: nat)
    requires ',' !in f3 && l == Join(f1, Join(f2, Join(f3, f4))) && b == |f1| + 1 + |f2| && c == b + 1 + |f3|
    ensures c < |l| && Find(l, ',', b + 1) == c && l[b + 1..c] == f3
  {
    hide Plain, Find, Join;
    var r3 := Join(f3, f4);
    var r2 := Join(f2, r3);
    JoinLength(f3, f4);
    JoinLength(f2, r3);
    JoinLength(f1, r2);
    MiddleField(f2, f3, f4, r2, |f2|, |f2| + 1 + |f3|);
    LaterField(f1, r2, |f2| + 1, |f2| + 1 + |f3|);
  }

  lemma LastField(f1: string, f2: string, f3: string, f4: string, l: string, c: nat)
    requires l == Join(f1, Join(f2, Join(f3, f4))) && c == |f1| + 1 + |f2| + 1 + |f3|
    ensures c < |l| && l[c + 1..|l|] == f4
  {
    hide Find, Join;
    var r3 := Join(f3, f4);
    var r2 := Join(f2, r3);
    JoinLength(f3, f4);
    JoinLength(f2, r3);
    JoinLength(f1, r2);
    LaterField(f3, f4, 0, |f4|);
    LaterField(f2, r3, |f3| + 1, |r3|);
    LaterField(f1, r2, |f2| + 1 + |f3| + 1, |r2|);
    assert f4[0..|f4|] == f4;
  }

  /** A line has its fields where the commas are. */
  lemma FieldsFound(f1: string, f2: string, f3: string, f4: string, l: string, a: nat, b: nat, c: nat)
    requires ',' !in f1 && ',' !in f2 && ',' !in f3 && l == Join(f1, Join(f2, Join(f3, f4)))
    requires a == |f1| && b == a + 1 + |f2| && c == b + 1 + |f3|
    ensures a < b < c < |l| && Find(l, ',', 0) == a && Find(l, ',', a + 1) == b && Find(l, ',', b + 1) == c
    ensures l[..a] == f1 && l[a + 1..b] == f2 && l[b + 1..c] == f3 && l[c + 1..|l|] == f4
  {
    hide Plain, Find, Join;
    FirstField(f1, Join(f2, Join(f3, f4)));
    MiddleField(f1, f2, Join(f3, f4), l, a, b);
    ThirdField(f1, f2, f3, f4, l, b, c);
    LastField(f1, f2, f3, f4, l, c);
  }

  lemma {:induction false} StripLine(body: string)
    requires OneLine(body)
    ensures Strip(body + "\n") == body
  {
    if body != "" {
      assert (body + "\n")[1..] == body[1..] + "\n";
      StripLine(body[1..]);
    }
  }

  /** What the mapping promises its readers. */
  ghost predicate Printable(m: Mapping) {
    && m.fileOffset > 0 && PageAligned(m.fileOffset) && m.fileOffset <= LLONG_MAX
    && m.kernel > 0 && PageAligned(m.kernel) && m.kernel <= ULLONG_MAX
    && m.section != "" && Plain(m.section)
  }

  function EntryOf(m: Mapping): Entry { Entry(m.fileOffset, m.kernel, KindName(m.kind), m.section) }

  ghost predicate OneLine(s: string) {
    forall k :: 0 <= k < |s| ==> s[k] != '\0' && s[k] != '\r' && s[k] != '\n'
  }

  lemma JoinOneLine(f: string, rest: string)
    requires Plain(f) && OneLine(rest) && rest != "" && !IsBlank(rest[|rest| - 1])
    ensures OneLine(Join(f, rest)) && !IsBlank(Join(f, rest)[|Join(f, rest)| - 1])
    ensures f != "" ==> Join(f, rest)[0] == f[0]
  {
    var l := Join(f, rest);
    forall k | 0 <= k < |l| ensures l[k] != '\0' && l[k] != '\r' && l[k] != '\n' {
      assert l[k] == if k < |f| then f[k] else if k == |f| then ',' else rest[k - |f| - 1];
    }
  }

  lemma BodyIsLine(f1: string, f2: string, f3: string, f4: string, l: string)
    requires Plain(f1) && Plain(f2) && Plain(f3) && Plain(f4) && f4 != "" && f1 != "" && f1[0] != '#'
    requires l == Join(f1, Join(f2, Join(f3, f4)))
    ensures Strip(l + "\n") == l && Trim(l) == TrimRight(l) == l && l != "" && l[0] != '#' && OneLine(l)
  {
    hide Join;
    assert OneLine(f4) && !IsBlank(f4[|f4| - 1]);
    JoinOneLine(f3, f4);
    JoinNotEmpty(f3, f4);
    JoinOneLine(f2, Join(f3, f4));
    JoinNotEmpty(f2, Join(f3, f4));
    JoinOneLine(f1, Join(f2, Join(f3, f4)));
    JoinNotEmpty(f1, Join(f2, Join(f3, f4)));
    StripLine(l);
  }

  lemma JoinNotEmpty(f: string, rest: string)
    ensures Join(f, rest) != ""
  {
  }

  /** Its fields, as they are handed on. */
  lemma LineToFields(raw: string, f1: string, f2: string, f3: string, f4: string)
    requires TrimRight(Strip(raw)) == Join(f1, Join(f2, Join(f3, f4))) && ',' !in f1 && ',' !in f2 && ',' !in f3
    requires Trim(Strip(raw)) != "" && Trim(Strip(raw))[0] != '#'
    ensures ParseLine(raw) == ParseFields(Trim(f1), Trim(f2), Trim(f3), Trim(f4))
  {
    hide Join, Strip, Trim, TrimLeft, TrimRight, ParseFields, Find;
    var a, b := |f1|, |f1| + 1 + |f2|;
    FieldsFound(f1, f2, f3, f4, TrimRight(Strip(raw)), a, b, b + 1 + |f3|);
  }

  /** Each printed line is read as the mapping it was printed from. */
  lemma LineBack(m: Mapping)
    requires Printable(m)
    ensures ParseLine(LineOf(m)) == Accepted(EntryOf(m))
    ensures EntryOf(m) == Entry(m.fileOffset, m.kernel, if m.kind == Text then "text" else "rodata", m.section)
    ensures OneLine(Body(m))
  {
    hide Join, Hex, Strip, Trim, TrimLeft, TrimRight, ParseU64, Plain, Find, ParseLine;
    var f1, f2, f3 := "0x" + Hex(m.fileOffset), "0x" + Hex(m.kernel), KindName(m.kind);
    NumberBack(m.fileOffset);
    NumberBack(m.kernel);
    KindIsPlain(m.kind);
    NoComma(f1);
    NoComma(f2);
    NoComma(f3);
    NoComma(m.section);
    BodyIsLine(f1, f2, f3, m.section, Body(m));
    LineToFields(LineOf(m), f1, f2, f3, m.section);
    TrimPlain(f1);
    TrimPlain(f2);
    TrimPlain(f3);
    TrimPlain(m.section);
  }

  /** A line that is not skipped, with these four fields. */
  ghost predicate HasFields(raw: string, f1: string, f2: string, f3: string, f4: string) {
    && TrimRight(Strip(raw)) == f1 + "," + f2 + "," + f3 + "," + f4
    && ',' !in f1 && ',' !in f2 && ',' !in f3 && ',' !in f4
    && Trim(Strip(raw)) != "" && Trim(Strip(raw))[0] != '#'
  }

  /** What the fields say, blanks around them apart. */
  ghost predicate FieldsSay(f1: string, f2: string, f3: string, f4: string, e: Entry) {
    && ParseU64(Trim(f1)) == Some(e.fileOffset) && 0 < e.fileOffset <= 0x7FFF_FFFF_FFFF_FFFF && e.fileOffset % 0x1000 == 0
    && ParseU64(Trim(f2)) == Some(e.kernel) && 0 < e.kernel && e.kernel % 0x1000 == 0
    && e.kind == Trim(f3) && (e.kind == "text" || e.kind == "rodata") && e.section == Trim(f4) != ""
  }

  /** A line is accepted if and only if it has four fields that say an entry within the limits; then it is that entry. */
  lemma AcceptedExactly(raw: string, e: Entry)
    ensures ParseLine(raw) == Accepted(e) <==>
              exists f1, f2, f3, f4 :: HasFields(raw, f1, f2, f3, f4) && FieldsSay(f1, f2, f3, f4, e)
  {
    hide HasFields, FieldsSay, ParseLine;
    if ParseLine(raw) == Accepted(e) {
      FieldsTaken(raw, e);
    }
    forall f1, f2, f3, f4 | HasFields(raw, f1, f2, f3, f4) && FieldsSay(f1, f2, f3, f4, e)
      ensures ParseLine(raw) == Accepted(e)
    {
      FieldsAccepted(raw, f1, f2, f3, f4, e);
    }
  }

  lemma FieldsTaken(raw: string, e: Entry)
    requires ParseLine(raw) == Accepted(e)
    ensures exists f1, f2, f3, f4 :: HasFields(raw, f1, f2, f3, f4) && FieldsSay(f1, f2, f3, f4, e)
  {
    hide Strip, Trim, TrimLeft, TrimRight, ParseFields, Find, HasFields, FieldsSay;
    var l := TrimRight(Strip(raw));
    var c1 := Find(l, ',', 0);
    var c2 := if c1 < |l| then Find(l, ',', c1 + 1) else |l|;
    var c3 := if c2 < |l| then Find(l, ',', c2 + 1) else |l|;
    assert c3 < |l|;
    FieldsBetween(raw, l, c1, c2, c3, e);
  }

  lemma FieldsAccepted(raw: string, f1: string, f2: string, f3: string, f4: string, e: Entry)
    requires HasFields(raw, f1, f2, f3, f4) && FieldsSay(f1, f2, f3, f4, e)
    ensures ParseLine(raw) == Accepted(e)
  {
    hide Strip, Trim, TrimLeft, TrimRight, ParseU64, Find, ParseLine;
    assert f1 + "," + f2 + "," + f3 + "," + f4 == Join(f1, Join(f2, Join(f3, f4)));
    LineToFields(raw, f1, f2, f3, f4);
    TrimKeepsCommas(f4);
  }

  lemma FieldsBetween(raw: string, l: string, c1: nat, c2: nat, c3: nat, e: Entry)
    requires l == TrimRight(Strip(raw)) && c1 < c2 < c3 < |l| && l[c1] == l[c2] == l[c3] == ','
    requires (forall k :: 0 <= k < c3 && k != c1 && k != c2 ==> l[k] != ',')
    requires Trim(Strip(raw)) != "" && Trim(Strip(raw))[0] != '#'
    requires ParseFields(Trim(l[..c1]), Trim(l[c1 + 1..c2]), Trim(l[c2 + 1..c3]), Trim(l[c3 + 1..|l|])) == Accepted(e)
    ensures exists f1, f2, f3, f4 :: HasFields(raw, f1, f2, f3, f4) && FieldsSay(f1, f2, f3, f4, e)
  {
    hide Strip, Trim, TrimLeft, TrimRight, ParseU64;
    var f1, f2, f3, f4 := l[..c1], l[c1 + 1..c2], l[c2 + 1..c3], l[c3 + 1..|l|];
    assert l == f1 + "," + f2 + "," + f3 + "," + f4;
    TrimKeepsCommas(f4);
    assert HasFields(raw, f1, f2, f3, f4) && FieldsSay(f1, f2, f3, f4, e);
  }

  lemma TrimKeepsCommas(s: string)
    ensures ',' in Trim(s) <==> ',' in s
  {
    hide TrimLeft, TrimRight;
    var l := TrimLeft(s);
    var r := TrimRight(l);
    forall k | 0 <= k < |s| && s[k] == ',' ensures ',' in r {
      assert l[k - (|s| - |l|)] == ',';
      assert r[k - (|s| - |l|)] == ',';
    }
  }

  lemma NoComma(s: string)
    requires Plain(s)
    ensures ',' !in s
  {
  }

  lemma KindIsPlain(k: MapKind)
    ensures Plain(KindName(k)) && (KindName(k) == "text" || KindName(k) == "rodata")
  {
  }

  lemma CommentSkipped(s: string)
    requires s != "" && s[0] == '#'
    ensures ParseLine(s) == Skipped
  {
    hide Strip, Trim, TrimRight, Find, ParseFields;
    StripStart(s);
    TrimStart(Strip(s));
  }

  lemma HeadingIsLine()
    ensures HEADING == "# file_offset,kernel_vaddr,kind,section\n"
    ensures 0 < |HEADING| <= 511 && HEADING[|HEADING| - 1] == '\n'
    ensures forall k :: 0 <= k < |HEADING| - 1 ==> HEADING[k] != '\n'
  {
  }

  lemma StripStart(s: string)
    requires s != "" && s[0] == '#'
    ensures Strip(s) != "" && Strip(s)[0] == '#'
  {
  }

  lemma TrimStart(s: string)
    requires s != "" && s[0] == '#'
    ensures Trim(s) != "" && Trim(s)[0] == '#'
  {
    TrimRightStart(s);
  }

  lemma {:induction false} TrimRightStart(s: string)
    requires s != "" && s[0] == '#'
    ensures TrimRight(s) != "" && TrimRight(s)[0] == '#'
  {
    if IsBlank(s[|s| - 1]) { TrimRightStart(s[..|s| - 1]); }
  }
}
