/** Where the symbols of a sparse DSO go: the lowest text page, virtual addresses, and the regions that hold them. */
module DsoSymbols {
  import opened Alignment
  import opened Options
  import opened Regions

  const TEXT_BASE_VADDR: nat := 0x1000
  const TEXT_BASE_OFFSET: nat := 0x1000

  datatype Kind = Func | RoObject | Object | NoType

  /** A defined symbol; `kept` symbols belong to the module that is built. */
  datatype Sym = Sym(address: nat, size: nat, kind: Kind, kept: bool, vaddr: int, section: Option<string>) {
    /** The range a symbol covers, at least one byte. */
    function Extent(): Span { Span(address, address + if size >= 1 then size else 1) }
  }

  ghost function ZeroAddresses(symbols: seq<Sym>): nat {
    if symbols == [] then 0
    else ZeroAddresses(symbols[..|symbols| - 1]) + if symbols[|symbols| - 1].address == 0 then 1 else 0
  }

  /** Missing sizes are one stub, missing addresses follow each other from the text base. */
  ghost predicate IsFilled(before: seq<Sym>, after: seq<Sym>, stub: nat) {
    && |after| == |before|
    && forall k :: 0 <= k < |before| ==> FilledOne(before, after[k], stub, k)
  }

  ghost predicate FilledOne(before: seq<Sym>, sym: Sym, stub: nat, k: nat)
    requires k < |before|
  {
    && sym.size == (if before[k].size == 0 then stub else before[k].size)
    && sym.address == (if before[k].address == 0 then TEXT_BASE_VADDR + stub * ZeroAddresses(before[..k])
                       else before[k].address)
    && sym.kind == before[k].kind && sym.kept == before[k].kept
  }

  /** The extents of the symbols of a kind, as long as they are kept, and the extra ranges behind them. */
  function UsedBy(symbols: seq<Sym>, kind: Kind, extra: seq<Span>): (used: seq<Span>)
    decreases |symbols|
  {
    if symbols == [] then extra
    else if symbols[0].kind == kind && symbols[0].kept then [symbols[0].Extent()] + UsedBy(symbols[1..], kind, extra)
    else UsedBy(symbols[1..], kind, extra)
  }

  lemma {:induction false} UsedIs(symbols: seq<Sym>, kind: Kind, extra: seq<Span>, s: Span)
    ensures s in UsedBy(symbols, kind, extra) <==>
            s in extra
            || exists k :: 0 <= k < |symbols| && symbols[k].kind == kind && symbols[k].kept && symbols[k].Extent() == s
  {
    if symbols != [] {
      UsedIs(symbols[1..], kind, extra, s);
      assert forall k :: 0 < k < |symbols| ==> symbols[k] == symbols[1..][k - 1];
      if exists k :: 0 <= k < |symbols[1..]| && symbols[1..][k].kind == kind && symbols[1..][k].kept
                     && symbols[1..][k].Extent() == s {
        var k :| 0 <= k < |symbols[1..]| && symbols[1..][k].kind == kind && symbols[1..][k].kept
                 && symbols[1..][k].Extent() == s;
        assert symbols[k + 1].Extent() == s;
      }
    }
  }

  ghost predicate Lowest(used: seq<Span>, low: nat) {
    (exists s :: s in used && s.start == low) && forall s :: s in used ==> low <= s.start
  }

  /** The lowest start of some ranges. */
  method LowestStart(used: seq<Span>) returns (low: Option<nat>)
    ensures low == None <==> used == []
    ensures low.Some? ==> Lowest(used, low.value)
  {
    low := None;
    for k := 0 to |used|
      invariant low == None <==> k == 0
      invariant low.Some? ==> Lowest(used[..k], low.value)
    {
      assert used[..k + 1] == used[..k] + [used[k]];
      if low == None || used[k].start < low.value {
        low := Some(used[k].start);
        assert used[k] in used[..k + 1];
      }
    }
    assert used[..|used|] == used;
  }

  /** The first region starts at the page of the lowest range. */
  lemma FirstRegion(regions: seq<Region>, base: string, used: seq<Span>, low: nat)
    requires AreRegions(regions, base, used) && Lowest(used, low)
    requires forall s :: s in used ==> s.start <= s.end
    ensures regions != [] && regions[0].start == low - low % PAGE
  {
    hide Named, WholePages;
    var s :| s in used && s.start == low;
    var page := low - low % PAGE;
    assert Uses(s, low) && low / PAGE == page / PAGE;
    assert OnPageOf(s, page);
    assert Touched(used, page);
    assert InRegion(regions, page);
    var k :| 0 <= k < |regions| && regions[k].start <= page < regions[k].end;
    FirstIsLowest(regions, base, used, k);
    var first := regions[0].start;
    RegionIsWhole(regions, base, used, 0);
    assert InRegion(regions, first);
    assert Touched(used, first);
    var t :| t in used && OnPageOf(t, first);
    var y: nat :| Uses(t, y) && y / PAGE == first / PAGE;
  }

  lemma FirstIsLowest(regions: seq<Region>, base: string, used: seq<Span>, k: nat)
    requires AreRegions(regions, base, used) && k < |regions|
    ensures regions[0].start <= regions[k].start
  {
    RegionIsWhole(regions, base, used, 0);
  }

  lemma RegionIsWhole(regions: seq<Region>, base: string, used: seq<Span>, k: nat)
    requires AreRegions(regions, base, used) && k < |regions|
    ensures PageAligned(regions[k].start) && PageAligned(regions[k].end) && regions[k].start < regions[k].end
  {
    assert WholePages(Span(regions[k].start, regions[k].end));
  }

  /** The symbol's own region holds it. */
  ghost predicate SectionIs(sym: Sym, text: seq<Region>, ro: seq<Region>) {
    match sym.kind
    case Func => sym.kept ==> InNamed(text, sym.address, sym.section)
    case RoObject => sym.kept ==> InNamed(ro, sym.address, sym.section)
    case Object => sym.kept ==> sym.section == Some(".data")
    case NoType => true
  }

  ghost predicate InNamed(regions: seq<Region>, address: nat, section: Option<string>) {
    exists k :: 0 <= k < |regions| && regions[k].start <= address < regions[k].end && section == Some(regions[k].name)
  }

  lemma SymbolIsCovered(symbols: seq<Sym>, kind: Kind, extra: seq<Span>, regions: seq<Region>, base: string, k: nat)
    requires k < |symbols| && symbols[k].kind == kind && symbols[k].kept
    requires AreRegions(regions, base, UsedBy(symbols, kind, extra))
    ensures InRegion(regions, symbols[k].address)
  {
    var s, a := symbols[k].Extent(), symbols[k].address;
    UsedIs(symbols, kind, extra, s);
    assert Uses(s, a);
    assert OnPageOf(s, a);
    assert Touched(UsedBy(symbols, kind, extra), a);
  }

  /** Every byte of every kept symbol of the kind is in a region. */
  ghost predicate BytesInside(symbols: seq<Sym>, kind: Kind, regions: seq<Region>) {
    forall k, a: nat ::
      0 <= k < |symbols| && symbols[k].kind == kind && symbols[k].kept
      && symbols[k].address <= a < symbols[k].address + symbols[k].size ==>
        InRegion(regions, a)
  }

  /** `a` is on a page that symbol `k`, of one byte at least, has a byte on. */
  ghost predicate OnSymbolPage(sym: Sym, x: nat) {
    exists a: nat :: sym.address <= a && (a < sym.address + sym.size || a == sym.address) && a / PAGE == x / PAGE
  }

  ghost predicate OnRangePage(s: Span, x: nat) {
    exists a: nat :: s.start <= a && (a < s.end || a == s.start) && a / PAGE == x / PAGE
  }

  /** Nothing else is: what is in a region shares a page with a kept symbol of the kind or an extra range. */
  ghost predicate NothingElse(symbols: seq<Sym>, kind: Kind, extra: seq<Span>, regions: seq<Region>) {
    forall x: nat :: InRegion(regions, x) ==>
      || (exists k :: 0 <= k < |symbols| && symbols[k].kind == kind && symbols[k].kept && OnSymbolPage(symbols[k], x))
      || (exists s :: s in extra && OnRangePage(s, x))
  }

  lemma RegionsHoldBytes(symbols: seq<Sym>, kind: Kind, extra: seq<Span>, regions: seq<Region>, base: string)
    requires AreRegions(regions, base, UsedBy(symbols, kind, extra))
    ensures BytesInside(symbols, kind, regions) && NothingElse(symbols, kind, extra, regions)
  {
    hide InRegion, WholePages, Named;
    var used := UsedBy(symbols, kind, extra);
    forall k, a: nat | 0 <= k < |symbols| && symbols[k].kind == kind && symbols[k].kept
                       && symbols[k].address <= a < symbols[k].address + symbols[k].size
      ensures InRegion(regions, a)
    {
      UsedIs(symbols, kind, extra, symbols[k].Extent());
      assert Uses(symbols[k].Extent(), a);
      assert OnPageOf(symbols[k].Extent(), a);
      assert Touched(used, a);
    }
    forall x: nat | InRegion(regions, x)
      ensures (exists k :: 0 <= k < |symbols| && symbols[k].kind == kind && symbols[k].kept && OnSymbolPage(symbols[k], x))
           || (exists s :: s in extra && OnRangePage(s, x))
    {
      var s :| s in used && OnPageOf(s, x);
      UsedIs(symbols, kind, extra, s);
      var a: nat :| Uses(s, a) && a / PAGE == x / PAGE;
      if s in extra {
        assert OnRangePage(s, x);
      } else {
        var k :| 0 <= k < |symbols| && symbols[k].kind == kind && symbols[k].kept && symbols[k].Extent() == s;
        assert OnSymbolPage(symbols[k], x);
      }
    }
  }

  /** What `_prepare_symbol_virtual_addresses` decides. */
  ghost predicate IsPrepared(before: seq<Sym>, after: seq<Sym>, stub: nat, extraText: seq<Span>, extraRo: seq<Span>,
                             override: Option<nat>, low: nat, text: seq<Region>, ro: seq<Region>) {
    && IsFilled(before, after, stub)
    && AreRegions(text, ".text", UsedBy(after, Func, extraText))
    && AreRegions(ro, ".rodata", UsedBy(after, RoObject, extraRo))
    && IsLowPage(after, override, low, text)
    && (forall k :: 0 <= k < |after| ==> after[k].vaddr == TEXT_BASE_VADDR + (after[k].address - low))
    && (forall k :: 0 <= k < |after| ==> SectionIs(after[k], text, ro))
  }

  /** The page that the text base stands for: as demanded, or the first text page, or the first page of any symbol. */
  ghost predicate IsLowPage(symbols: seq<Sym>, override: Option<nat>, low: nat, text: seq<Region>) {
    match override
    case Some(a) => low == a - a % PAGE
    case None =>
      if text != [] then low == text[0].start
      else if symbols != [] then
        PageAligned(low) && (forall k :: 0 <= k < |symbols| ==> low <= symbols[k].address)
        && exists k :: 0 <= k < |symbols| && symbols[k].address < low + PAGE
      else low == TEXT_BASE_VADDR
  }

  method FillAddresses(before: seq<Sym>, stub: nat) returns (after: seq<Sym>)
    ensures IsFilled(before, after, stub)
  {
    after := [];
    var cursor := TEXT_BASE_VADDR;
    for k := 0 to |before|
      invariant |after| == k && cursor == TEXT_BASE_VADDR + stub * ZeroAddresses(before[..k])
      invariant forall j :: 0 <= j < k ==> FilledOne(before, after[j], stub, j)
    {
      assert before[..k + 1][..k] == before[..k];
      var sym := before[k];
      if sym.size == 0 {
        sym := sym.(size := stub);
      }
      if sym.address == 0 {
        sym := sym.(address := cursor);
        NextCursor(stub, ZeroAddresses(before[..k]));
        cursor := cursor + stub;
      }
      after := after + [sym];
    }
  }

  lemma NextCursor(stub: nat, n: nat)
    ensures stub * (n + 1) == stub * n + stub
  {
  }

  /** `text_min_page`, decided before there are regions; `FirstRegion` says where it then is. */
  method LowPage(symbols: seq<Sym>, extraText: seq<Span>, override: Option<nat>) returns (low: nat)
    ensures override.Some? ==> low == override.value - override.value % PAGE
    ensures override == None && UsedBy(symbols, Func, extraText) != [] ==>
              exists a: nat :: Lowest(UsedBy(symbols, Func, extraText), a) && low == a - a % PAGE
    ensures override == None && UsedBy(symbols, Func, extraText) == [] && symbols != [] ==>
              && PageAligned(low) && (forall k :: 0 <= k < |symbols| ==> low <= symbols[k].address)
              && exists k :: 0 <= k < |symbols| && symbols[k].address < low + PAGE
    ensures override == None && UsedBy(symbols, Func, extraText) == [] && symbols == [] ==> low == TEXT_BASE_VADDR
  {
    hide AlignDown;
    if override.Some? {
      PageDown(override.value);
      return AlignDown(override.value, PAGE);
    }
    var candidate := LowestStart(UsedBy(symbols, Func, extraText));
    if candidate.Some? {
      PageDown(candidate.value);
      return AlignDown(candidate.value, PAGE);
    }
    if symbols == [] {
      return TEXT_BASE_VADDR;
    }
    var least := symbols[0].address;
    for k := 1 to |symbols|
      invariant forall j :: 0 <= j < k ==> least <= symbols[j].address
      invariant exists j :: 0 <= j < k && symbols[j].address == least
    {
      if symbols[k].address < least {
        least := symbols[k].address;
      }
    }
    PageDown(least);
    low := AlignDown(least, PAGE);
  }

  /** Virtual addresses and section names. */
  method Place(symbols: seq<Sym>, low: nat, text: seq<Region>, ro: seq<Region>) returns (after: seq<Sym>)
    requires forall k :: 0 <= k < |symbols| && symbols[k].kept ==>
               && (symbols[k].kind == Func ==> InRegion(text, symbols[k].address))
               && (symbols[k].kind == RoObject ==> InRegion(ro, symbols[k].address))
    ensures |after| == |symbols|
    ensures forall k :: 0 <= k < |symbols| ==>
              && after[k] == symbols[k].(vaddr := after[k].vaddr, section := after[k].section)
              && after[k].vaddr == TEXT_BASE_VADDR + (symbols[k].address - low)
              && SectionIs(after[k], text, ro)
  {
    after := [];
    for k := 0 to |symbols|
      invariant |after| == k
      invariant forall j :: 0 <= j < k ==>
                  && after[j] == symbols[j].(vaddr := after[j].vaddr, section := after[j].section)
                  && after[j].vaddr == TEXT_BASE_VADDR + (symbols[j].address - low)
                  && SectionIs(after[j], text, ro)
    {
      var sym := symbols[k].(vaddr := TEXT_BASE_VADDR + (symbols[k].address - low));
      if sym.kept {
        match sym.kind {
          case Func =>
            var found := FindRegion(text, sym.address);
            sym := sym.(section := Some(text[found.value].name));
          case RoObject =>
            var found := FindRegion(ro, sym.address);
            sym := sym.(section := Some(ro[found.value].name));
          case Object =>
            sym := sym.(section := Some(".data"));
          case NoType =>
        }
      }
      after := after + [sym];
    }
  }

  lemma {:induction false} UsedSame(symbols: seq<Sym>, after: seq<Sym>, kind: Kind, extra: seq<Span>)
    requires |after| == |symbols|
    requires forall k :: 0 <= k < |symbols| ==>
               after[k] == symbols[k].(vaddr := after[k].vaddr, section := after[k].section)
    ensures UsedBy(after, kind, extra) == UsedBy(symbols, kind, extra)
  {
    if symbols != [] {
      UsedSame(symbols[1..], after[1..], kind, extra);
    }
  }

  /** `_prepare_symbol_virtual_addresses`. */
  method Prepare(before: seq<Sym>, stub: nat, extraText: seq<Span>, extraRo: seq<Span>, override: Option<nat>)
    returns (after: seq<Sym>, low: nat, text: seq<Region>, ro: seq<Region>)
    requires forall s :: s in extraText || s in extraRo ==> s.start <= s.end
    ensures IsPrepared(before, after, stub, extraText, extraRo, override, low, text, ro)
    ensures BytesInside(after, Func, text) && NothingElse(after, Func, extraText, text)
    ensures BytesInside(after, RoObject, ro) && NothingElse(after, RoObject, extraRo, ro)
  {
    hide AreRegions, SectionIs, Lowest, BytesInside, NothingElse;
    var filled := FillAddresses(before, stub);
    low := LowPage(filled, extraText, override);
    UsedForward(filled, Func, extraText);
    UsedForward(filled, RoObject, extraRo);
    text := BuildRegions(UsedBy(filled, Func, extraText), ".text");
    ro := BuildRegions(UsedBy(filled, RoObject, extraRo), ".rodata");
    forall k | 0 <= k < |filled| && filled[k].kept && filled[k].kind == Func ensures InRegion(text, filled[k].address) {
      SymbolIsCovered(filled, Func, extraText, text, ".text", k);
    }
    forall k | 0 <= k < |filled| && filled[k].kept && filled[k].kind == RoObject ensures InRegion(ro, filled[k].address) {
      SymbolIsCovered(filled, RoObject, extraRo, ro, ".rodata", k);
    }
    after := Place(filled, low, text, ro);
    UsedSame(filled, after, Func, extraText);
    UsedSame(filled, after, RoObject, extraRo);
    RegionsHoldBytes(after, Func, extraText, text, ".text");
    RegionsHoldBytes(after, RoObject, extraRo, ro, ".rodata");
    if override == None {
      if UsedBy(filled, Func, extraText) != [] {
        ghost var a: nat :| Lowest(UsedBy(filled, Func, extraText), a) && low == a - a % PAGE;
        FirstRegion(text, ".text", UsedBy(filled, Func, extraText), a);
      } else {
        NothingUsed(text, ".text");
      }
    }
  }

  lemma NothingUsed(regions: seq<Region>, base: string)
    requires AreRegions(regions, base, [])
    ensures regions == []
  {
    assert forall x: nat :: !InRegion(regions, x) by {
      assert forall x: nat :: !Touched([], x);
    }
    forall k | 0 <= k < |regions| ensures InRegion(regions, regions[k].start) {
      RegionIsWhole(regions, base, [], k);
    }
    assert |regions| > 0 ==> InRegion(regions, regions[0].start);
  }

  lemma {:induction false} UsedForward(symbols: seq<Sym>, kind: Kind, extra: seq<Span>)
    requires forall s :: s in extra ==> s.start <= s.end
    ensures forall s :: s in UsedBy(symbols, kind, extra) ==> s.start <= s.end
  {
    if symbols != [] { UsedForward(symbols[1..], kind, extra); }
  }
}
