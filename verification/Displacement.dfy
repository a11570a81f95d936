/** Distances between a module's text and its data, in the kernel and in the DSO. */
module Displacement {
  import opened Alignment
  import opened Concatenation
  import opened CoreLayout
  import opened DsoBuilder
  import opened DsoSymbols
  import opened Layout
  import opened Options
  import opened Regions

  /** The addresses from which `compute_text_min_page` takes the least: functions, if there are any. */
  ghost predicate CountsForMinimum(symbols: seq<Sym>, k: nat) {
    k < |symbols| && symbols[k].address != 0
    && (symbols[k].kind == Func || forall j :: 0 <= j < |symbols| && symbols[j].kind == Func ==> symbols[j].address == 0)
  }

  ghost predicate IsMinimum(symbols: seq<Sym>, low: nat) {
    && (exists k: nat :: CountsForMinimum(symbols, k) && symbols[k].address == low)
    && (forall k: nat :: CountsForMinimum(symbols, k) ==> low <= symbols[k].address)
  }

  /** A symbol with an address, of the kind that is looked for. */
  predicate Wanted(sym: Sym, functions: bool) { (functions ==> sym.kind == Func) && sym.address != 0 }

  method LeastAddress(symbols: seq<Sym>, functions: bool) returns (least: Option<nat>)
    ensures least == None <==>
              forall k :: 0 <= k < |symbols| ==> symbols[k].address == 0 || (functions && symbols[k].kind != Func)
    ensures least.Some? ==>
              && (exists k :: 0 <= k < |symbols| && Wanted(symbols[k], functions) && symbols[k].address == least.value)
              && (forall k :: 0 <= k < |symbols| && Wanted(symbols[k], functions) ==> least.value <= symbols[k].address)
  {
    least := None;
    for n := 0 to |symbols|
      invariant least == None <==> forall k :: 0 <= k < n ==> !Wanted(symbols[k], functions)
      invariant least.Some? ==>
                  && (exists k :: 0 <= k < n && Wanted(symbols[k], functions) && symbols[k].address == least.value)
                  && (forall k :: 0 <= k < n && Wanted(symbols[k], functions) ==> least.value <= symbols[k].address)
    {
      var sym := symbols[n];
      if Wanted(sym, functions) && (least == None || sym.address < least.value) {
        least := Some(sym.address);
      }
    }
  }

  /** `compute_text_min_page`: the low page as it is foreseen when the data segment is given its address. */
  method ComputeTextMinPage(symbols: seq<Sym>) returns (page: nat)
    ensures (forall k :: 0 <= k < |symbols| ==> symbols[k].address == 0) ==> page == TEXT_BASE_VADDR
    ensures (exists k :: 0 <= k < |symbols| && symbols[k].address != 0) ==>
              exists low: nat :: IsMinimum(symbols, low) && page == low - low % PAGE
  {
    hide AlignDown;
    var least := LeastAddress(symbols, true);
    if least == None {
      least := LeastAddress(symbols, false);
    }
    if least == None {
      return TEXT_BASE_VADDR;
    }
    PageDown(least.value);
    page := AlignDown(least.value, PAGE);
    assert IsMinimum(symbols, least.value);
  }

  /**
   Functions belong to the module and have addresses; where there are none, every symbol has. A symbol without an address
   would be given one near the text base, which the page foreseen does not take into account.
   */
  ghost predicate Foreseeable(symbols: seq<Sym>) {
    if exists k :: 0 <= k < |symbols| && symbols[k].kind == Func then
      forall k :: 0 <= k < |symbols| && symbols[k].kind == Func ==> symbols[k].kept && symbols[k].address != 0
    else
      forall k :: 0 <= k < |symbols| ==> symbols[k].address != 0
  }

  /** The builder finds the page that was foreseen. */
  lemma LowPagesAgree(before: seq<Sym>, after: seq<Sym>, stub: nat, low: nat, text: seq<Region>, ro: seq<Region>,
                      least: nat)
    requires IsPrepared(before, after, stub, [], [], None, low, text, ro)
    requires Foreseeable(before) && IsMinimum(before, least)
    ensures low == least - least % PAGE
  {
    hide AreRegions, SectionIs;
    assert forall k :: 0 <= k < |before| ==> FilledOne(before, after[k], stub, k);
    var m: nat :| CountsForMinimum(before, m) && before[m].address == least;
    if f :| 0 <= f < |before| && before[f].kind == Func {
      assert before[m].kind == Func;
      var used := UsedBy(after, Func, []);
      UsedIs(after, Func, [], after[m].Extent());
      forall s | s in used ensures least <= s.start <= s.end {
        UsedIs(after, Func, [], s);
        var k :| 0 <= k < |after| && after[k].kind == Func && after[k].kept && after[k].Extent() == s;
        assert CountsForMinimum(before, k);
      }
      FirstRegion(text, ".text", used, least);
    } else {
      UsedNothing(after);
      NothingUsed(text, ".text");
      forall k: nat | k < |after| ensures least <= after[k].address {
        assert CountsForMinimum(before, k);
      }
      var k :| 0 <= k < |after| && after[k].address < low + PAGE;
      assert low <= after[m].address == least <= after[k].address < low + PAGE;
      PageFound(low, least);
    }
  }

  lemma PageFound(low: nat, a: nat)
    requires PageAligned(low) && low <= a < low + PAGE
    ensures low == a - a % PAGE
  {
  }

  lemma {:induction false} UsedNothing(symbols: seq<Sym>)
    requires forall k :: 0 <= k < |symbols| ==> symbols[k].kind != Func
    ensures UsedBy(symbols, Func, []) == []
  {
    if symbols != [] { UsedNothing(symbols[1..]); }
  }

  /** The data section is the first of the writable segment. */
  lemma DataFirst(d: Dso, c: Content, rwBase: Option<nat>)
    requires IsLaid(d, c, rwBase) && c.includeData && PageAligned(d.rwOffset)
    ensures d.writable[0].name == ".data" && d.writable[0].addr == d.rwAddr && d.writable[0].size == c.data
  {
    hide SparseLaid, IsRwAddr;
    assert NextAligned(d.writable, 0, d.rwOffset);
    assert WritableOf(c)[0] == Unplaced(".data", 8, c.data);
    Near(d.writable[0].offset, d.rwOffset);
  }

  lemma Near(x: nat, y: nat)
    requires x % 8 == 0 && PageAligned(y) && y <= x < y + 8
    ensures x == y
  {
  }

  /** What rounding the address up to a page adds. */
  function Shortfall(base: nat): (n: nat)
    ensures n < PAGE && (n == 0 <==> PageAligned(base))
  {
    (PAGE - base % PAGE) % PAGE
  }

  /** The data section is loaded where its kernel address would be, or behind that by what the core's base lacks. */
  lemma DataAddress(roEnd: nat, coreBase: nat, d: Dso, c: Content)
    requires PageAligned(roEnd) && PageAligned(d.low) && PageAligned(d.rwOffset)
    requires d.low <= TEXT_BASE_VADDR + coreBase + roEnd && c.includeData
    requires IsLaid(d, c, Some(TEXT_BASE_VADDR + (coreBase + roEnd - d.low)))
    ensures d.writable[0].addr == TEXT_BASE_VADDR + (coreBase + roEnd - d.low) + Shortfall(coreBase)
  {
    hide RowLaid, Shifted, SparseLaid, WritableOf, TailOf, Shortfall;
    DataFirst(d, c, Some(TEXT_BASE_VADDR + (coreBase + roEnd - d.low)));
    var base := TEXT_BASE_VADDR + (coreBase + roEnd - d.low);
    assert PageAligned(d.rwAddr) && base <= d.rwAddr < base + PAGE;
    SameRest(base, coreBase, roEnd, d.low);
    RoundedUp(base, d.rwAddr);
  }

  lemma SameRest(base: nat, coreBase: nat, roEnd: nat, low: nat)
    requires PageAligned(roEnd) && PageAligned(low) && base == TEXT_BASE_VADDR + (coreBase + roEnd - low)
    ensures Shortfall(base) == Shortfall(coreBase)
  {
    var pages := TEXT_BASE_VADDR / PAGE + roEnd / PAGE - low / PAGE;
    assert roEnd == PAGE * (roEnd / PAGE) && low == PAGE * (low / PAGE);
    assert base == coreBase + PAGE * pages;
  }

  lemma RoundedUp(base: nat, addr: nat)
    requires PageAligned(addr) && base <= addr < base + PAGE
    ensures addr == base + Shortfall(base)
  {
  }

  /** The slot's kernel address is the core base, its section's place in the core, and its place in the section. */
  lemma SlotInKernel(secs: seq<KoSection>, relas: seq<RelaSection>, blob: seq<nat>, text: seq<nat>, ro: seq<nat>,
                     data: seq<nat>, core: Core, coreBase: nat, r: DataReloc)
    requires IsCore(secs, relas, blob, text, ro, data, core) && r in core.relocs
    ensures exists s :: s in relas && s.target in data && r.entry in s.entries && s.target in core.offsets
              && coreBase + core.roEnd + r.offset == coreBase + core.offsets[s.target] + r.entry.offset
  {
    hide IsPlaced, IsImage;
    FlattenMember(AllRelocs(relas, data, core.offsets, core.roEnd), r);
  }

  /** Offsets and addresses of the layout are on pages. */
  lemma LaidOnPages(before: seq<Sym>, after: seq<Sym>, stub: nat, d: Dso, c: Content, rwBase: Option<nat>)
    requires IsPrepared(before, after, stub, [], [], None, d.low, d.text, d.ro) && IsLaid(d, c, rwBase)
    ensures PageAligned(d.low) && PageAligned(d.rwOffset)
  {
    hide SectionIs, Touched, Named, IsFilled, SparseLaid, RowLaid, Shifted;
    RegionsArePaged(d.text, ".text", UsedBy(after, Func, []));
    RegionsArePaged(d.ro, ".rodata", UsedBy(after, RoObject, []));
    PagedTogether(d.text, d.ro);
    LowIsAligned(after, None, d.low, d.text);
    TotalPaged(d.Regions());
  }

  /** A relocation of the data image has its slot `place` bytes into the section `target`, and the core knows both. */
  ghost predicate IsSlotOf(relas: seq<RelaSection>, core: Core, x: DataReloc, target: nat) {
    exists s :: s in relas && s.target == target && x.entry in s.entries && target in core.offsets
  }

  /**
   A relocated slot of a module's data and any symbol of its text or data that has an address: in the DSO they are as far
   from each other as in the kernel, where the slot lies in its section and the section in the core, if and only if the
   module's core begins on a page; otherwise all distances grow by what is missing to the next page.
   */
  lemma DisplacementKept(secs: seq<KoSection>, relas: seq<RelaSection>, blob: seq<nat>, textGroup: seq<nat>,
                         roGroup: seq<nat>, dataGroup: seq<nat>, core: Core, coreBase: nat, x: DataReloc,
                         before: seq<Sym>, after: seq<Sym>, stub: nat, least: nat, d: Dso, c: Content, k: nat)
    returns (target: nat)
    requires IsCore(secs, relas, blob, textGroup, roGroup, dataGroup, core) && x in core.relocs
    requires IsPrepared(before, after, stub, [], [], None, d.low, d.text, d.ro)
    requires Foreseeable(before) && IsMinimum(before, least)
    requires least - least % PAGE <= TEXT_BASE_VADDR + coreBase + core.roEnd && c.includeData
    requires IsLaid(d, c, Some(TEXT_BASE_VADDR + (coreBase + core.roEnd - (least - least % PAGE))))
    requires k < |before| == |after| && before[k].address != 0
    ensures IsSlotOf(relas, core, x, target)
    ensures d.writable[0].addr + x.offset - after[k].vaddr
         == coreBase + core.offsets[target] + x.entry.offset - before[k].address + Shortfall(coreBase)
    ensures (d.writable[0].addr + x.offset - after[k].vaddr
             == coreBase + core.offsets[target] + x.entry.offset - before[k].address) <==> PageAligned(coreBase)
  {
    hide IsImage, IsLaid, AreRegions, SectionIs, Foreseeable, IsMinimum, Shortfall;
    LowPagesAgree(before, after, stub, d.low, d.text, d.ro, least);
    SlotInKernel(secs, relas, blob, textGroup, roGroup, dataGroup, core, coreBase, x);
    var s :| s in relas && s.target in dataGroup && x.entry in s.entries && s.target in core.offsets
             && coreBase + core.roEnd + x.offset == coreBase + core.offsets[s.target] + x.entry.offset;
    target := s.target;
    LaidOnPages(before, after, stub, d, c, Some(TEXT_BASE_VADDR + (coreBase + core.roEnd - d.low)));
    DataAddress(core.roEnd, coreBase, d, c);
    assert FilledOne(before, after[k], stub, k);
  }
}
