/** File offsets and addresses of the sections of a sparse DSO, its program headers and its dynamic section. */
module Layout {
  import opened Alignment
  import opened DsoSymbols
  import opened Options
  import opened Regions

  datatype Section = Section(name: string, align: nat, size: nat, offset: nat, addr: int) {
    function End(): nat { offset + size }
    function AddrEnd(): int { addr + size }
  }

  /** What the content sections hold, in bytes or entries. */
  datatype Content = Content(includeData: bool, data: nat, dynstr: nat, dynsym: nat, hash: nat, relocations: nat,
                             needed: nat, strtab: nat, symtab: nat, shstrtab: nat)

  const DYNAMIC_SLACK: nat := 10

  function Unplaced(name: string, align: nat, size: nat): Section { Section(name, align, size, 0, 0) }

  function HasRelocations(c: Content): bool { c.includeData && c.relocations > 0 }

  /** The allocated sections behind the sparse ones, in section order. */
  function WritableOf(c: Content): seq<Section> {
    (if c.includeData then [Unplaced(".data", 8, c.data)] else [])
    + [Unplaced(".dynstr", 1, c.dynstr), Unplaced(".dynsym", 8, c.dynsym), Unplaced(".gnu.hash", 8, c.hash)]
    + (if HasRelocations(c) then [Unplaced(".rela.dyn", 8, c.relocations * 24)] else [])
    + [Unplaced(".dynamic", 8, (c.needed + DYNAMIC_SLACK) * 16)]
  }

  /** Which they are: a relocation takes 24 bytes, a dynamic entry 16, of which ten more than needed are reserved. */
  lemma ContentSections(c: Content)
    ensures var w := WritableOf(c);
            var tables := [Section(".dynstr", 1, c.dynstr, 0, 0), Section(".dynsym", 8, c.dynsym, 0, 0),
                           Section(".gnu.hash", 8, c.hash, 0, 0)];
            var dynamic := Section(".dynamic", 8, 16 * c.needed + 160, 0, 0);
            && TailOf(c) == [Section(".strtab", 1, c.strtab, 0, 0), Section(".symtab", 8, c.symtab, 0, 0),
                             Section(".shstrtab", 1, c.shstrtab, 0, 0)]
            && (!c.includeData ==> w == tables + [dynamic])
            && (c.includeData && c.relocations == 0 ==> w == [Section(".data", 8, c.data, 0, 0)] + tables + [dynamic])
            && (c.includeData && c.relocations > 0 ==>
                  w == [Section(".data", 8, c.data, 0, 0)] + tables
                       + [Section(".rela.dyn", 8, 24 * c.relocations, 0, 0), dynamic])
  {
    var rela := Section(".rela.dyn", 8, 24 * c.relocations, 0, 0);
    var dynamic := Section(".dynamic", 8, 16 * c.needed + 160, 0, 0);
    assert [rela] + [dynamic] == [rela, dynamic];
  }

  function TailOf(c: Content): seq<Section> {
    [Unplaced(".strtab", 1, c.strtab), Unplaced(".symtab", 8, c.symtab), Unplaced(".shstrtab", 1, c.shstrtab)]
  }

  /** Everything that the layout fixes. */
  datatype Dso = Dso(low: nat, text: seq<Region>, ro: seq<Region>, sparse: seq<Section>, writable: seq<Section>,
                     tail: seq<Section>, rwOffset: nat, rwAddr: nat, rwFileEnd: nat, rwMemEnd: nat, headersOffset: nat) {
    function Regions(): seq<Region> { text + ro }
    function Sections(): seq<Section> { sparse + writable + tail }
  }

  // ---------------------------------------------------------------------------------------------
  // What a layout is

  ghost function Total(regions: seq<Region>): int {
    if regions == [] then 0 else Total(regions[..|regions| - 1]) + regions[|regions| - 1].Size()
  }

  /** Regions are whole pages. */
  ghost predicate Paged(regions: seq<Region>) {
    forall k :: 0 <= k < |regions| ==> WholePages(Span(regions[k].start, regions[k].end))
  }

  /** A sparse section lies in the file behind the earlier ones, and in memory where its region is from the low page. */
  ghost predicate SparseIs(regions: seq<Region>, low: nat, k: nat, s: Section)
    requires k < |regions|
  {
    && s.name == regions[k].name && s.align == PAGE && s.size == regions[k].Size()
    && s.offset == TEXT_BASE_OFFSET + Total(regions[..k]) && s.addr == TEXT_BASE_VADDR + (regions[k].start - low)
  }

  ghost predicate SparseLaid(regions: seq<Region>, low: nat, sparse: seq<Section>) {
    && |sparse| == |regions| && forall k :: 0 <= k < |regions| ==> SparseIs(regions, low, k, sparse[k])
  }

  /** The end of section `k - 1`, or where the first one may start. */
  function EndBefore(secs: seq<Section>, k: nat, from: nat): nat
    requires k <= |secs|
  {
    if k == 0 then from else secs[k - 1].End()
  }

  /** Section `k` is at the next aligned offset. */
  ghost predicate NextAligned(secs: seq<Section>, k: nat, from: nat)
    requires k < |secs|
  {
    && secs[k].align > 0 && secs[k].offset % secs[k].align == 0
    && EndBefore(secs, k, from) <= secs[k].offset < EndBefore(secs, k, from) + secs[k].align
  }

  ghost predicate SameContents(secs: seq<Section>, items: seq<Section>) {
    && |secs| == |items|
    && forall k :: 0 <= k < |secs| ==> secs[k] == items[k].(offset := secs[k].offset, addr := secs[k].addr)
  }

  /** Sections in a row, at the next aligned offsets. */
  ghost predicate RowLaid(secs: seq<Section>, items: seq<Section>, from: nat) {
    SameContents(secs, items) && forall k :: 0 <= k < |secs| ==> NextAligned(secs, k, from)
  }

  /** In memory all at one distance from their offsets. */
  ghost predicate Shifted(secs: seq<Section>, distance: int) {
    forall k :: 0 <= k < |secs| ==> secs[k].addr - secs[k].offset == distance
  }

  /** Not below any end in memory, and no higher than needed. */
  ghost predicate IsMemoryEnd(sparse: seq<Section>, end: int) {
    && end >= TEXT_BASE_VADDR && (forall k :: 0 <= k < |sparse| ==> sparse[k].AddrEnd() <= end)
    && (end == TEXT_BASE_VADDR || exists k :: 0 <= k < |sparse| && sparse[k].AddrEnd() == end)
  }

  ghost predicate IsRwAddr(sparse: seq<Section>, rwBase: Option<nat>, addr: nat) {
    match rwBase
    case Some(base) => PageAligned(addr) && base <= addr < base + PAGE
    case None => IsMemoryEnd(sparse, addr)
  }

  ghost predicate IsLaid(d: Dso, c: Content, rwBase: Option<nat>) {
    && SparseLaid(d.Regions(), d.low, d.sparse)
    && d.rwOffset == TEXT_BASE_OFFSET + Total(d.Regions()) && IsRwAddr(d.sparse, rwBase, d.rwAddr)
    && RowLaid(d.writable, WritableOf(c), d.rwOffset) && Shifted(d.writable, d.rwAddr - d.rwOffset)
    && d.rwFileEnd == d.writable[|d.writable| - 1].End() && d.rwMemEnd == d.writable[|d.writable| - 1].AddrEnd()
    && RowLaid(d.tail, TailOf(c), d.rwFileEnd) && (forall k :: 0 <= k < |d.tail| ==> d.tail[k].addr == 0)
    && d.headersOffset % 8 == 0 && d.tail[|d.tail| - 1].End() <= d.headersOffset
  }

  // ---------------------------------------------------------------------------------------------
  // Sums of region sizes

  lemma TotalStep(regions: seq<Region>, k: nat)
    requires k < |regions|
    ensures Total(regions[..k + 1]) == Total(regions[..k]) + regions[k].Size()
  {
    assert regions[..k + 1][..k] == regions[..k];
  }

  lemma {:induction false} TotalPaged(regions: seq<Region>)
    requires Paged(regions)
    ensures Total(regions) >= 0 && PageAligned(Total(regions))
  {
    if regions != [] {
      TotalPaged(regions[..|regions| - 1]);
      assert WholePages(Span(regions[|regions| - 1].start, regions[|regions| - 1].end));
    }
  }

  lemma {:induction false} TotalGrows(regions: seq<Region>, j: nat, k: nat)
    requires Paged(regions) && j <= k <= |regions|
    ensures Total(regions[..j]) <= Total(regions[..k])
  {
    if j < k {
      TotalGrows(regions, j, k - 1);
      TotalStep(regions, k - 1);
      assert WholePages(Span(regions[k - 1].start, regions[k - 1].end));
    }
  }

  lemma SizeIsPaged(regions: seq<Region>, k: nat)
    requires Paged(regions) && k < |regions|
    ensures regions[k].Size() > 0 && PageAligned(regions[k].Size()) && PageAligned(regions[k].start)
  {
    assert WholePages(Span(regions[k].start, regions[k].end));
  }

  lemma PrefixPaged(regions: seq<Region>, k: nat)
    requires Paged(regions) && k <= |regions|
    ensures Total(regions[..k]) >= 0 && PageAligned(Total(regions[..k]))
  {
    TotalPaged(regions[..k]);
  }

  /** Sections of a row do not overlap and are in order. */
  lemma {:induction false} RowGrows(secs: seq<Section>, items: seq<Section>, from: nat, j: nat, k: nat)
    requires RowLaid(secs, items, from) && j <= k <= |secs|
    ensures EndBefore(secs, j, from) <= EndBefore(secs, k, from)
    ensures j < k ==> secs[j].End() <= EndBefore(secs, k, from) && EndBefore(secs, j, from) <= secs[j].offset
  {
    if j < k {
      RowGrows(secs, items, from, j, k - 1);
      assert NextAligned(secs, k - 1, from);
    }
  }

  // ---------------------------------------------------------------------------------------------
  // Placing

  /** The next section of a row. */
  method PlaceNext(s: Section, offset: nat, addr: nat) returns (placed: Section)
    requires s.align == 1 || s.align == 8
    requires (addr - offset) % 8 == 0
    ensures placed == s.(offset := placed.offset, addr := placed.addr)
    ensures placed.offset % s.align == 0 && offset <= placed.offset < offset + s.align
    ensures placed.addr - placed.offset == addr - offset
  {
    hide AlignUp;
    SmallUp(offset, s.align);
    SmallUp(addr, s.align);
    placed := s.(offset := AlignUp(offset, s.align), addr := AlignUp(addr, s.align));
  }

  /** A row of sections: the file and the memory cursor go on together. */
  method PlaceRow(items: seq<Section>, offset: nat, addr: nat) returns (secs: seq<Section>, fileEnd: nat, memEnd: nat)
    requires forall k :: 0 <= k < |items| ==> items[k].align == 1 || items[k].align == 8
    requires (addr - offset) % 8 == 0
    ensures RowLaid(secs, items, offset) && Shifted(secs, addr - offset)
    ensures fileEnd == EndBefore(secs, |secs|, offset) && memEnd == fileEnd + (addr - offset)
  {
    secs, fileEnd, memEnd := items, offset, addr;
    for k := 0 to |items|
      invariant SameContents(secs, items) && fileEnd == EndBefore(secs, k, offset)
      invariant memEnd - fileEnd == addr - offset
      invariant forall j :: 0 <= j < k ==> NextAligned(secs, j, offset) && secs[j].addr - secs[j].offset == addr - offset
    {
      ghost var before := secs;
      var placed := PlaceNext(secs[k], fileEnd, memEnd);
      secs := secs[k := placed];
      forall j | 0 <= j <= k ensures NextAligned(secs, j, offset) && secs[j].addr - secs[j].offset == addr - offset {
        if j < k {
          assert NextAligned(before, j, offset);
        }
      }
      fileEnd := placed.offset + placed.size;
      memEnd := placed.addr + placed.size;
    }
  }
}
