/** The builder of sparse DSOs, step by step. */
module DsoBuilder {
  import opened Alignment
  import opened DsoSymbols
  import opened Layout
  import opened Options
  import opened Regions

  datatype Tag = Needed | GnuHash | StrTab | SymTab | Rela | RelaSize | RelaEntry | StrSize | SymEntry | Null

  class Builder {
    const stub: nat
    const extraText: seq<Span>
    const extraRo: seq<Span>
    const override: Option<nat>
    const rwBase: Option<nat>
    const content: Content

    var symbols: seq<Sym>
    var low: nat
    var text: seq<Region>
    var ro: seq<Region>
    var sparse: seq<Section>
    var writable: seq<Section>
    var tail: seq<Section>
    var rwOffset: nat
    var rwAddr: nat
    var rwFileEnd: nat
    var rwMemEnd: nat
    var headersOffset: nat
    var dynamicSize: nat

    constructor (symbols: seq<Sym>, stub: nat, extraText: seq<Span>, extraRo: seq<Span>, override: Option<nat>,
                 rwBase: Option<nat>, content: Content)
      ensures this.symbols == symbols && this.stub == stub && this.extraText == extraText && this.extraRo == extraRo
      ensures this.override == override && this.rwBase == rwBase && this.content == content
    {
      this.symbols, this.stub, this.extraText, this.extraRo := symbols, stub, extraText, extraRo;
      this.override, this.rwBase, this.content := override, rwBase, content;
      low, text, ro, sparse, writable, tail := TEXT_BASE_VADDR, [], [], [], [], [];
      rwOffset, rwAddr, rwFileEnd, rwMemEnd, headersOffset, dynamicSize := 0, 0, 0, 0, 0, 0;
    }

    ghost function View(): Dso
      reads this
    {
      Dso(low, text, ro, sparse, writable, tail, rwOffset, rwAddr, rwFileEnd, rwMemEnd, headersOffset)
    }

    ghost predicate Prepared()
      reads this
    {
      PageAligned(low) && Paged(text + ro)
    }

    /** The regions' sections exist, not yet placed. */
    ghost predicate HasContent()
      reads this
    {
      && Prepared() && |sparse| == |text| + |ro|
      && (forall k :: 0 <= k < |sparse| ==> Unlaid(text + ro, k, sparse[k]))
      && writable == WritableOf(content) && tail == TailOf(content)
    }

    method PrepareSymbolVirtualAddresses()
      requires forall s :: s in extraText || s in extraRo ==> s.start <= s.end
      modifies this
      ensures IsPrepared(old(symbols), symbols, stub, extraText, extraRo, override, low, text, ro)
      ensures Prepared()
      ensures BytesInside(symbols, Func, text) && NothingElse(symbols, Func, extraText, text)
      ensures BytesInside(symbols, RoObject, ro) && NothingElse(symbols, RoObject, extraRo, ro)
    {
      hide BytesInside, NothingElse;
      hide SectionIs, Touched, Named, IsFilled;
      symbols, low, text, ro := DsoSymbols.Prepare(symbols, stub, extraText, extraRo, override);
      RegionsArePaged(text, ".text", UsedBy(symbols, Func, extraText));
      RegionsArePaged(ro, ".rodata", UsedBy(symbols, RoObject, extraRo));
      PagedTogether(text, ro);
      LowIsAligned(symbols, override, low, text);
    }

    method BuildContentSections()
      requires Prepared()
      modifies this`sparse, this`writable, this`tail
      ensures HasContent()
    {
      sparse := [];
      for k := 0 to |text|
        invariant |sparse| == k && forall j :: 0 <= j < k ==> Unlaid(text + ro, j, sparse[j])
        modifies this`sparse
      {
        sparse := sparse + [Unplaced(text[k].name, PAGE, RegionSize(text + ro, k))];
      }
      for k := 0 to |ro|
        invariant |sparse| == |text| + k && forall j :: 0 <= j < |text| + k ==> Unlaid(text + ro, j, sparse[j])
        modifies this`sparse
      {
        sparse := sparse + [Unplaced(ro[k].name, PAGE, RegionSize(text + ro, |text| + k))];
      }
      writable, tail := WritableOf(content), TailOf(content);
    }

    /** One sparse section: the next whole page of the file, and its region's place in memory. */
    method PlaceSparse(k: nat, offset: nat) returns (next: nat)
      requires Prepared() && k < |sparse| == |text + ro|
      requires Unlaid(text + ro, k, sparse[k]) && offset == TEXT_BASE_OFFSET + Total((text + ro)[..k])
      modifies this`sparse
      ensures |sparse| == old(|sparse|) && sparse == old(sparse)[k := sparse[k]] && SparseIs(text + ro, low, k, sparse[k])
      ensures next == sparse[k].End() == TEXT_BASE_OFFSET + Total((text + ro)[..k + 1])
    {
      hide AlignUp;
      PrefixPaged(text + ro, k);
      PageUp(offset);
      var region := (text + ro)[k];
      sparse := sparse[k := sparse[k].(offset := AlignUp(offset, PAGE), addr := TEXT_BASE_VADDR + (region.start - low))];
      TotalStep(text + ro, k);
      next := sparse[k].offset + sparse[k].size;
    }

    /** The sparse part of `_assign_offsets_and_addresses`: text, then read-only data. */
    method PlaceAllSparse() returns (offset: nat, end: nat)
      requires HasContent()
      modifies this`sparse
      ensures SparseLaid(text + ro, low, sparse)
      ensures offset == TEXT_BASE_OFFSET + Total(text + ro) && IsMemoryEnd(sparse, end)
    {
      hide SparseIs, Unlaid, Total, Paged;
      NoRegions(text + ro);
      offset, end := TEXT_BASE_OFFSET, TEXT_BASE_VADDR;
      for k := 0 to |text| + |ro|
        invariant |sparse| == |text| + |ro| && offset == TEXT_BASE_OFFSET + Total((text + ro)[..k])
        invariant forall j :: 0 <= j < k ==> SparseIs(text + ro, low, j, sparse[j])
        invariant forall j :: k <= j < |sparse| ==> Unlaid(text + ro, j, sparse[j])
        invariant end >= TEXT_BASE_VADDR && forall j :: 0 <= j < k ==> sparse[j].AddrEnd() <= end
        invariant end == TEXT_BASE_VADDR || exists j :: 0 <= j < k && sparse[j].AddrEnd() == end
      {
        ghost var before := sparse;
        offset := PlaceSparse(k, offset);
        assert forall j :: 0 <= j < |sparse| && j != k ==> sparse[j] == before[j];
        if sparse[k].AddrEnd() > end {
          end := sparse[k].AddrEnd();
        }
      }
      assert (text + ro)[..|text| + |ro|] == text + ro;
    }

    method PlaceTail(offset: nat) returns (end: nat)
      requires tail == TailOf(content)
      modifies this`tail
      ensures RowLaid(tail, TailOf(content), offset) && forall k :: 0 <= k < |tail| ==> tail[k].addr == 0
      ensures end == tail[|tail| - 1].End() && |tail| == 3
    {
      end := offset;
      for k := 0 to 3
        invariant |tail| == 3 && SameContents(tail, TailOf(content)) && end == EndBefore(tail, k, offset)
        invariant forall j :: 0 <= j < k ==> NextAligned(tail, j, offset) && tail[j].addr == 0
        modifies this`tail
      {
        ghost var before := tail;
        var placed := PlaceNext(tail[k], end, end);
        tail := tail[k := placed.(addr := 0)];
        forall j | 0 <= j <= k ensures NextAligned(tail, j, offset) && tail[j].addr == 0 {
          if j < k {
            assert NextAligned(before, j, offset);
          }
        }
        end := placed.offset + placed.size;
      }
    }

    /** Where the writable segment begins in the file and in memory. */
    method StartWritable(offset: nat, end: nat)
      requires Prepared() && SparseLaid(text + ro, low, sparse)
      requires offset == TEXT_BASE_OFFSET + Total(text + ro) && IsMemoryEnd(sparse, end)
      modifies this`rwOffset, this`rwAddr
      ensures rwOffset == offset && PageAligned(rwOffset) && IsRwAddr(sparse, rwBase, rwAddr) && PageAligned(rwAddr)
    {
      hide AlignUp, SparseLaid;
      TotalPaged(text + ro);
      PageUp(offset);
      MemoryEndIsPage(text + ro, low, sparse, end);
      PageUp(end);
      rwOffset, rwAddr := AlignUp(offset, PAGE), AlignUp(end, PAGE);
      if rwBase.Some? {
        PageUp(rwBase.value);
        rwAddr := AlignUp(rwBase.value, PAGE);
      }
    }

    method PlaceWritable()
      requires writable == WritableOf(content) && PageAligned(rwOffset) && PageAligned(rwAddr)
      modifies this`writable, this`rwFileEnd, this`rwMemEnd
      ensures RowLaid(writable, WritableOf(content), rwOffset) && Shifted(writable, rwAddr - rwOffset)
      ensures |writable| > 0 && rwFileEnd == writable[|writable| - 1].End() && rwMemEnd == writable[|writable| - 1].AddrEnd()
    {
      hide RowLaid, Shifted, WritableOf, PageAligned;
      WritableAligned(content);
      PagesAreWords(rwAddr, rwOffset);
      var secs, fileEnd, memEnd := PlaceRow(writable, rwOffset, rwAddr);
      LastOfRow(secs, WritableOf(content), rwOffset, rwAddr - rwOffset);
      writable, rwFileEnd, rwMemEnd := secs, fileEnd, memEnd;
    }

    method AssignOffsetsAndAddresses()
      requires HasContent()
      modifies this`sparse, this`writable, this`tail, this`rwOffset, this`rwAddr, this`rwFileEnd, this`rwMemEnd
      modifies this`headersOffset
      ensures IsLaid(View(), content, rwBase) && PageAligned(rwAddr)
    {
      hide AlignUp, SparseLaid, RowLaid, Shifted, Unlaid, WritableOf, TailOf, Total, Paged, IsMemoryEnd, IsRwAddr;
      var offset, end := PlaceAllSparse();
      EndIsNat(sparse, end);
      StartWritable(offset, end);
      PlaceWritable();
      var last := PlaceTail(rwFileEnd);
      SmallUp(last, 8);
      headersOffset := AlignUp(last, 8);
    }

    /** The steps of `write` that decide the layout. */
    method LayOut()
      requires forall s :: s in extraText || s in extraRo ==> s.start <= s.end
      modifies this
      ensures IsPrepared(old(symbols), symbols, stub, extraText, extraRo, override, low, text, ro)
      ensures Prepared() && IsLaid(View(), content, rwBase) && PageAligned(rwAddr)
      ensures BytesInside(symbols, Func, text) && NothingElse(symbols, Func, extraText, text)
      ensures BytesInside(symbols, RoObject, ro) && NothingElse(symbols, RoObject, extraRo, ro)
    {
      hide IsPrepared, Paged, IsLaid, BytesInside, NothingElse;
      PrepareSymbolVirtualAddresses();
      BuildContentSections();
      AssignOffsetsAndAddresses();
    }

    /** `self.sections[name]` among the writable sections. */
    method Lookup(name: string) returns (s: Section)
      requires exists k :: 0 <= k < |writable| && writable[k].name == name
      ensures s in writable && s.name == name
    {
      var k := 0;
      while writable[k].name != name
        invariant 0 <= k < |writable| && forall j :: 0 <= j < k ==> writable[j].name != name
        decreases |writable| - k
      {
        k := k + 1;
      }
      s := writable[k];
    }

    /** The entries of the final `.dynamic`, which is cut to their size; `needed` are the names' places in `.dynstr`. */
    method FinalizeDynamicSection(needed: seq<nat>) returns (entries: seq<Entry>)
      requires SameContents(writable, WritableOf(content)) && |needed| == content.needed
      modifies this`dynamicSize
      ensures dynamicSize == 16 * |entries| <= WritableOf(content)[|WritableOf(content)| - 1].size
      ensures |entries| == |needed| + |LaterTags(HasRelocations(content))|
      ensures forall k :: 0 <= k < |needed| ==> entries[k] == Entry(Needed, needed[k])
      ensures forall k :: 0 <= k < |LaterTags(HasRelocations(content))| ==>
                && entries[|needed| + k].tag == LaterTags(HasRelocations(content))[k]
                && Tells(writable, entries[|needed| + k].tag, entries[|needed| + k].value)
    {
      hide SameContents, WritableOf, LaterTags, Tells;
      SectionsExist(writable, content);
      var n := |needed|;
      var first := seq(n, k requires 0 <= k < n => Entry(Needed, needed[k]));
      var later := LaterEntries();
      entries := first + later;
      assert forall k :: 0 <= k < |later| ==> entries[n + k] == later[k];
      AtMostNine(HasRelocations(content));
      dynamicSize := 16 * |entries|;
    }

    /** The entries behind the needed libraries. */
    method LaterEntries() returns (later: seq<Entry>)
      requires SameContents(writable, WritableOf(content))
      ensures |later| == |LaterTags(HasRelocations(content))|
      ensures forall k :: 0 <= k < |later| ==>
                && later[k].tag == LaterTags(HasRelocations(content))[k] && Tells(writable, later[k].tag, later[k].value)
    {
      hide SameContents, WritableOf;
      SectionsExist(writable, content);
      var hash := Lookup(".gnu.hash");
      var dynstr := Lookup(".dynstr");
      var dynsym := Lookup(".dynsym");
      later := [Entry(GnuHash, hash.addr), Entry(StrTab, dynstr.addr), Entry(SymTab, dynsym.addr)];
      if HasRelocations(content) {
        var rela := Lookup(".rela.dyn");
        later := later + [Entry(Rela, rela.addr), Entry(RelaSize, rela.size), Entry(RelaEntry, 24)];
      }
      later := later + [Entry(StrSize, dynstr.size), Entry(SymEntry, 24), Entry(Null, 0)];
    }

    /**
     The program headers, unless an address is negative, which no header can hold. They end before the first section when
     there are at most 70 regions; more would be overwritten by its contents.
     */
    method BuildProgramHeaders() returns (r: Option<seq<Header>>)
      requires IsLaid(View(), content, rwBase) && content.dynstr > 0
      ensures r.None? <==> exists k :: 0 <= k < |sparse| && sparse[k].addr < 0
      ensures r.Some? ==> AreHeaders(View(), dynamicSize, r.value)
      ensures r.Some? ==> (HEADERS_OFFSET + HEADER_SIZE * |r.value| <= TEXT_BASE_OFFSET <==> |text| + |ro| <= 70)
    {
      hide SparseLaid, RowLaid;
      LaidSizes(View(), content, rwBase);
      var headers := [];
      for k := 0 to |sparse|
        invariant |headers| == k && forall j :: 0 <= j < k ==> sparse[j].addr >= 0 && SparseHeader(View(), j, headers[j])
      {
        var s := sparse[k];
        if s.addr < 0 {
          return None;
        }
        headers := headers + [Load(k < |text|, false, s.offset, s.addr, s.size, s.size)];
      }
      RowNotEmpty(View(), content, rwBase);
      if rwFileEnd > rwOffset {
        headers := headers + [Load(false, true, rwOffset, rwAddr, rwFileEnd - rwOffset, rwMemEnd - rwAddr)];
      }
      var last := writable[|writable| - 1];
      DynamicPlaced(View(), content, rwBase);
      r := Some(headers + [Dynamic(last.offset, last.addr, dynamicSize)]);
    }
  }

  const HEADERS_OFFSET: nat := 64

  const HEADER_SIZE: nat := 56

  /** PT_LOAD and PT_DYNAMIC; all segments are readable. */
  datatype Header =
    | Load(exec: bool, write: bool, offset: nat, addr: nat, fileSize: nat, memSize: nat)
    | Dynamic(offset: nat, addr: nat, size: nat)

  ghost predicate SparseHeader(d: Dso, k: nat, h: Header)
    requires k < |d.sparse|
  {
    && h.Load? && h.exec == (k < |d.text|) && !h.write && h.offset == d.sparse[k].offset && h.addr == d.sparse[k].addr
    && h.fileSize == h.memSize == d.sparse[k].size
  }

  /** One entry for each sparse section, one for the writable segment, and the dynamic section's at the end. */
  ghost predicate AreHeaders(d: Dso, dynamicSize: nat, headers: seq<Header>) {
    && |headers| == |d.sparse| + 2 && |d.writable| > 0
    && (forall k :: 0 <= k < |d.sparse| ==> SparseHeader(d, k, headers[k]))
    && (var h := headers[|d.sparse|]; h.Load? && !h.exec && h.write && h.offset == d.rwOffset && h.addr == d.rwAddr
                                      && h.fileSize == d.rwFileEnd - d.rwOffset && h.memSize == d.rwMemEnd - d.rwAddr)
    && (var last := d.writable[|d.writable| - 1];
        last.addr >= 0 && headers[|d.sparse| + 1] == Dynamic(last.offset, last.addr, dynamicSize))
  }

  lemma LaidSizes(d: Dso, c: Content, rwBase: Option<nat>)
    requires IsLaid(d, c, rwBase)
    ensures |d.sparse| == |d.text| + |d.ro| && |d.writable| > 0
  {
  }

  /** The dynamic section lies in the writable segment, in the file and in memory. */
  lemma DynamicPlaced(d: Dso, c: Content, rwBase: Option<nat>)
    requires IsLaid(d, c, rwBase)
    ensures |d.writable| > 0
    ensures var last := d.writable[|d.writable| - 1];
            && d.rwOffset <= last.offset && last.End() == d.rwFileEnd && last.addr - last.offset == d.rwAddr - d.rwOffset
            && last.size == 16 * (c.needed + DYNAMIC_SLACK)
  {
    var n := |d.writable|;
    assert n == |WritableOf(c)|;
    RowGrows(d.writable, WritableOf(c), d.rwOffset, 0, n - 1);
    assert NextAligned(d.writable, n - 1, d.rwOffset);
    assert d.writable[n - 1].size == WritableOf(c)[n - 1].size;
  }

  datatype Entry = Entry(tag: Tag, value: int)

  /** The tags behind the needed libraries; the list ends with the only null tag. */
  function LaterTags(relocations: bool): seq<Tag> {
    [GnuHash, StrTab, SymTab] + (if relocations then [Rela, RelaSize, RelaEntry] else []) + [StrSize, SymEntry, Null]
  }

  lemma AtMostNine(relocations: bool)
    ensures |LaterTags(relocations)| <= 9
  {
  }

  /** What the loader learns from an entry is true. */
  ghost predicate Tells(secs: seq<Section>, t: Tag, value: int) {
    match t
    case GnuHash => exists s :: s in secs && s.name == ".gnu.hash" && value == s.addr
    case StrTab => exists s :: s in secs && s.name == ".dynstr" && value == s.addr
    case SymTab => exists s :: s in secs && s.name == ".dynsym" && value == s.addr
    case Rela => exists s :: s in secs && s.name == ".rela.dyn" && value == s.addr
    case RelaSize => exists s :: s in secs && s.name == ".rela.dyn" && value == s.size
    case StrSize => exists s :: s in secs && s.name == ".dynstr" && value == s.size
    case RelaEntry => value == 24
    case SymEntry => value == 24
    case Null => value == 0
    case Needed => false
  }

  lemma SectionsExist(secs: seq<Section>, c: Content)
    requires SameContents(secs, WritableOf(c))
    ensures |WritableOf(c)| > 0 && WritableOf(c)[|WritableOf(c)| - 1].size == 16 * (c.needed + DYNAMIC_SLACK)
    ensures exists k :: 0 <= k < |secs| && secs[k].name == ".dynstr"
    ensures exists k :: 0 <= k < |secs| && secs[k].name == ".dynsym"
    ensures exists k :: 0 <= k < |secs| && secs[k].name == ".gnu.hash"
    ensures HasRelocations(c) ==> exists k :: 0 <= k < |secs| && secs[k].name == ".rela.dyn"
  {
    var k := if c.includeData then 1 else 0;
    assert secs[k].name == ".dynstr" && secs[k + 1].name == ".dynsym" && secs[k + 2].name == ".gnu.hash";
    assert HasRelocations(c) ==> secs[k + 3].name == ".rela.dyn";
  }

  ghost predicate Unlaid(regions: seq<Region>, k: nat, s: Section) {
    k < |regions| && s.name == regions[k].name && s.align == PAGE && s.size == regions[k].Size()
  }

  function RegionSize(regions: seq<Region>, k: nat): (n: nat)
    requires k < |regions| && WholePages(Span(regions[k].start, regions[k].end))
    ensures n == regions[k].Size()
  {
    regions[k].end - regions[k].start
  }

  lemma EndIsNat(sparse: seq<Section>, end: int)
    requires IsMemoryEnd(sparse, end)
    ensures end >= 0
  {
  }

  lemma NoRegions(regions: seq<Region>)
    ensures Total(regions[..0]) == 0
  {
  }

  lemma RegionsArePaged(regions: seq<Region>, base: string, used: seq<Span>)
    requires AreRegions(regions, base, used)
    ensures Paged(regions)
  {
  }

  lemma PagedTogether(text: seq<Region>, ro: seq<Region>)
    requires Paged(text) && Paged(ro)
    ensures Paged(text + ro)
  {
  }

  lemma LowIsAligned(symbols: seq<Sym>, override: Option<nat>, low: nat, text: seq<Region>)
    requires IsLowPage(symbols, override, low, text) && Paged(text)
    ensures PageAligned(low)
  {
    if text != [] {
      SizeIsPaged(text, 0);
    }
  }

  lemma EndIsPage(regions: seq<Region>, low: nat, k: nat, s: Section)
    requires k < |regions| && SparseIs(regions, low, k, s) && Paged(regions) && PageAligned(low)
    ensures PageAligned(s.AddrEnd())
  {
    hide PageAligned;
    SizeIsPaged(regions, k);
    PagesAdd(regions[k].start, low);
    PageBase();
    PagesAdd(TEXT_BASE_VADDR, regions[k].start - low);
    PagesAdd(s.addr, s.size);
  }

  lemma PageBase()
    ensures PageAligned(TEXT_BASE_VADDR)
  {
  }

  lemma MemoryEndIsPage(regions: seq<Region>, low: nat, sparse: seq<Section>, end: int)
    requires SparseLaid(regions, low, sparse) && Paged(regions) && PageAligned(low) && IsMemoryEnd(sparse, end)
    ensures PageAligned(end)
  {
    hide SparseIs, Paged;
    PageBase();
    if end != TEXT_BASE_VADDR {
      var k :| 0 <= k < |sparse| && sparse[k].AddrEnd() == end;
      assert SparseIs(regions, low, k, sparse[k]);
      EndIsPage(regions, low, k, sparse[k]);
    }
  }

  lemma WritableAligned(c: Content)
    ensures |WritableOf(c)| > 0
    ensures forall k :: 0 <= k < |WritableOf(c)| ==> WritableOf(c)[k].align == 1 || WritableOf(c)[k].align == 8
  {
  }

  lemma PagesAreWords(a: nat, b: nat)
    requires PageAligned(a) && PageAligned(b)
    ensures (a - b) % 8 == 0
  {
    hide PageAligned;
    PagesAdd(a, b);
    PageIsWords(a - b);
  }

  lemma PageIsWords(x: int)
    requires PageAligned(x)
    ensures x % 8 == 0
  {
    var k := x / PAGE;
    assert x == 8 * (512 * k);
  }

  lemma LastOfRow(secs: seq<Section>, items: seq<Section>, from: nat, distance: int)
    requires RowLaid(secs, items, from) && Shifted(secs, distance) && |items| > 0
    ensures |secs| == |items| && EndBefore(secs, |secs|, from) == secs[|secs| - 1].End()
    ensures secs[|secs| - 1].AddrEnd() == secs[|secs| - 1].End() + distance
  {
  }

  lemma RowNotEmpty(d: Dso, c: Content, rwBase: Option<nat>)
    requires IsLaid(d, c, rwBase) && c.dynstr > 0
    ensures d.rwFileEnd > d.rwOffset && d.rwMemEnd - d.rwAddr == d.rwFileEnd - d.rwOffset
  {
    var k := if c.includeData then 1 else 0;
    assert d.writable[k].size == c.dynstr;
    RowGrows(d.writable, WritableOf(c), d.rwOffset, 0, k);
    RowGrows(d.writable, WritableOf(c), d.rwOffset, k, |d.writable|);
  }
}
