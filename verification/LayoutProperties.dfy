/** What every layout guarantees: no two sections share a byte of the file, and segments are loaded where they can be. */
module LayoutProperties {
  import opened Alignment
  import opened DsoBuilder
  import opened DsoSymbols
  import opened Layout
  import opened Options
  import opened Regions

  /** Sections in file order, one behind the other. */
  ghost predicate InOrder(secs: seq<Section>, from: int, to: int) {
    && from <= to
    && (forall k :: 0 <= k < |secs| ==> from <= secs[k].offset && secs[k].End() <= to)
    && (forall j, k :: 0 <= j < k < |secs| ==> secs[j].End() <= secs[k].offset)
  }

  lemma InOrderJoin(a: seq<Section>, b: seq<Section>, from: int, mid: int, to: int)
    requires InOrder(a, from, mid) && InOrder(b, mid, to)
    ensures InOrder(a + b, from, to)
  {
  }

  lemma SparseInOrder(regions: seq<Region>, low: nat, sparse: seq<Section>)
    requires Paged(regions) && SparseLaid(regions, low, sparse)
    ensures InOrder(sparse, TEXT_BASE_OFFSET, TEXT_BASE_OFFSET + Total(regions))
  {
    hide Paged, Total;
    assert regions[..|regions|] == regions;
    NoRegions(regions);
    TotalGrows(regions, 0, |regions|);
    forall k | 0 <= k < |sparse|
      ensures TEXT_BASE_OFFSET <= sparse[k].offset && sparse[k].End() == TEXT_BASE_OFFSET + Total(regions[..k + 1])
      ensures sparse[k].End() <= TEXT_BASE_OFFSET + Total(regions)
    {
      assert SparseIs(regions, low, k, sparse[k]);
      TotalStep(regions, k);
      TotalGrows(regions, 0, k);
      TotalGrows(regions, k + 1, |regions|);
    }
    forall j, k | 0 <= j < k < |sparse| ensures sparse[j].End() <= sparse[k].offset {
      assert SparseIs(regions, low, k, sparse[k]);
      TotalGrows(regions, j + 1, k);
    }
  }

  lemma RowInOrder(secs: seq<Section>, items: seq<Section>, from: nat)
    requires RowLaid(secs, items, from)
    ensures InOrder(secs, from, EndBefore(secs, |secs|, from))
  {
    hide RowLaid;
    forall k | 0 <= k < |secs|
      ensures from <= secs[k].offset && secs[k].End() <= EndBefore(secs, |secs|, from)
    {
      RowGrows(secs, items, from, 0, k);
      RowGrows(secs, items, from, k, |secs|);
    }
    RowGrows(secs, items, from, 0, |secs|);
    forall j, k | 0 <= j < k < |secs| ensures secs[j].End() <= secs[k].offset {
      RowGrows(secs, items, from, j, k);
      RowGrows(secs, items, from, k, |secs|);
    }
  }

  /** All sections have file ranges of their own, behind the headers' page and before the section header table. */
  lemma FileRangesDisjoint(d: Dso, c: Content, rwBase: Option<nat>)
    requires Paged(d.Regions()) && IsLaid(d, c, rwBase)
    ensures InOrder(d.Sections(), TEXT_BASE_OFFSET, d.headersOffset)
  {
    hide Paged, SparseLaid, RowLaid, Shifted, IsRwAddr, InOrder;
    SparseInOrder(d.Regions(), d.low, d.sparse);
    RowInOrder(d.writable, WritableOf(c), d.rwOffset);
    RowInOrder(d.tail, TailOf(c), d.rwFileEnd);
    RowLength(d.writable, WritableOf(c), d.rwOffset);
    RowLength(d.tail, TailOf(c), d.rwFileEnd);
    InOrderJoin(d.sparse, d.writable, TEXT_BASE_OFFSET, d.rwOffset, d.rwFileEnd);
    InOrderJoin(d.sparse + d.writable, d.tail, TEXT_BASE_OFFSET, d.rwFileEnd, d.tail[|d.tail| - 1].End());
    InOrderWiden(d.Sections(), TEXT_BASE_OFFSET, d.tail[|d.tail| - 1].End(), d.headersOffset);
  }

  lemma RowLength(secs: seq<Section>, items: seq<Section>, from: nat)
    requires RowLaid(secs, items, from)
    ensures |secs| == |items|
  {
  }

  lemma InOrderWiden(secs: seq<Section>, from: int, to: int, more: int)
    requires InOrder(secs, from, to) && to <= more
    ensures InOrder(secs, from, more)
  {
  }

  // ---------------------------------------------------------------------------------------------
  // Loading

  /** What the loader asks of a PT_LOAD entry: offset and address agree within a page. */
  predicate Loadable(h: Header)
    requires h.Load?
  {
    (h.addr - h.offset) % PAGE == 0 && h.fileSize <= h.memSize
  }

  lemma SparseLoadable(regions: seq<Region>, low: nat, sparse: seq<Section>, k: nat)
    requires Paged(regions) && SparseLaid(regions, low, sparse) && PageAligned(low) && k < |sparse|
    ensures PageAligned(sparse[k].offset) && PageAligned(sparse[k].addr) && PageAligned(sparse[k].size)
  {
    hide Paged, PageAligned, Total;
    assert SparseIs(regions, low, k, sparse[k]);
    SizeIsPaged(regions, k);
    PrefixPaged(regions, k);
    PageBase();
    PagesAdd(regions[k].start, low);
    PagesAdd(TEXT_BASE_VADDR, regions[k].start - low);
    PagesAdd(TEXT_BASE_VADDR, Total(regions[..k]));
  }

  lemma SegmentsLoadable(d: Dso, c: Content, rwBase: Option<nat>, dynamicSize: nat, headers: seq<Header>)
    requires Paged(d.Regions()) && IsLaid(d, c, rwBase) && PageAligned(d.low) && PageAligned(d.rwAddr)
    requires AreHeaders(d, dynamicSize, headers)
    ensures forall h :: h in headers && h.Load? ==> Loadable(h)
  {
    hide Paged, SparseLaid, RowLaid, Shifted, IsRwAddr, Total;
    TotalPaged(d.Regions());
    DynamicPlaced(d, c, rwBase);
    assert Loadable(headers[|d.sparse|]);
    forall k | 0 <= k < |d.sparse| ensures Loadable(headers[k]) {
      assert SparseHeader(d, k, headers[k]);
      SparseLoadable(d.Regions(), d.low, d.sparse, k);
    }
  }

  /** What PT_DYNAMIC names is loaded, by the writable segment, and at the address that it names. */
  lemma DynamicIsLoaded(d: Dso, c: Content, rwBase: Option<nat>, dynamicSize: nat, headers: seq<Header>)
    requires IsLaid(d, c, rwBase) && AreHeaders(d, dynamicSize, headers)
    requires dynamicSize <= 16 * (c.needed + DYNAMIC_SLACK)
    ensures var l, h := headers[|d.sparse|], headers[|d.sparse| + 1];
            && l.Load? && l.write && h.Dynamic? && l.offset <= h.offset && h.offset + h.size <= l.offset + l.fileSize
            && h.addr - h.offset == l.addr - l.offset
  {
    hide SparseLaid, RowLaid, IsRwAddr;
    DynamicPlaced(d, c, rwBase);
  }

  predicate InMemory(s: Section, v: int) { s.addr <= v < s.AddrEnd() }

  ghost predicate Overlap(a: Section, b: Section) {
    exists v: int :: InMemory(a, v) && InMemory(b, v)
  }

  /** A page that belongs to the text and to the read-only data. */
  ghost predicate SharedPage(text: seq<Region>, ro: seq<Region>, x: nat) {
    PageAligned(x) && InRegion(text, x) && InRegion(ro, x)
  }

  /** Sections overlap in memory where regions overlap. */
  lemma OverlapIsShared(regions: seq<Region>, low: nat, sparse: seq<Section>, j: nat, k: nat)
    requires Paged(regions) && SparseLaid(regions, low, sparse) && j < |sparse| && k < |sparse|
    ensures Overlap(sparse[j], sparse[k]) <==>
            exists x: nat :: PageAligned(x) && regions[j].start <= x < regions[j].end
                             && regions[k].start <= x < regions[k].end
  {
    hide Total;
    assert SparseIs(regions, low, j, sparse[j]) && SparseIs(regions, low, k, sparse[k]);
    SizeIsPaged(regions, j);
    SizeIsPaged(regions, k);
    if Overlap(sparse[j], sparse[k]) {
      var v: int :| InMemory(sparse[j], v) && InMemory(sparse[k], v);
      var a := v - TEXT_BASE_VADDR + low;
      assert regions[j].start <= a < regions[j].end && regions[k].start <= a < regions[k].end;
      var top := if regions[j].start >= regions[k].start then regions[j].start else regions[k].start;
      assert PageAligned(top) && regions[j].start <= top < regions[j].end && regions[k].start <= top < regions[k].end;
    }
    if x: nat :| PageAligned(x) && regions[j].start <= x < regions[j].end && regions[k].start <= x < regions[k].end {
      var v := TEXT_BASE_VADDR + (x - low);
      assert InMemory(sparse[j], v) && InMemory(sparse[k], v);
    }
  }

  lemma SharedOverlaps(d: Dso, x: nat) returns (j: nat, k: nat)
    requires Paged(d.Regions()) && SparseLaid(d.Regions(), d.low, d.sparse) && SharedPage(d.text, d.ro, x)
    ensures j < k < |d.sparse| && Overlap(d.sparse[j], d.sparse[k])
  {
    hide Overlap, SparseLaid, Paged;
    LaidLength(d.Regions(), d.low, d.sparse);
    j :| 0 <= j < |d.text| && d.text[j].start <= x < d.text[j].end;
    var r :| 0 <= r < |d.ro| && d.ro[r].start <= x < d.ro[r].end;
    k := |d.text| + r;
    assert d.Regions()[j] == d.text[j] && d.Regions()[k] == d.ro[r];
    OverlapIsShared(d.Regions(), d.low, d.sparse, j, k);
  }

  lemma OverlapShares(d: Dso, used: seq<Span>, roUsed: seq<Span>, j: nat, k: nat) returns (x: nat)
    requires AreRegions(d.text, ".text", used) && AreRegions(d.ro, ".rodata", roUsed) && Paged(d.Regions())
    requires SparseLaid(d.Regions(), d.low, d.sparse) && j < k < |d.sparse| && Overlap(d.sparse[j], d.sparse[k])
    ensures SharedPage(d.text, d.ro, x)
  {
    hide Overlap, Touched, Named, SparseLaid, Paged, WholePages;
    LaidLength(d.Regions(), d.low, d.sparse);
    OverlapIsShared(d.Regions(), d.low, d.sparse, j, k);
    x :| PageAligned(x) && d.Regions()[j].start <= x < d.Regions()[j].end
         && d.Regions()[k].start <= x < d.Regions()[k].end;
    if k >= |d.text| && j < |d.text| {
      assert d.Regions()[j] == d.text[j] && d.Regions()[k] == d.ro[k - |d.text|];
      assert InRegion(d.text, x) && InRegion(d.ro, x);
    }
  }

  /** The sparse segments do not overlap in memory if and only if no page is both text and read-only data. */
  lemma SparseMemoryDisjoint(d: Dso, used: seq<Span>, roUsed: seq<Span>)
    requires AreRegions(d.text, ".text", used) && AreRegions(d.ro, ".rodata", roUsed)
    requires SparseLaid(d.Regions(), d.low, d.sparse)
    ensures (forall j, k :: 0 <= j < k < |d.sparse| ==> !Overlap(d.sparse[j], d.sparse[k]))
       <==> !exists x: nat :: SharedPage(d.text, d.ro, x)
  {
    hide Overlap, AreRegions, SparseLaid, Paged, SharedPage;
    RegionsArePaged(d.text, ".text", used);
    RegionsArePaged(d.ro, ".rodata", roUsed);
    PagedTogether(d.text, d.ro);
    if x: nat :| SharedPage(d.text, d.ro, x) {
      var j, k := SharedOverlaps(d, x);
    }
    if j, k :| 0 <= j < k < |d.sparse| && Overlap(d.sparse[j], d.sparse[k]) {
      var x := OverlapShares(d, used, roUsed, j, k);
    }
  }

  lemma LaidLength(regions: seq<Region>, low: nat, sparse: seq<Section>)
    requires SparseLaid(regions, low, sparse)
    ensures |sparse| == |regions|
  {
  }

  /** The writable segment is loaded behind all sparse ones, unless its address is demanded. */
  lemma WritableBehind(d: Dso, c: Content, k: nat)
    requires IsLaid(d, c, None) && k < |d.sparse|
    ensures d.sparse[k].AddrEnd() <= d.rwAddr
  {
  }

  /** So without a demanded address all loaded ranges are disjoint if and only if no page is both text and read-only data. */
  lemma LoadedRangesDisjoint(d: Dso, c: Content, used: seq<Span>, roUsed: seq<Span>)
    requires AreRegions(d.text, ".text", used) && AreRegions(d.ro, ".rodata", roUsed) && IsLaid(d, c, None)
    ensures (forall j, k :: 0 <= j < k < |d.sparse| ==> !Overlap(d.sparse[j], d.sparse[k]))
            && (forall k, v :: 0 <= k < |d.sparse| && d.rwAddr <= v < d.rwMemEnd ==> !InMemory(d.sparse[k], v))
       <==> !exists x: nat :: SharedPage(d.text, d.ro, x)
  {
    hide Overlap, AreRegions, SharedPage, SparseLaid, RowLaid, Shifted;
    SparseMemoryDisjoint(d, used, roUsed);
    forall k, v | 0 <= k < |d.sparse| && d.rwAddr <= v < d.rwMemEnd ensures !InMemory(d.sparse[k], v) {
      WritableBehind(d, c, k);
    }
  }
}
