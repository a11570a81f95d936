/** Which kernel page stands behind which page of the file. */
module PageMappings {
  import opened Alignment
  import opened DsoSymbols
  import opened Layout
  import opened LayoutProperties
  import opened Options
  import opened Regions

  datatype MapKind = Text | Rodata

  datatype Mapping = Mapping(fileOffset: nat, kernel: nat, kind: MapKind, section: string)

  datatype MapError = DuplicateFilePage(offset: nat) | DuplicateKernelPage(page: nat)

  /** Page `i` of sparse section `k` exists. */
  predicate IsSlot(d: Dso, k: nat, i: nat) {
    k < |d.sparse| && |d.sparse| == |d.Regions()| && PAGE * i < d.sparse[k].size
  }

  /** Its mapping. */
  function MapOf(d: Dso, k: nat, i: nat): Mapping
    requires IsSlot(d, k, i)
  {
    Mapping(d.sparse[k].offset + PAGE * i, d.Regions()[k].start + PAGE * i, if k < |d.text| then Text else Rodata,
            d.sparse[k].name)
  }

  /** A mapping of a page that is reused; synthetic pages have contents of their own. */
  ghost predicate IsMapped(d: Dso, synthetic: set<nat>, m: Mapping) {
    m.kernel !in synthetic && exists k: nat, i: nat :: IsSlot(d, k, i) && MapOf(d, k, i) == m
  }

  ghost predicate Consistent(d: Dso) {
    Paged(d.Regions()) && SparseLaid(d.Regions(), d.low, d.sparse)
  }

  // ---------------------------------------------------------------------------------------------
  // Slots

  /** Slots follow each other in the file. */
  lemma SlotOrder(d: Dso, k: nat, i: nat, l: nat, j: nat)
    requires Consistent(d) && IsSlot(d, k, i) && IsSlot(d, l, j)
    requires k < l || (k == l && i < j)
    ensures MapOf(d, k, i).fileOffset + PAGE <= MapOf(d, l, j).fileOffset
  {
    hide Paged, SparseLaid, InOrder;
    SlotInside(d, k, i);
    if k < l {
      SparseInOrder(d.Regions(), d.low, d.sparse);
      OrderGives(d.sparse, TEXT_BASE_OFFSET, TEXT_BASE_OFFSET + Total(d.Regions()), k, l);
    }
  }

  lemma OrderGives(secs: seq<Section>, from: int, to: int, j: nat, k: nat)
    requires InOrder(secs, from, to) && j < k < |secs|
    ensures secs[j].End() <= secs[k].offset
  {
  }

  /** A slot's page is wholly in its section and in its region. */
  lemma SlotInside(d: Dso, k: nat, i: nat)
    requires Consistent(d) && IsSlot(d, k, i)
    ensures PAGE * i + PAGE <= d.sparse[k].size == d.Regions()[k].Size()
    ensures d.Regions()[k].start <= MapOf(d, k, i).kernel && MapOf(d, k, i).kernel + PAGE <= d.Regions()[k].end
    ensures PageAligned(MapOf(d, k, i).kernel)
  {
    assert SparseIs(d.Regions(), d.low, k, d.sparse[k]);
    SizeIsPaged(d.Regions(), k);
    WholeSlots(d.sparse[k].size, d.Regions()[k].start, i);
  }

  lemma WholeSlots(size: nat, start: nat, i: nat)
    requires PageAligned(size) && PageAligned(start) && PAGE * i < size
    ensures PAGE * i + PAGE <= size && PageAligned(start + PAGE * i)
  {
  }

  /** A mapping of kind text shows a page of a text region, one of kind rodata a read-only page, under the region's name. */
  lemma KindOfPage(d: Dso, synthetic: set<nat>, m: Mapping)
    requires Consistent(d) && IsMapped(d, synthetic, m)
    ensures var regions := if m.kind == Text then d.text else d.ro;
            exists k :: 0 <= k < |regions| && regions[k].start <= m.kernel && m.kernel + PAGE <= regions[k].end
                        && regions[k].name == m.section
  {
    hide Paged;
    var k: nat, i: nat :| IsSlot(d, k, i) && MapOf(d, k, i) == m;
    SlotInside(d, k, i);
    assert SparseIs(d.Regions(), d.low, k, d.sparse[k]);
    if k < |d.text| {
      assert d.Regions()[k] == d.text[k];
    } else {
      assert d.Regions()[k] == d.ro[k - |d.text|];
    }
  }

  /** One slot, one file page. */
  lemma SlotUnique(d: Dso, k: nat, i: nat, l: nat, j: nat)
    requires Consistent(d) && IsSlot(d, k, i) && IsSlot(d, l, j)
    requires MapOf(d, k, i).fileOffset == MapOf(d, l, j).fileOffset
    ensures k == l && i == j
  {
    hide Consistent, MapOf;
    if k < l || (k == l && i < j) {
      SlotOrder(d, k, i, l, j);
    } else if l < k || (k == l && j < i) {
      SlotOrder(d, l, j, k, i);
    }
  }

  // ---------------------------------------------------------------------------------------------
  // The mapping list

  ghost predicate Ascending(maps: seq<Mapping>) {
    forall j, k :: 0 <= j < k < |maps| ==> maps[j].fileOffset < maps[k].fileOffset
  }

  /** The mappings of all pages before file offset `cur`. */
  ghost predicate IsPrefix(d: Dso, synthetic: set<nat>, maps: seq<Mapping>, cur: nat) {
    && Ascending(maps)
    && forall m :: m in maps <==> IsMapped(d, synthetic, m) && m.fileOffset < cur
  }

  ghost predicate AllDifferent(maps: seq<Mapping>) {
    forall j, k :: 0 <= j < k < |maps| ==> maps[j].kernel != maps[k].kernel
  }

  /** Two different file pages would show the same kernel page. */
  ghost predicate KernelPageTwice(d: Dso, synthetic: set<nat>, page: nat) {
    exists m, n :: IsMapped(d, synthetic, m) && IsMapped(d, synthetic, n) && m.fileOffset < n.fileOffset
                   && m.kernel == n.kernel == page
  }

  lemma NextMapped(d: Dso, synthetic: set<nat>, maps: seq<Mapping>, k: nat, i: nat, more: seq<Mapping>)
    requires Consistent(d) && IsSlot(d, k, i) && IsPrefix(d, synthetic, maps, MapOf(d, k, i).fileOffset)
    requires more == if MapOf(d, k, i).kernel in synthetic then maps else maps + [MapOf(d, k, i)]
    ensures IsPrefix(d, synthetic, more, MapOf(d, k, i).fileOffset + PAGE)
  {
    hide Consistent, MapOf, IsSlot;
    var here := MapOf(d, k, i);
    forall m ensures m in more <==> IsMapped(d, synthetic, m) && m.fileOffset < here.fileOffset + PAGE {
      if IsMapped(d, synthetic, m) {
        var l: nat, j: nat :| IsSlot(d, l, j) && MapOf(d, l, j) == m;
        if l < k || (l == k && j < i) {
          SlotOrder(d, l, j, k, i);
        } else if k < l || (k == l && i < j) {
          SlotOrder(d, k, i, l, j);
        }
      }
    }
    forall j, l | 0 <= j < l < |more| ensures more[j].fileOffset < more[l].fileOffset {
      assert more[j] in maps || j == |maps|;
    }
  }

  /** Nothing is mapped between the end of a section and the start of the next one. */
  lemma NextSection(d: Dso, synthetic: set<nat>, maps: seq<Mapping>, k: nat, cur: nat, next: nat)
    requires Consistent(d) && k < |d.sparse| && cur == d.sparse[k].End() && IsPrefix(d, synthetic, maps, cur)
    requires if k + 1 < |d.sparse| then next == d.sparse[k + 1].offset else next >= cur
    ensures IsPrefix(d, synthetic, maps, next)
  {
    hide Consistent;
    forall m | IsMapped(d, synthetic, m) && m.fileOffset < next ensures m.fileOffset < cur {
      var l: nat, j: nat :| IsSlot(d, l, j) && MapOf(d, l, j) == m;
      SectionBefore(d, l, j, k);
    }
    SectionsFollow(d, k);
  }

  lemma SectionBefore(d: Dso, l: nat, j: nat, k: nat)
    requires Consistent(d) && IsSlot(d, l, j) && k < |d.sparse|
    ensures l <= k ==> MapOf(d, l, j).fileOffset < d.sparse[k].End()
    ensures k < l ==> k + 1 < |d.sparse| && d.sparse[k + 1].offset <= MapOf(d, l, j).fileOffset
  {
    hide Paged, SparseLaid, InOrder;
    SparseInOrder(d.Regions(), d.low, d.sparse);
    if l < k {
      OrderGives(d.sparse, TEXT_BASE_OFFSET, TEXT_BASE_OFFSET + Total(d.Regions()), l, k);
    } else if k + 1 < l {
      OrderGives(d.sparse, TEXT_BASE_OFFSET, TEXT_BASE_OFFSET + Total(d.Regions()), k + 1, l);
    }
  }

  lemma SectionsFollow(d: Dso, k: nat)
    requires Consistent(d) && k < |d.sparse|
    ensures k + 1 < |d.sparse| ==> d.sparse[k].End() <= d.sparse[k + 1].offset
  {
    hide Paged, SparseLaid, InOrder;
    SparseInOrder(d.Regions(), d.low, d.sparse);
    if k + 1 < |d.sparse| {
      OrderGives(d.sparse, TEXT_BASE_OFFSET, TEXT_BASE_OFFSET + Total(d.Regions()), k, k + 1);
    }
  }

  lemma NothingBefore(d: Dso, synthetic: set<nat>)
    requires Consistent(d)
    ensures IsPrefix(d, synthetic, [], if d.sparse == [] then 0 else d.sparse[0].offset)
  {
    hide Consistent;
    forall m | IsMapped(d, synthetic, m) ensures d.sparse != [] && m.fileOffset >= d.sparse[0].offset {
      var l: nat, j: nat :| IsSlot(d, l, j) && MapOf(d, l, j) == m;
      if l > 0 {
        SectionBefore(d, l, j, 0);
        SectionsFollow(d, 0);
      }
    }
  }

  ghost predicate SeenAre(maps: seq<Mapping>, offsets: set<nat>, pages: set<nat>) {
    && (forall x :: x in offsets <==> exists j :: 0 <= j < |maps| && maps[j].fileOffset == x)
    && (forall x :: x in pages <==> exists j :: 0 <= j < |maps| && maps[j].kernel == x)
    && AllDifferent(maps)
  }

  lemma SeenOne(maps: seq<Mapping>, offsets: set<nat>, pages: set<nat>, m: Mapping)
    requires SeenAre(maps, offsets, pages) && m.kernel !in pages
    ensures SeenAre(maps + [m], offsets + {m.fileOffset}, pages + {m.kernel})
  {
    var more := maps + [m];
    forall x ensures x in offsets + {m.fileOffset} <==> exists j :: 0 <= j < |more| && more[j].fileOffset == x {
      assert more[|maps|] == m;
      if x in offsets {
        var j :| 0 <= j < |maps| && maps[j].fileOffset == x;
        assert more[j] == maps[j];
      }
    }
    forall x ensures x in pages + {m.kernel} <==> exists j :: 0 <= j < |more| && more[j].kernel == x {
      assert more[|maps|] == m;
      if x in pages {
        var j :| 0 <= j < |maps| && maps[j].kernel == x;
        assert more[j] == maps[j];
      }
    }
  }

  lemma OffsetIsNew(d: Dso, synthetic: set<nat>, maps: seq<Mapping>, offsets: set<nat>, pages: set<nat>, cur: nat)
    requires SeenAre(maps, offsets, pages) && IsPrefix(d, synthetic, maps, cur)
    ensures cur !in offsets
  {
    forall j | 0 <= j < |maps| ensures maps[j].fileOffset < cur {
      assert maps[j] in maps;
    }
  }

  lemma PageSeenTwice(d: Dso, synthetic: set<nat>, maps: seq<Mapping>, offsets: set<nat>, pages: set<nat>, m: Mapping)
    requires SeenAre(maps, offsets, pages) && IsPrefix(d, synthetic, maps, m.fileOffset)
    requires IsMapped(d, synthetic, m) && m.kernel in pages
    ensures KernelPageTwice(d, synthetic, m.kernel)
  {
    hide IsMapped;
    var j :| 0 <= j < |maps| && maps[j].kernel == m.kernel;
    assert maps[j] in maps;
  }

  /** `reusable_page_mappings`: all reused pages in file order, unless a kernel page would be needed twice. */
  method ReusablePageMappings(d: Dso, synthetic: set<nat>) returns (r: Result<seq<Mapping>, MapError>)
    requires Consistent(d)
    ensures r.Ok? ==> forall m :: m in r.value <==> IsMapped(d, synthetic, m)
    ensures r.Ok? ==> Ascending(r.value) && AllDifferent(r.value)
    ensures r.Err? ==> r.error.DuplicateKernelPage? && KernelPageTwice(d, synthetic, r.error.page)
  {
    hide Paged, SparseLaid, IsMapped, IsPrefix, SeenAre, KernelPageTwice, MapOf;
    var maps, offsets, pages := [], {}, {};
    NothingBefore(d, synthetic);
    SeenNothing();
    ghost var cur: nat := if d.sparse == [] then 0 else d.sparse[0].offset;
    for k := 0 to |d.sparse|
      invariant IsPrefix(d, synthetic, maps, cur) && SeenAre(maps, offsets, pages)
      invariant if k < |d.sparse| then cur == d.sparse[k].offset else k > 0 ==> cur == d.sparse[k - 1].End()
    {
      var i: nat := 0;
      SectionLength(d, k);
      while PAGE * i < d.sparse[k].size
        invariant PAGE * i <= d.sparse[k].size && cur == d.sparse[k].offset + PAGE * i
        invariant IsPrefix(d, synthetic, maps, cur) && SeenAre(maps, offsets, pages)
        decreases d.sparse[k].size - PAGE * i
      {
        SlotInside(d, k, i);
        var m := MapOf(d, k, i);
        SlotIs(d, k, i);
        NextMapped(d, synthetic, maps, k, i, if m.kernel in synthetic then maps else maps + [m]);
        if m.kernel !in synthetic {
          SlotIsMapped(d, synthetic, k, i);
          OffsetIsNew(d, synthetic, maps, offsets, pages, cur);
          if m.fileOffset in offsets {
            return Err(DuplicateFilePage(m.fileOffset));
          }
          if m.kernel in pages {
            PageSeenTwice(d, synthetic, maps, offsets, pages, m);
            return Err(DuplicateKernelPage(m.kernel));
          }
          SeenOne(maps, offsets, pages, m);
          offsets, pages := offsets + {m.fileOffset}, pages + {m.kernel};
          maps := maps + [m];
        }
        cur := cur + PAGE;
        i := i + 1;
      }
      ghost var next: nat := if k + 1 < |d.sparse| then d.sparse[k + 1].offset else cur;
      NextSection(d, synthetic, maps, k, cur, next);
      cur := next;
    }
    AllMapped(d, synthetic, maps, cur);
    SeenDifferent(maps, offsets, pages);
    r := Ok(maps);
  }

  lemma SeenNothing()
    ensures SeenAre([], {}, {})
  {
  }

  lemma SeenDifferent(maps: seq<Mapping>, offsets: set<nat>, pages: set<nat>)
    requires SeenAre(maps, offsets, pages)
    ensures AllDifferent(maps)
  {
  }

  lemma SectionLength(d: Dso, k: nat)
    requires Consistent(d) && k < |d.sparse|
    ensures |d.sparse| == |d.Regions()| && PageAligned(d.sparse[k].size)
  {
    assert SparseIs(d.Regions(), d.low, k, d.sparse[k]);
    SizeIsPaged(d.Regions(), k);
  }

  lemma SlotIs(d: Dso, k: nat, i: nat)
    requires IsSlot(d, k, i)
    ensures MapOf(d, k, i).fileOffset == d.sparse[k].offset + PAGE * i
  {
  }

  lemma SlotIsMapped(d: Dso, synthetic: set<nat>, k: nat, i: nat)
    requires IsSlot(d, k, i) && MapOf(d, k, i).kernel !in synthetic
    ensures IsMapped(d, synthetic, MapOf(d, k, i))
  {
  }

  lemma AllMapped(d: Dso, synthetic: set<nat>, maps: seq<Mapping>, cur: nat)
    requires Consistent(d) && IsPrefix(d, synthetic, maps, cur)
    requires d.sparse != [] ==> cur == d.sparse[|d.sparse| - 1].End()
    ensures forall m :: m in maps <==> IsMapped(d, synthetic, m)
    ensures Ascending(maps)
  {
    hide Consistent;
    forall m | IsMapped(d, synthetic, m) ensures m.fileOffset < cur {
      var l: nat, j: nat :| IsSlot(d, l, j) && MapOf(d, l, j) == m;
      assert l < |d.sparse|;
      SectionBefore(d, l, j, |d.sparse| - 1);
    }
  }

  // ---------------------------------------------------------------------------------------------
  // When there is no list

  /** A page of a region has its slot. */
  lemma SlotOfPage(d: Dso, k: nat, page: nat) returns (i: nat)
    requires Consistent(d) && k < |d.Regions()| && PageAligned(page)
    requires d.Regions()[k].start <= page < d.Regions()[k].end
    ensures IsSlot(d, k, i) && MapOf(d, k, i).kernel == page
  {
    assert SparseIs(d.Regions(), d.low, k, d.sparse[k]);
    SizeIsPaged(d.Regions(), k);
    PagesAdd(page, d.Regions()[k].start);
    i := (page - d.Regions()[k].start) / PAGE;
  }

  /** A kernel page is needed twice exactly if it is both text and read-only data, and not synthetic. */
  lemma TwiceIsShared(d: Dso, used: seq<Span>, roUsed: seq<Span>, synthetic: set<nat>, page: nat)
    requires AreRegions(d.text, ".text", used) && AreRegions(d.ro, ".rodata", roUsed) && Consistent(d)
    ensures KernelPageTwice(d, synthetic, page) <==> SharedPage(d.text, d.ro, page) && page !in synthetic
  {
    hide Consistent, AreRegions, MapOf, SharedPage, IsSlot;
    if KernelPageTwice(d, synthetic, page) {
      var m, n :| IsMapped(d, synthetic, m) && IsMapped(d, synthetic, n) && m.fileOffset < n.fileOffset
                  && m.kernel == n.kernel == page;
      var k: nat, i: nat :| IsSlot(d, k, i) && MapOf(d, k, i) == m;
      var l: nat, j: nat :| IsSlot(d, l, j) && MapOf(d, l, j) == n;
      TwiceGivesShared(d, used, roUsed, k, i, l, j);
    }
    if SharedPage(d.text, d.ro, page) && page !in synthetic {
      SharedGivesTwice(d, synthetic, page);
    }
  }

  lemma SharedGivesTwice(d: Dso, synthetic: set<nat>, page: nat)
    requires Consistent(d) && SharedPage(d.text, d.ro, page) && page !in synthetic
    ensures KernelPageTwice(d, synthetic, page)
  {
    hide Consistent, MapOf, IsSlot, IsMapped;
    var k :| 0 <= k < |d.text| && d.text[k].start <= page < d.text[k].end;
    var l :| 0 <= l < |d.ro| && d.ro[l].start <= page < d.ro[l].end;
    assert d.Regions()[k] == d.text[k] && d.Regions()[|d.text| + l] == d.ro[l];
    var i := SlotOfPage(d, k, page);
    var j := SlotOfPage(d, |d.text| + l, page);
    SlotIsMapped(d, synthetic, k, i);
    SlotIsMapped(d, synthetic, |d.text| + l, j);
    SlotOrder(d, k, i, |d.text| + l, j);
  }

  lemma TwiceGivesShared(d: Dso, used: seq<Span>, roUsed: seq<Span>, k: nat, i: nat, l: nat, j: nat)
    requires AreRegions(d.text, ".text", used) && AreRegions(d.ro, ".rodata", roUsed) && Consistent(d)
    requires IsSlot(d, k, i) && IsSlot(d, l, j) && MapOf(d, k, i).kernel == MapOf(d, l, j).kernel
    requires MapOf(d, k, i).fileOffset < MapOf(d, l, j).fileOffset
    ensures SharedPage(d.text, d.ro, MapOf(d, k, i).kernel)
  {
    hide Consistent, Touched, Named, WholePages;
    SlotInside(d, k, i);
    SlotInside(d, l, j);
    if l <= k {
      if l < k { SlotOrder(d, l, j, k, i); }
      SlotIs(d, k, i);
      SlotIs(d, l, j);
    }
    var page := MapOf(d, k, i).kernel;
    if k < |d.text| && l >= |d.text| {
      assert d.Regions()[k] == d.text[k] && d.Regions()[l] == d.ro[l - |d.text|];
      assert InRegion(d.text, page) && InRegion(d.ro, page);
    }
  }

  lemma NoneTwice(d: Dso, synthetic: set<nat>, maps: seq<Mapping>, page: nat)
    requires (forall m :: m in maps <==> IsMapped(d, synthetic, m)) && AllDifferent(maps)
    ensures !KernelPageTwice(d, synthetic, page)
  {
    hide IsMapped;
    forall m, n | m in maps && n in maps && m.fileOffset < n.fileOffset ensures m.kernel != n.kernel {
      var j :| 0 <= j < |maps| && maps[j] == m;
      var k :| 0 <= k < |maps| && maps[k] == n;
      assert j != k;
    }
  }
}
