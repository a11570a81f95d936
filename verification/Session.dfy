/**
 From layout to page cache and back: what a user reads at an address of the DSO, once the builder's page map has been
 loaded, sent in batches and carried out by the module.
 */
module Session {
  import opened Alignment
  import opened DsoSymbols
  import opened Graft
  import opened Layout
  import opened LayoutProperties
  import opened Options
  import opened PageCache
  import opened PageCacheSafety
  import opened PageCacheSpec
  import opened PageMapLoader
  import opened PageMapText
  import opened PageMappings
  import opened Powers
  import opened Regions
  import opened RestoreBatches

  // ---------------------------------------------------------------------------------------------
  // The builder's mappings can be printed

  /** The layout stays within 64-bit addresses and file offsets, and does not use the kernel's page zero. */
  ghost predicate InRange(d: Dso) {
    && (forall k :: 0 <= k < |d.Regions()| ==> d.Regions()[k].start > 0 && d.Regions()[k].end <= ULLONG_MAX + 1)
    && (forall k :: 0 <= k < |d.sparse| ==> d.sparse[k].End() <= LLONG_MAX)
    && |d.Regions()| <= LLONG_MAX
  }

  lemma {:induction false} HexLength(n: nat, k: nat)
    requires k >= 1 && n < Pow(16, k)
    ensures |Hex(n)| <= k
  {
    if n >= 16 {
      assert Pow(16, k) == 16 * Pow(16, k - 1) && Pow(16, 0) == 1;
      HexLength(n / 16, k - 1);
    }
  }

  lemma {:induction false} DecimalLength(n: nat, k: nat)
    requires k >= 1 && n < Pow(10, k)
    ensures |Decimal(n)| <= k
  {
    if n >= 10 {
      assert Pow(10, k) == 10 * Pow(10, k - 1) && Pow(10, 0) == 1;
      DecimalLength(n / 10, k - 1);
    }
  }

  lemma SixteenDigits()
    ensures Pow(16, 16) == ULLONG_MAX + 1 && Pow(10, 20) > LLONG_MAX + 1
  {
    assert Pow(16, 4) == 65536;
    assert Pow(16, 8) == 16 * (16 * (16 * (16 * Pow(16, 4))));
    assert Pow(16, 12) == 16 * (16 * (16 * (16 * Pow(16, 8))));
    assert Pow(16, 16) == 16 * (16 * (16 * (16 * Pow(16, 12))));
    assert Pow(10, 5) == 100000;
    assert Pow(10, 10) == 10 * (10 * (10 * (10 * (10 * Pow(10, 5)))));
    assert Pow(10, 15) == 10 * (10 * (10 * (10 * (10 * Pow(10, 10)))));
    assert Pow(10, 20) == 10 * (10 * (10 * (10 * (10 * Pow(10, 15)))));
  }

  lemma {:induction false} DecimalPlain(n: nat)
    ensures Plain(Decimal(n))
  {
    if n >= 10 { DecimalPlain(n / 10); }
  }

  lemma NameIsPlain(base: string, n: nat, k: nat)
    requires base == ".text" || base == ".rodata"
    requires k < n <= LLONG_MAX
    ensures Plain(NameOf(base, n, k)) && NameOf(base, n, k) != "" && |NameOf(base, n, k)| <= 27
  {
    hide Pow, Decimal;
    DecimalPlain(k + 1);
    SixteenDigits();
    DecimalLength(k + 1, 20);
    assert Plain(base);
  }

  lemma MappingPrintable(d: Dso, used: seq<Span>, roUsed: seq<Span>, synthetic: set<nat>, m: Mapping)
    requires Consistent(d) && AreRegions(d.text, ".text", used) && AreRegions(d.ro, ".rodata", roUsed) && InRange(d)
    requires IsMapped(d, synthetic, m)
    ensures Printable(m) && |LineOf(m)| <= LINE_MAX
    ensures m.fileOffset >= TEXT_BASE_OFFSET && exists k :: 0 <= k < |d.sparse| && m.fileOffset + PAGE <= d.sparse[k].End()
  {
    hide Consistent, AreRegions, InRange, Plain, LineOf;
    var k: nat, i: nat :| IsSlot(d, k, i) && MapOf(d, k, i) == m;
    SlotInside(d, k, i);
    SectionFacts(d, k, i);
    NumbersInRange(d, k, i);
    RegionNamePlain(d, used, roUsed, k);
    LineLength(m);
  }

  lemma NumbersInRange(d: Dso, k: nat, i: nat)
    requires Consistent(d) && InRange(d) && IsSlot(d, k, i)
    ensures MapOf(d, k, i).fileOffset <= LLONG_MAX && 0 < MapOf(d, k, i).kernel <= ULLONG_MAX
  {
    hide Consistent;
    SlotInside(d, k, i);
  }

  lemma RegionNamePlain(d: Dso, used: seq<Span>, roUsed: seq<Span>, k: nat)
    requires AreRegions(d.text, ".text", used) && AreRegions(d.ro, ".rodata", roUsed) && InRange(d)
    requires k < |d.Regions()|
    ensures Plain(d.Regions()[k].name) && d.Regions()[k].name != "" && |d.Regions()[k].name| <= 27
  {
    hide Touched, WholePages, Plain, Decimal;
    if k < |d.text| {
      assert d.Regions()[k] == d.text[k];
      NameIsPlain(".text", |d.text|, k);
    } else {
      assert d.Regions()[k] == d.ro[k - |d.text|];
      NameIsPlain(".rodata", |d.ro|, k - |d.text|);
    }
  }

  lemma SectionFacts(d: Dso, k: nat, i: nat)
    requires Consistent(d) && IsSlot(d, k, i)
    ensures d.sparse[k].name == d.Regions()[k].name && d.sparse[k].offset >= TEXT_BASE_OFFSET
    ensures PageAligned(MapOf(d, k, i).fileOffset)
  {
    assert SparseIs(d.Regions(), d.low, k, d.sparse[k]);
    PrefixPaged(d.Regions(), k);
  }

  lemma LineLength(m: Mapping)
    requires m.fileOffset <= ULLONG_MAX && m.kernel <= ULLONG_MAX && |m.section| <= 27
    ensures |LineOf(m)| <= LINE_MAX
  {
    hide Hex, Pow;
    SixteenDigits();
    HexLength(m.fileOffset, 16);
    HexLength(m.kernel, 16);
  }

  /**
   The manager loads from the builder's text exactly the builder's list, and the list fits the file that the builder
   wrote: `size` is at least where the section headers begin.
   */
  lemma PlanIsBuilders(d: Dso, used: seq<Span>, roUsed: seq<Span>, c: Content, rwBase: Option<nat>, synthetic: set<nat>,
                       maps: seq<Mapping>, plan: Option<seq<Entry>>, size: nat)
    requires Consistent(d) && AreRegions(d.text, ".text", used) && AreRegions(d.ro, ".rodata", roUsed) && InRange(d)
    requires IsLaid(d, c, rwBase) && size >= d.headersOffset
    requires IsPageMap(d, synthetic, maps) && AllDifferent(maps) && maps != []
    requires IsLoadedFrom(plan, Concatenation.Flatten(Lines(maps)))
    ensures plan == Some(EntriesOf(maps))
    ensures forall k :: 0 <= k < |plan.value| ==> plan.value[k].fileOffset + PAGE <= size
  {
    hide Consistent, AreRegions, InRange, IsMapped, Printable, LineOf, Lines, Chunks, IsLaid;
    forall k | 0 <= k < |maps|
      ensures Printable(maps[k]) && |LineOf(maps[k])| <= LINE_MAX && maps[k].fileOffset + PAGE <= size
    {
      assert maps[k] in maps;
      MappingPrintable(d, used, roUsed, synthetic, maps[k]);
      MappingInFile(d, c, rwBase, synthetic, maps[k]);
    }
    PlanBack(maps, plan);
  }

  /** What `LoadPageMappings` ensures. */
  ghost predicate IsLoadedFrom(plan: Option<seq<Entry>>, file: string) {
    && (plan.Some? <==> Acceptable(Chunks(file)))
    && (plan.Some? ==> SortedByOffset(plan.value) && multiset(plan.value) == multiset(Entries(Chunks(file)).value))
  }

  lemma MappingInFile(d: Dso, c: Content, rwBase: Option<nat>, synthetic: set<nat>, m: Mapping)
    requires Consistent(d) && IsLaid(d, c, rwBase) && IsMapped(d, synthetic, m)
    ensures m.fileOffset + PAGE <= d.headersOffset
  {
    hide Paged, SparseLaid, IsLaid, InOrder;
    var k: nat, i: nat :| IsSlot(d, k, i) && MapOf(d, k, i) == m;
    SlotInside(d, k, i);
    FileRangesDisjoint(d, c, rwBase);
    EndsBefore(d.Sections(), k, TEXT_BASE_OFFSET, d.headersOffset);
  }

  lemma EndsBefore(secs: seq<Section>, k: nat, from: int, to: int)
    requires InOrder(secs, from, to) && k < |secs|
    ensures secs[k].End() <= to
  {
  }

  // ---------------------------------------------------------------------------------------------
  // Replacing

  /** The request that a message is. */
  function RequestOf(m: Message): Request { Request(m.count, m.offsets, m.vaddrs) }

  /** What the module does with the messages, one after the other. */
  ghost function Deliver(s: State, frames: map<nat, nat>, msgs: seq<Message>): State
    requires WellSized(msgs)
  {
    if msgs == [] then s
    else
      var m := msgs[|msgs| - 1];
      assert m in msgs;
      var t, r := Deliver(s, frames, msgs[..|msgs| - 1]), RequestOf(m);
      if r.Accepted() then ReplacePages(t, frames, r.Targets()).0 else t
  }

  /** The page indices and kernel addresses of a plan. */
  function TargetsOf(pairs: seq<(nat, nat)>): seq<Target> {
    seq(|pairs|, k requires 0 <= k < |pairs| => (pairs[k].0 / PAGE, pairs[k].1))
  }

  lemma {:induction false} ReplaceAppend(s: State, frames: map<nat, nat>, a: seq<Target>, b: seq<Target>)
    requires ReplacePages(s, frames, a + b).1 == OK
    ensures ReplacePages(s, frames, a).1 == OK
    ensures ReplacePages(s, frames, a + b) == ReplacePages(ReplacePages(s, frames, a).0, frames, b)
    decreases |a|
  {
    hide ReplacePage;
    if a == [] {
      assert a + b == b;
    } else {
      assert (a + b)[1..] == a[1..] + b;
      ReplaceAppend(ReplacePage(s, frames, a[0].0, a[0].1).0, frames, a[1..], b);
    }
  }

  /** Batches do together what one request for the whole plan would do. */
  lemma {:induction false} DeliveredTogether(s: State, frames: map<nat, nat>, msgs: seq<Message>)
    requires WellSized(msgs) && ReplacePages(s, frames, TargetsOf(Sent(msgs))).1 == OK
    requires forall k :: 0 <= k < |Sent(msgs)| ==> Sent(msgs)[k].1 > 0
    ensures Deliver(s, frames, msgs) == ReplacePages(s, frames, TargetsOf(Sent(msgs))).0
  {
    hide ReplacePages;
    if msgs == [] {
      NothingReplaced(s, frames);
    } else {
      var m, init := msgs[|msgs| - 1], msgs[..|msgs| - 1];
      assert m in msgs;
      var last := seq(m.count, k requires 0 <= k < m.count => (m.offsets[k], m.vaddrs[k]));
      assert Sent(msgs) == Sent(init) + last;
      assert TargetsOf(Sent(msgs)) == TargetsOf(Sent(init)) + TargetsOf(last);
      ReplaceAppend(s, frames, TargetsOf(Sent(init)), TargetsOf(last));
      assert forall k :: 0 <= k < |Sent(init)| ==> Sent(init)[k] == Sent(msgs)[k];
      DeliveredTogether(s, frames, init);
      forall i | 0 <= i < m.count ensures m.vaddrs[i] != 0 {
        assert Sent(msgs)[|Sent(init)| + i] == last[i];
      }
      assert RequestOf(m).Targets() == TargetsOf(last);
    }
  }

  lemma NothingReplaced(s: State, frames: map<nat, nat>)
    ensures ReplacePages(s, frames, []) == (s, OK)
  {
  }

  /** Kernel pages resolve, each to a page frame of its own. */
  ghost predicate Resolves(frames: map<nat, nat>, maps: seq<Mapping>) {
    && (forall k :: 0 <= k < |maps| ==> maps[k].kernel in frames)
    && (forall j, k :: 0 <= j < k < |maps| && maps[j].kernel in frames && maps[k].kernel in frames ==>
          frames[maps[j].kernel] != frames[maps[k].kernel])
  }

  function PlanTargets(maps: seq<Mapping>): seq<Target> {
    seq(|maps|, k requires 0 <= k < |maps| => (maps[k].fileOffset / PAGE, maps[k].kernel))
  }

  lemma PlanIsFresh(s: State, frames: map<nat, nat>, maps: seq<Mapping>)
    requires KernelFree(s) && Ascending(maps) && Resolves(frames, maps)
    requires forall k :: 0 <= k < |maps| ==> PageAligned(maps[k].fileOffset)
    ensures FreshPages(s, frames, PlanTargets(maps))
  {
    forall j, k | 0 <= j < k < |maps| ensures maps[j].fileOffset / PAGE != maps[k].fileOffset / PAGE {
    }
  }

  /** What the builder's mappings are like. */
  ghost predicate Sound(maps: seq<Mapping>) {
    Ascending(maps) && forall k :: 0 <= k < |maps| ==> Printable(maps[k])
  }

  /** The messages are those for the builder's mappings. */
  ghost predicate SaysPlan(msgs: seq<Message>, maps: seq<Mapping>) {
    WellSized(msgs) && Sent(msgs) == PlanPairs(EntriesOf(maps))
  }

  lemma PlanSaid(msgs: seq<Message>, maps: seq<Mapping>)
    requires SaysPlan(msgs, maps)
    ensures TargetsOf(Sent(msgs)) == PlanTargets(maps) && |Sent(msgs)| == |maps|
    ensures forall j :: 0 <= j < |maps| ==> Sent(msgs)[j].1 == maps[j].kernel
  {
    hide Sent;
  }

  /** When all batches of the plan have been delivered, every page of the plan shows its kernel page. */
  lemma PlanCarriedOut(s: State, frames: map<nat, nat>, maps: seq<Mapping>, msgs: seq<Message>, k: nat)
    requires Inv(s) && KernelFree(s) && Sound(maps) && Resolves(frames, maps) && k < |maps|
    requires SaysPlan(msgs, maps)
    ensures maps[k].fileOffset / PAGE in Deliver(s, frames, msgs).slots
    ensures maps[k].kernel in frames
    ensures Deliver(s, frames, msgs).slots[maps[k].fileOffset / PAGE] == Cached(Kernel(frames[maps[k].kernel]))
  {
    hide Inv, KernelFree, ReplacePages, Ascending, Deliver, Sent, FreshPages;
    assert forall j :: 0 <= j < |maps| ==> Printable(maps[j]);
    PlanSaid(msgs, maps);
    PlanIsFresh(s, frames, maps);
    ReplacedInFull(s, frames, PlanTargets(maps));
    DeliveredTogether(s, frames, msgs);
    assert PlanTargets(maps)[k] == (maps[k].fileOffset / PAGE, maps[k].kernel);
  }

  /**
   End to end: at every address of the DSO's text and read-only data outside synthetic pages, the file page that the
   loader maps shows the kernel page of the translated address.
   */
  lemma UserSeesKernel(d: Dso, synthetic: set<nat>, maps: seq<Mapping>, s: State, frames: map<nat, nat>,
                       msgs: seq<Message>, k: nat, v: int)
    requires Consistent(d) && PageAligned(d.low) && IsPageMap(d, synthetic, maps) && Sound(maps)
    requires Inv(s) && KernelFree(s) && Resolves(frames, maps)
    requires SaysPlan(msgs, maps)
    requires k < |d.sparse| && InMemory(d.sparse[k], v)
    requires Translated(d, v) - Translated(d, v) % PAGE !in synthetic
    ensures FilePage(d, k, v) >= 0 && FilePage(d, k, v) / PAGE in Deliver(s, frames, msgs).slots
    ensures Translated(d, v) >= 0 && Translated(d, v) - Translated(d, v) % PAGE in frames
    ensures Deliver(s, frames, msgs).slots[FilePage(d, k, v) / PAGE]
         == Cached(Kernel(frames[Translated(d, v) - Translated(d, v) % PAGE]))
  {
    hide Consistent, IsPageMap, Sound, Inv, KernelFree, Resolves, Sent, Deliver, FilePage, Translated, IsSlot;
    var i := SlotOfAddress(d, k, v);
    var t := GraftTranslation(d, synthetic, maps, k, v);
    PlanCarriedOut(s, frames, maps, msgs, t);
    assert maps[t].kernel == MapOf(d, k, i).kernel;
  }

  // ---------------------------------------------------------------------------------------------
  // Restoring

  /** The restore messages are those for the builder's mappings. */
  ghost predicate SaysRestore(msgs: seq<RestoreMessage>, maps: seq<Mapping>) {
    Sized(msgs) && Asked(msgs) == OffsetsOf(EntriesOf(maps))
  }

  /** How many pages of a plan get a record. */
  function RoomFor(adds: nat, pages: nat): (r: nat)
    ensures r <= pages
  {
    if adds >= PageCacheSpec.MAX_PAGES then 0
    else if adds + pages <= PageCacheSpec.MAX_PAGES then pages
    else PageCacheSpec.MAX_PAGES - adds
  }

  lemma NoRecords(s: State)
    requires Inv(s) && KernelFree(s)
    ensures forall i :: !HasRecord(s, i)
  {
  }

  /** Once replaced, the pages at the beginning of the plan have records, as many as there was room for. */
  lemma RecordsOfPlan(s: State, frames: map<nat, nat>, pages: seq<Target>, k: nat)
    requires Inv(s) && KernelFree(s) && FreshPages(s, frames, pages)
    requires (forall j :: 0 <= j < |pages| ==> pages[j].1 in frames) && k < |pages|
    ensures HasRecord(ReplacePages(s, frames, pages).0, pages[k].0) <==> k < RoomFor(s.adds, |pages|)
  {
    hide Inv, KernelFree, HasRecord, ReplacePages;
    NoRecords(s);
    RecordsMade(s, frames, pages);
    var t := ReplacePages(s, frames, pages).0;
    assert HasRecord(t, pages[k].0) <==> Noted(s, pages, pages[k].0);
    assert forall j :: 0 <= j < |pages| && j != k ==> pages[j].0 != pages[k].0;
  }

  /** All restore messages for the plan: the pages with a record are emptied, and nothing else happens. */
  lemma AfterRestore(s: State, frames: map<nat, nat>, maps: seq<Mapping>, msgs: seq<Message>, restores: seq<RestoreMessage>)
    requires Inv(s) && KernelFree(s) && Sound(maps) && Resolves(frames, maps)
    requires SaysPlan(msgs, maps) && SaysRestore(restores, maps)
    ensures FreshPages(s, frames, PlanTargets(maps)) && Inv(Deliver(s, frames, msgs))
    ensures Deliver(s, frames, msgs) == ReplacePages(s, frames, PlanTargets(maps)).0
    ensures Emptied(Deliver(s, frames, msgs), DeliverRestores(Deliver(s, frames, msgs), restores),
                    Indices(PlanTargets(maps))[..RoomFor(s.adds, |maps|)])
  {
    hide Inv, KernelFree, HasRecord, ReplacePages, Deliver, DeliverRestores, Asked, Sent, Emptied, FreshPages, RoomFor;
    var pages := PlanTargets(maps);
    assert forall j :: 0 <= j < |maps| ==> Printable(maps[j]);
    PlanSaid(msgs, maps);
    PlanIsFresh(s, frames, maps);
    ReplacedInFull(s, frames, pages);
    DeliveredTogether(s, frames, msgs);
    ReplacePagesKeep(s, frames, pages);
    assert PagesAt(Asked(restores)) == Indices(pages);
    DistinctIndices(s, frames, pages);
    var t, r := Deliver(s, frames, msgs), RoomFor(s.adds, |maps|);
    forall k | 0 <= k < |pages| ensures HasRecord(t, Indices(pages)[k]) <==> k < r {
      RecordsOfPlan(s, frames, pages, k);
    }
    RestoresTogether(t, restores, r);
  }

  /**
   And back, for a plan of any length: the restore batches empty the slots of the first pages, as many as the backup array
   had room for, and the next access there reads the file again; the pages behind them keep showing the kernel.
   */
  lemma FileComesBack(s: State, frames: map<nat, nat>, maps: seq<Mapping>, msgs: seq<Message>,
                      restores: seq<RestoreMessage>, k: nat)
    requires Inv(s) && KernelFree(s) && Sound(maps) && Resolves(frames, maps) && k < |maps|
    requires SaysPlan(msgs, maps) && SaysRestore(restores, maps)
    ensures var t, i := DeliverRestores(Deliver(s, frames, msgs), restores), maps[k].fileOffset / PAGE;
            if s.adds + k < PageCacheSpec.MAX_PAGES then
              i !in t.slots && IsCached(Touch(t, i), i) && Touch(t, i).slots[i].page.Disk?
            else
              maps[k].kernel in frames && i in t.slots && t.slots[i] == Cached(Kernel(frames[maps[k].kernel]))
  {
    hide Inv, KernelFree, Deliver, DeliverRestores, ReplacePages, FreshPages, HasRecord;
    var pages, r := PlanTargets(maps), RoomFor(s.adds, |maps|);
    AfterRestore(s, frames, maps, msgs, restores);
    var t, i := DeliverRestores(Deliver(s, frames, msgs), restores), maps[k].fileOffset / PAGE;
    assert Indices(pages)[k] == i;
    DistinctIndices(s, frames, pages);
    if k < r {
      assert Indices(pages)[..r][k] == i;
    } else {
      assert i !in Indices(pages)[..r];
      PlanCarriedOut(s, frames, maps, msgs, k);
    }
  }

  /** So a plan is taken back as a whole if and only if it has no more pages than the backup array had room for. */
  lemma AllComesBack(s: State, frames: map<nat, nat>, maps: seq<Mapping>, msgs: seq<Message>,
                     restores: seq<RestoreMessage>)
    requires Inv(s) && KernelFree(s) && Sound(maps) && Resolves(frames, maps) && maps != []
    requires SaysPlan(msgs, maps) && SaysRestore(restores, maps)
    ensures KernelFree(DeliverRestores(Deliver(s, frames, msgs), restores))
       <==> s.adds + |maps| <= PageCacheSpec.MAX_PAGES
  {
    hide Owned, Counted, Recorded, Filled, Deliver, DeliverRestores, ReplacePages, FreshPages;
    var pages, t := PlanTargets(maps), DeliverRestores(Deliver(s, frames, msgs), restores);
    AfterRestore(s, frames, maps, msgs, restores);
    if s.adds + |maps| <= PageCacheSpec.MAX_PAGES {
      OnlyPlanGrafted(s, frames, maps);
      assert Indices(pages)[..|maps|] == Indices(pages);
      NoGraftMeansKernelFree(t);
    } else {
      FileComesBack(s, frames, maps, msgs, restores, |maps| - 1);
      assert IsGrafted(t, maps[|maps| - 1].fileOffset / PAGE);
    }
  }

  lemma OnlyPlanGrafted(s: State, frames: map<nat, nat>, maps: seq<Mapping>)
    requires Inv(s) && KernelFree(s) && Resolves(frames, maps) && FreshPages(s, frames, PlanTargets(maps))
    ensures forall i :: IsGrafted(ReplacePages(s, frames, PlanTargets(maps)).0, i) <==> i in Indices(PlanTargets(maps))
  {
    hide Inv, ReplacePages, FreshPages;
    var pages := PlanTargets(maps);
    ReplacedInFull(s, frames, pages);
    var t, indices := ReplacePages(s, frames, pages).0, Indices(pages);
    forall i ensures IsGrafted(t, i) <==> i in indices {
      if i in indices {
        var k :| 0 <= k < |indices| && indices[k] == i;
        assert pages[k].0 == i;
      } else {
        forall k | 0 <= k < |pages| ensures pages[k].0 != i {
          assert indices[k] in indices;
        }
        assert !IsGrafted(s, i);
      }
    }
  }
}
