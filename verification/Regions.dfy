/** The regions of a sparse DSO: the pages of its symbols, merged where they touch. */
module Regions {
  import opened Alignment
  import opened Options
  import opened Sorting

  datatype Span = Span(start: nat, end: nat)

  datatype Region = Region(name: string, start: nat, end: nat) {
    function Size(): int { end - start }
  }

  predicate Holds(s: Span, x: nat) { s.start <= x < s.end }

  ghost predicate Covered(spans: seq<Span>, x: nat) {
    exists s :: s in spans && Holds(s, x)
  }

  /** Whole pages, at least one. */
  predicate WholePages(s: Span) { PageAligned(s.start) && PageAligned(s.end) && s.start < s.end }

  // ---------------------------------------------------------------------------------------------
  // The pages of a symbol or of an extra range

  function PagesOf(s: Span): Span {
    var start, end := AlignDown(s.start, PAGE), AlignUp(s.end, PAGE);
    Span(start, if end == start then end + PAGE else end)
  }

  /** What is used of a range, empty ranges counting as one byte. */
  ghost predicate Uses(s: Span, y: nat) { s.start <= y && (y < s.end || y == s.start) }

  /** The pages are exactly those that the range touches. */
  lemma PagesTouched(s: Span, x: nat)
    requires s.start <= s.end
    ensures WholePages(PagesOf(s))
    ensures Holds(PagesOf(s), x) <==> exists y: nat :: Uses(s, y) && y / PAGE == x / PAGE
  {
    hide AlignUp, AlignDown;
    PageDown(s.start);
    PageUp(s.end);
    var p := PagesOf(s);
    assert Holds(p, s.start);
    if Holds(p, x) {
      var y: nat := if x / PAGE == s.start / PAGE then s.start else x - x % PAGE;
      assert y / PAGE == x / PAGE;
      if x / PAGE != s.start / PAGE {
        PageStartInside(s, p, x);
      }
      assert Uses(s, y);
    }
    if exists y: nat :: Uses(s, y) && y / PAGE == x / PAGE {
      var y: nat :| Uses(s, y) && y / PAGE == x / PAGE;
      SamePage(p, y, x);
    }
  }

  lemma PageStartInside(s: Span, p: Span, x: nat)
    requires s.start <= s.end && p.start == s.start - s.start % PAGE && PageAligned(p.end) && s.end <= p.end
    requires p.end < s.end + PAGE || p.end == p.start + PAGE
    requires Holds(p, x) && x / PAGE != s.start / PAGE
    ensures Uses(s, x - x % PAGE)
  {
    var y := x - x % PAGE;
    assert PageAligned(y) && PageAligned(p.start) && y >= p.start + PAGE;
    assert y + PAGE <= p.end;
  }

  lemma SamePage(p: Span, y: nat, x: nat)
    requires PageAligned(p.start) && PageAligned(p.end) && Holds(p, y) && y / PAGE == x / PAGE
    ensures Holds(p, x)
  {
  }

  // ---------------------------------------------------------------------------------------------
  // Merging

  ghost predicate Ordered(spans: seq<Span>) {
    forall j, k :: 0 <= j < k < |spans| ==> spans[j].start <= spans[k].start
  }

  /** Apart from each other, not even touching. */
  ghost predicate Apart(spans: seq<Span>) {
    forall j, k :: 0 <= j < k < |spans| ==> spans[j].end < spans[k].start
  }

  ghost predicate AllWhole(spans: seq<Span>) {
    forall s :: s in spans ==> WholePages(s)
  }

  /** One more interval, merged into the last one where it reaches it. */
  function MergeOne(merged: seq<Span>, s: Span): seq<Span> {
    if merged == [] || s.start > merged[|merged| - 1].end then merged + [s]
    else
      var last := merged[|merged| - 1];
      merged[|merged| - 1 := Span(last.start, if s.end > last.end then s.end else last.end)]
  }

  lemma MergedOne(merged: seq<Span>, s: Span)
    requires AllWhole(merged) && Apart(merged) && WholePages(s)
    requires forall k :: 0 <= k < |merged| ==> merged[k].start <= s.start
    ensures AllWhole(MergeOne(merged, s)) && Apart(MergeOne(merged, s))
    ensures forall k :: 0 <= k < |MergeOne(merged, s)| ==> MergeOne(merged, s)[k].start <= s.start
    ensures forall x: nat :: Covered(MergeOne(merged, s), x) <==> Covered(merged, x) || Holds(s, x)
  {
    hide WholePages;
    var more := MergeOne(merged, s);
    WholeBounds(s);
    forall k | 0 <= k < |merged| ensures WholePages(merged[k]) && merged[k].start < merged[k].end {
      assert merged[k] in merged;
      WholeBounds(merged[k]);
    }
    if merged == [] || s.start > merged[|merged| - 1].end {
      assert forall x: nat :: Covered(more, x) <==> Covered(merged, x) || Holds(s, x);
    } else {
      var n := |merged| - 1;
      WholeJoined(merged[n], s);
      forall x: nat ensures Covered(more, x) <==> Covered(merged, x) || Holds(s, x) {
        MergedCovers(merged, s, x);
      }
    }
  }

  lemma WholeBounds(s: Span)
    requires WholePages(s)
    ensures s.start < s.end
  {
  }

  lemma WholeJoined(last: Span, s: Span)
    requires WholePages(last) && WholePages(s)
    ensures WholePages(Span(last.start, if s.end > last.end then s.end else last.end))
  {
  }

  lemma MergedCovers(merged: seq<Span>, s: Span, x: nat)
    requires merged != [] && s.start <= merged[|merged| - 1].end && merged[|merged| - 1].start <= s.start
    ensures Covered(MergeOne(merged, s), x) <==> Covered(merged, x) || Holds(s, x)
  {
    var n := |merged| - 1;
    var more := MergeOne(merged, s);
    assert more[n] in more && merged[n] in merged;
    if Covered(merged, x) {
      var t :| t in merged && Holds(t, x);
      var k :| 0 <= k < |merged| && merged[k] == t;
      assert more[k] in more;
      assert Holds(more[k], x);
    }
    if Covered(more, x) {
      var t :| t in more && Holds(t, x);
      var k :| 0 <= k < |more| && more[k] == t;
      assert merged[k] in merged;
      if k < n {
        assert Holds(merged[k], x);
      }
    }
  }

  method Merge(intervals: seq<Span>) returns (merged: seq<Span>)
    requires AllWhole(intervals) && Ordered(intervals)
    ensures AllWhole(merged) && Apart(merged)
    ensures forall x: nat :: Covered(merged, x) <==> Covered(intervals, x)
  {
    hide WholePages, Holds;
    merged := [];
    for k := 0 to |intervals|
      invariant AllWhole(merged) && Apart(merged)
      invariant forall j :: 0 <= j < |merged| && k > 0 ==> merged[j].start <= intervals[k - 1].start
      invariant k == 0 ==> merged == []
      invariant forall x: nat :: Covered(merged, x) <==> Covered(intervals[..k], x)
    {
      var s := intervals[k];
      assert s in intervals;
      MergedOne(merged, s);
      forall x: nat ensures Covered(intervals[..k + 1], x) <==> Covered(intervals[..k], x) || Holds(s, x) {
        assert intervals[..k + 1] == intervals[..k] + [s];
      }
      if merged == [] || s.start > merged[|merged| - 1].end {
        merged := merged + [s];
      } else {
        var last := merged[|merged| - 1];
        merged := merged[|merged| - 1 := Span(last.start, if s.end > last.end then s.end else last.end)];
      }
    }
    assert intervals[..|intervals|] == intervals;
  }

  // ---------------------------------------------------------------------------------------------
  // Names

  function Digit(d: nat): (c: char)
    requires d < 10
  {
    (d + 0x30) as char
  }

  function Decimal(n: nat): string {
    if n < 10 then [Digit(n)] else Decimal(n / 10) + [Digit(n % 10)]
  }

  lemma {:induction false} DecimalInjective(m: nat, n: nat)
    requires Decimal(m) == Decimal(n)
    ensures m == n
  {
    var a, b := Decimal(m), Decimal(n);
    DecimalLength(m);
    DecimalLength(n);
    assert a[|a| - 1] == Digit(m % 10) && b[|b| - 1] == Digit(n % 10);
    if m >= 10 && n >= 10 {
      assert a[..|a| - 1] == Decimal(m / 10) && b[..|b| - 1] == Decimal(n / 10);
      DecimalInjective(m / 10, n / 10);
    }
  }

  lemma {:induction false} DecimalLength(n: nat)
    ensures |Decimal(n)| >= 1 && (|Decimal(n)| == 1 <==> n < 10)
  {
    if n >= 10 { DecimalLength(n / 10); }
  }

  /** The name of region `k` of `n`. */
  function NameOf(base: string, n: nat, k: nat): string { if n == 1 then base else base + Decimal(k + 1) }

  lemma NamesDistinct(base: string, n: nat, j: nat, k: nat)
    requires j < n && k < n && NameOf(base, n, j) == NameOf(base, n, k)
    ensures j == k
  {
    if n != 1 {
      var a, b := NameOf(base, n, j), NameOf(base, n, k);
      assert a[|base|..] == Decimal(j + 1) && b[|base|..] == Decimal(k + 1);
      DecimalInjective(j + 1, k + 1);
    }
  }

  // ---------------------------------------------------------------------------------------------
  // Building regions

  /** A single region has the name itself, several have it with their numbers from 1. */
  ghost predicate Named(regions: seq<Region>, base: string) {
    forall k :: 0 <= k < |regions| ==> regions[k].name == if |regions| == 1 then base else base + Decimal(k + 1)
  }

  /** The regions: apart, whole pages, in order, named, and holding exactly the pages that are touched. */
  ghost predicate AreRegions(regions: seq<Region>, base: string, used: seq<Span>) {
    && (forall k :: 0 <= k < |regions| ==> WholePages(Span(regions[k].start, regions[k].end)))
    && (forall j, k :: 0 <= j < k < |regions| ==> regions[j].end < regions[k].start)
    && Named(regions, base)
    && (forall x: nat :: InRegion(regions, x) <==> Touched(used, x))
  }

  ghost predicate InRegion(regions: seq<Region>, x: nat) {
    exists k :: 0 <= k < |regions| && regions[k].start <= x < regions[k].end
  }

  /** `x` is on a page of one of the ranges. */
  ghost predicate Touched(used: seq<Span>, x: nat) {
    exists s :: s in used && OnPageOf(s, x)
  }

  ghost predicate OnPageOf(s: Span, x: nat) {
    exists y: nat :: Uses(s, y) && y / PAGE == x / PAGE
  }

  /** The intervals of `_build_regions`, unsorted. */
  method Intervals(used: seq<Span>) returns (intervals: seq<Span>)
    requires forall s :: s in used ==> s.start <= s.end
    ensures AllWhole(intervals)
    ensures forall x: nat :: Covered(intervals, x) <==> Touched(used, x)
  {
    hide WholePages, Holds, OnPageOf, PagesOf;
    intervals := [];
    for k := 0 to |used|
      invariant AllWhole(intervals)
      invariant forall x: nat :: Covered(intervals, x) <==> Touched(used[..k], x)
    {
      var s := used[k];
      assert s in used;
      ghost var before := intervals;
      intervals := intervals + [PagesOf(s)];
      forall x: nat ensures WholePages(PagesOf(s)) && (Holds(PagesOf(s), x) <==> OnPageOf(s, x)) {
        OnPages(s, x);
      }
      OnPages(s, 0);
      forall x: nat ensures Covered(intervals, x) <==> Covered(before, x) || Holds(PagesOf(s), x) {
      }
      forall x: nat ensures Touched(used[..k + 1], x) <==> Touched(used[..k], x) || OnPageOf(s, x) {
        assert used[..k + 1] == used[..k] + [s];
      }
    }
    assert used[..|used|] == used;
  }

  lemma OnPages(s: Span, x: nat)
    requires s.start <= s.end
    ensures WholePages(PagesOf(s)) && (Holds(PagesOf(s), x) <==> OnPageOf(s, x))
  {
    PagesTouched(s, x);
  }

  /** `_build_regions`. */
  method BuildRegions(used: seq<Span>, base: string) returns (regions: seq<Region>)
    requires forall s :: s in used ==> s.start <= s.end
    ensures AreRegions(regions, base, used)
  {
    hide WholePages, Holds, KeyLe, Decimal, Touched;
    var intervals := Intervals(used);
    var sorted := SortBy(intervals, (s: Span) => [s.start, s.end]);
    SameElements(sorted, intervals);
    forall j, k | 0 <= j < k < |sorted| ensures sorted[j].start <= sorted[k].start {
      FirstKey(sorted[j], sorted[k]);
    }
    forall x: nat ensures Covered(sorted, x) <==> Covered(intervals, x) {
    }
    var merged := Merge(sorted);
    regions := [];
    for k := 0 to |merged|
      invariant |regions| == k
      invariant forall j :: 0 <= j < k ==> regions[j] == Region(NameOf(base, |merged|, j), merged[j].start, merged[j].end)
    {
      regions := regions + [Region(NameOf(base, |merged|, k), merged[k].start, merged[k].end)];
    }
    assert forall k :: 0 <= k < |merged| ==> merged[k] in merged;
    forall x: nat ensures InRegion(regions, x) <==> Covered(merged, x) {
      CoveredIsInRegion(regions, merged, x);
    }
  }

  lemma FirstKey(a: Span, b: Span)
    requires KeyLe([a.start, a.end], [b.start, b.end])
    ensures a.start <= b.start
  {
  }

  lemma CoveredIsInRegion(regions: seq<Region>, merged: seq<Span>, x: nat)
    requires |regions| == |merged|
    requires forall j :: 0 <= j < |merged| ==> regions[j].start == merged[j].start && regions[j].end == merged[j].end
    ensures InRegion(regions, x) <==> Covered(merged, x)
  {
    if InRegion(regions, x) {
      var k :| 0 <= k < |regions| && regions[k].start <= x < regions[k].end;
      assert merged[k] in merged && Holds(merged[k], x);
    }
  }

  /** `_find_region_for_address`: there is at most one. */
  method FindRegion(regions: seq<Region>, address: nat) returns (found: Option<nat>)
    ensures found == None <==> !InRegion(regions, address)
    ensures found.Some? ==> found.value < |regions| && regions[found.value].start <= address < regions[found.value].end
  {
    for k := 0 to |regions|
      invariant forall j :: 0 <= j < k ==> !(regions[j].start <= address < regions[j].end)
    {
      if regions[k].start <= address < regions[k].end {
        return Some(k);
      }
    }
    found := None;
  }
}
