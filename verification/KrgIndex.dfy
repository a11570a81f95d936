/**
 The address index of the dependency-graph builder: the table of function ranges, the binary search on it, and the groups
 of functions that start at the same address.
 */
module KrgIndex {
  import opened Options
  import opened Sorting

  /** `BuildSym`: kind 0 is code, 1 data; `primary` marks named functions; `origin` is the input file. */
  datatype Symbol = Symbol(name: string, addr: nat, size: nat, kind: nat, section: nat, defined: bool, primary: bool,
                           origin: nat)

  datatype Section = Section(addr: nat, size: nat, origin: nat)

  datatype Range = Range(start: nat, end: nat, id: nat)

  const MAX_SPAN: nat := 0x8000_0000

  predicate IsEntry(syms: seq<Symbol>, secs: seq<Section>, i: int) {
    0 <= i < |syms| && syms[i].defined && syms[i].kind == 0 && syms[i].primary && syms[i].section < |secs|
  }

  /** Where the extent of a function at `cur` ends, the next function of its section starting at `next`. */
  function Span(cur: nat, next: nat): (span: nat)
    ensures span >= 1
  {
    if next > cur && next - cur < MAX_SPAN then next - cur else 1
  }

  /** The next start behind `cur` among the functions of a section, or the end of the section. */
  ghost predicate IsNext(syms: seq<Symbol>, secs: seq<Section>, sid: nat, cur: nat, next: nat)
    requires sid < |secs|
  {
    && (next == secs[sid].addr + secs[sid].size
        || exists i :: IsEntry(syms, secs, i) && syms[i].section == sid && syms[i].addr == next && next > cur)
    && (forall i :: IsEntry(syms, secs, i) && syms[i].section == sid && syms[i].addr > cur ==> next <= syms[i].addr)
  }

  /** A range as the table has it: from a function to the next one of its section. */
  ghost predicate IsExtent(syms: seq<Symbol>, secs: seq<Section>, r: Range) {
    && IsEntry(syms, secs, r.id) && r.start == syms[r.id].addr
    && exists next: nat :: IsNext(syms, secs, syms[r.id].section, r.start, next)
                      && r.end == if r.start < next < r.start + 0x8000_0000 then next else r.start + 1
  }

  ghost predicate SortedRanges(t: seq<Range>) {
    forall j, k :: 0 <= j < k < |t| ==> t[j].start <= t[k].start
  }

  /** Every function has its range, and there is nothing else in the table. */
  ghost predicate IsTable(syms: seq<Symbol>, secs: seq<Section>, t: seq<Range>) {
    && SortedRanges(t)
    && (forall r :: r in t ==> IsExtent(syms, secs, r))
    && (forall i :: IsEntry(syms, secs, i) ==> exists r :: r in t && r.id == i)
  }

  ghost predicate StartsAt(syms: seq<Symbol>, secs: seq<Section>, lo: nat, hi: nat, cur: nat, i: int) {
    IsEntry(syms, secs, i) && lo <= syms[i].section < hi && syms[i].addr == cur
  }

  ghost predicate Aliases(syms: seq<Symbol>, secs: seq<Section>, lo: nat, hi: nat, i: int, j: int) {
    && i != j && IsEntry(syms, secs, i)
    && StartsAt(syms, secs, lo, hi, syms[i].addr, i) && StartsAt(syms, secs, lo, hi, syms[i].addr, j)
  }

  /** All functions of the given sections that start at `cur`. */
  ghost predicate IsGroup(syms: seq<Symbol>, secs: seq<Section>, lo: nat, hi: nat, cur: nat, group: seq<nat>) {
    group != [] && forall i: nat :: i in group <==> StartsAt(syms, secs, lo, hi, cur, i)
  }

  /** Two functions with the same start have a group, and every group is complete. */
  ghost predicate IsGroups(syms: seq<Symbol>, secs: seq<Section>, lo: nat, hi: nat, groups: map<nat, seq<nat>>) {
    && (forall cur :: cur in groups ==> IsGroup(syms, secs, lo, hi, cur, groups[cur]))
    && (forall i: nat, j: nat :: Aliases(syms, secs, lo, hi, i, j) ==> syms[i].addr in groups)
  }

  /**
   Sections that hold functions do not overlap, and functions start inside theirs or, as the label at the end of a section
   does, right behind it. Sections without functions, debugging information at address 0 for one, may lie anywhere.
   */
  ghost predicate Placed(syms: seq<Symbol>, secs: seq<Section>) {
    && (forall i, j :: IsEntry(syms, secs, i) && IsEntry(syms, secs, j) && syms[i].section != syms[j].section ==>
          Apart(secs[syms[i].section], secs[syms[j].section]))
    && (forall i :: IsEntry(syms, secs, i) ==>
          var s := secs[syms[i].section]; s.addr <= syms[i].addr <= s.addr + s.size)
  }

  predicate Apart(s: Section, t: Section) { s.addr + s.size <= t.addr || t.addr + t.size <= s.addr }

  /** Functions of two sections at one address: the label at the end of a section and the start of the next one. */
  predicate Clash(syms: seq<Symbol>, secs: seq<Section>, i: int, j: int) {
    IsEntry(syms, secs, i) && IsEntry(syms, secs, j) && syms[i].section != syms[j].section && syms[i].addr == syms[j].addr
  }

  ghost predicate WellPlaced(syms: seq<Symbol>, secs: seq<Section>) {
    Placed(syms, secs) && forall i, j :: !Clash(syms, secs, i, j)
  }

  ghost predicate InGroup(groups: map<nat, seq<nat>>, cur: nat, u: nat) { cur in groups && u in groups[cur] }

  /** Groups list functions by their own address. */
  ghost predicate Listed(syms: seq<Symbol>, groups: map<nat, seq<nat>>) {
    forall cur, u: nat :: InGroup(groups, cur, u) ==> u < |syms| && syms[u].addr == cur
  }

  // ---------------------------------------------------------------------------------------------
  // Building the table

  /** The functions of one section, in address order. */
  ghost predicate IsSectionOrder(syms: seq<Symbol>, secs: seq<Section>, sid: nat, ids: seq<nat>) {
    && (forall i: nat :: i in ids <==> IsEntry(syms, secs, i) && syms[i].section == sid)
    && (forall j :: 0 <= j < |ids| ==> ids[j] < |syms| && IsEntry(syms, secs, ids[j]) && syms[ids[j]].section == sid)
    && (forall j, k :: 0 <= j < k < |ids| && ids[j] < |syms| && ids[k] < |syms| ==> syms[ids[j]].addr <= syms[ids[k]].addr)
  }

  method SectionFunctions(syms: seq<Symbol>, secs: seq<Section>, sid: nat) returns (ids: seq<nat>)
    ensures IsSectionOrder(syms, secs, sid, ids)
  {
    var found: seq<nat> := [];
    for i := 0 to |syms|
      invariant forall j: nat :: j in found <==> j < i && IsEntry(syms, secs, j) && syms[j].section == sid
    {
      if syms[i].defined && syms[i].kind == 0 && syms[i].primary && syms[i].section < |secs| && syms[i].section == sid {
        found := found + [i];
      }
    }
    ids := SortBy(found, (i: nat) => if i < |syms| then [syms[i].addr] else []);
    SameElements(ids, found);
    forall j | 0 <= j < |ids| ensures IsEntry(syms, secs, ids[j]) && syms[ids[j]].section == sid {
      assert ids[j] in ids;
    }
    forall j, k | 0 <= j < k < |ids|
      ensures ids[j] < |syms| && ids[k] < |syms| && syms[ids[j]].addr <= syms[ids[k]].addr
    {
      assert IsEntry(syms, secs, ids[j]) && IsEntry(syms, secs, ids[k]);
      assert KeyLe([syms[ids[j]].addr], [syms[ids[k]].addr]);
    }
  }

  /** The first `k` functions of the section have their ranges. */
  ghost predicate RangesUpTo(syms: seq<Symbol>, secs: seq<Section>, vec: seq<nat>, k: nat, t: seq<Range>)
    requires k <= |vec|
  {
    && (forall r :: r in t ==> IsExtent(syms, secs, r))
    && (forall j :: 0 <= j < k ==> exists r :: r in t && r.id == vec[j])
  }

  /** Equal starts among the first `k` functions of the section are in a group. */
  ghost predicate GroupsUpTo(syms: seq<Symbol>, secs: seq<Section>, sid: nat, vec: seq<nat>, k: nat,
                             groups: map<nat, seq<nat>>)
    requires k <= |vec| && IsSectionOrder(syms, secs, sid, vec)
  {
    && (forall cur :: cur in groups ==> IsGroup(syms, secs, sid, sid + 1, cur, groups[cur]))
    && (forall i, j :: 0 <= i < j < k && syms[vec[i]].addr == syms[vec[j]].addr ==> syms[vec[i]].addr in groups)
  }

  /** The ranges and the groups of one section, run by run of functions with the same start. */
  method SectionRanges(syms: seq<Symbol>, secs: seq<Section>, sid: nat)
    returns (t: seq<Range>, groups: map<nat, seq<nat>>)
    requires sid < |secs|
    ensures forall r :: r in t ==> IsExtent(syms, secs, r)
    ensures forall i :: IsEntry(syms, secs, i) && syms[i].section == sid ==> exists r :: r in t && r.id == i
    ensures IsGroups(syms, secs, sid, sid + 1, groups)
  {
    hide RangesUpTo, GroupsUpTo, IsExtent, IsGroups, IsNext;
    var vec := SectionFunctions(syms, secs, sid);
    var secEnd := secs[sid].addr + secs[sid].size;
    t, groups := [], map[];
    NothingYet(syms, secs, sid, vec);
    var k := 0;
    while k < |vec|
      invariant k <= |vec| && (0 < k < |vec| ==> syms[vec[k - 1]].addr < syms[vec[k]].addr)
      invariant RangesUpTo(syms, secs, vec, k, t) && GroupsUpTo(syms, secs, sid, vec, k, groups)
    {
      var cur := syms[vec[k]].addr;
      var k2 := k + 1;
      while k2 < |vec| && syms[vec[k2]].addr == cur
        invariant k < k2 <= |vec| && forall j :: k <= j < k2 ==> syms[vec[j]].addr == cur
      {
        k2 := k2 + 1;
      }
      var next := if k2 < |vec| then syms[vec[k2]].addr else secEnd;
      NextFound(syms, secs, sid, vec, k2, cur, next);
      t := PushGroup(syms, secs, sid, vec, k, k2, next, t);
      MoreGroups(syms, secs, sid, vec, k, k2, groups);
      if k2 - k > 1 {
        groups := groups[cur := vec[k..k2]];
      }
      k := k2;
    }
    AllDone(syms, secs, sid, vec, t, groups);
  }

  lemma NothingYet(syms: seq<Symbol>, secs: seq<Section>, sid: nat, vec: seq<nat>)
    requires IsSectionOrder(syms, secs, sid, vec)
    ensures RangesUpTo(syms, secs, vec, 0, []) && GroupsUpTo(syms, secs, sid, vec, 0, map[])
  {
  }

  /** In address order, a maximal run of equal addresses is all there is at that address. */
  lemma MoreGroups(syms: seq<Symbol>, secs: seq<Section>, sid: nat, vec: seq<nat>, k: nat, k2: nat,
                   groups: map<nat, seq<nat>>)
    requires k < k2 <= |vec| && IsSectionOrder(syms, secs, sid, vec)
    requires k > 0 ==> syms[vec[k - 1]].addr < syms[vec[k]].addr
    requires k2 < |vec| ==> syms[vec[k]].addr != syms[vec[k2]].addr
    requires forall j :: k <= j < k2 ==> syms[vec[j]].addr == syms[vec[k]].addr
    requires GroupsUpTo(syms, secs, sid, vec, k, groups)
    ensures GroupsUpTo(syms, secs, sid, vec, k2, if k2 - k > 1 then groups[syms[vec[k]].addr := vec[k..k2]] else groups)
  {
    hide IsGroup;
    var cur, run := syms[vec[k]].addr, vec[k..k2];
    RunIsGroup(syms, secs, sid, vec, k, k2);
    var after := if k2 - k > 1 then groups[cur := run] else groups;
    forall i, j | 0 <= i < j < k2 && syms[vec[i]].addr == syms[vec[j]].addr ensures syms[vec[i]].addr in after {
      assert i < k ==> syms[vec[i]].addr <= syms[vec[k - 1]].addr < cur;
    }
  }

  lemma RunIsGroup(syms: seq<Symbol>, secs: seq<Section>, sid: nat, vec: seq<nat>, k: nat, k2: nat)
    requires k < k2 <= |vec| && IsSectionOrder(syms, secs, sid, vec)
    requires k > 0 ==> syms[vec[k - 1]].addr < syms[vec[k]].addr
    requires k2 < |vec| ==> syms[vec[k]].addr != syms[vec[k2]].addr
    requires forall j :: k <= j < k2 ==> syms[vec[j]].addr == syms[vec[k]].addr
    ensures IsGroup(syms, secs, sid, sid + 1, syms[vec[k]].addr, vec[k..k2])
  {
    var cur, run := syms[vec[k]].addr, vec[k..k2];
    forall i: nat ensures i in run <==> StartsAt(syms, secs, sid, sid + 1, cur, i) {
      if StartsAt(syms, secs, sid, sid + 1, cur, i) {
        assert i in vec;
        var j :| 0 <= j < |vec| && vec[j] == i;
        assert k <= j < k2;
        assert run[j - k] == i;
      }
    }
  }

  lemma AllDone(syms: seq<Symbol>, secs: seq<Section>, sid: nat, vec: seq<nat>, t: seq<Range>, groups: map<nat, seq<nat>>)
    requires IsSectionOrder(syms, secs, sid, vec)
    requires RangesUpTo(syms, secs, vec, |vec|, t) && GroupsUpTo(syms, secs, sid, vec, |vec|, groups)
    ensures forall r :: r in t ==> IsExtent(syms, secs, r)
    ensures forall i :: IsEntry(syms, secs, i) && syms[i].section == sid ==> exists r :: r in t && r.id == i
    ensures IsGroups(syms, secs, sid, sid + 1, groups)
  {
    hide IsExtent;
    forall i: nat | IsEntry(syms, secs, i) && syms[i].section == sid ensures exists r :: r in t && r.id == i {
      assert i in vec;
      var j :| 0 <= j < |vec| && vec[j] == i;
    }
    var top := sid + 1;
    forall i: nat, j: nat | Aliases(syms, secs, sid, top, i, j) ensures syms[i].addr in groups {
      assert i in vec && j in vec;
      var a :| 0 <= a < |vec| && vec[a] == i;
      var b :| 0 <= b < |vec| && vec[b] == j;
      assert a < b || b < a;
    }
  }

  lemma NextFound(syms: seq<Symbol>, secs: seq<Section>, sid: nat, vec: seq<nat>, k: nat, cur: nat, next: nat)
    requires sid < |secs| && 0 < k <= |vec| && IsSectionOrder(syms, secs, sid, vec)
    requires syms[vec[k - 1]].addr == cur && (k < |vec| ==> syms[vec[k]].addr != cur)
    requires next == if k < |vec| then syms[vec[k]].addr else secs[sid].addr + secs[sid].size
    ensures IsNext(syms, secs, sid, cur, next)
  {
    assert forall j :: 0 <= j < k ==> syms[vec[j]].addr <= cur;
    if k < |vec| {
      assert vec[k] in vec;
      assert cur < next;
    }
    forall i: nat | IsEntry(syms, secs, i) && syms[i].section == sid && syms[i].addr > cur ensures next <= syms[i].addr {
      var j :| 0 <= j < |vec| && vec[j] == i;
      assert k <= j;
    }
  }

  /** Every function of a run gets the same range. */
  method PushGroup(syms: seq<Symbol>, secs: seq<Section>, sid: nat, vec: seq<nat>, k: nat, k2: nat, next: nat,
                   t0: seq<Range>)
    returns (t: seq<Range>)
    requires sid < |secs| && k < k2 <= |vec| && IsSectionOrder(syms, secs, sid, vec)
    requires forall j :: k <= j < k2 ==> syms[vec[j]].addr == syms[vec[k]].addr
    requires IsNext(syms, secs, sid, syms[vec[k]].addr, next) && RangesUpTo(syms, secs, vec, k, t0)
    ensures RangesUpTo(syms, secs, vec, k2, t)
  {
    hide IsNext;
    var cur := syms[vec[k]].addr;
    t := t0;
    for j := k to k2
      invariant RangesUpTo(syms, secs, vec, j, t)
    {
      var r := Range(cur, cur + Span(cur, next), vec[j]);
      assert IsExtent(syms, secs, r);
      ghost var before := t;
      t := t + [r];
      assert r in t && forall x :: x in before ==> x in t;
      forall i | 0 <= i < j ensures exists x :: x in t && x.id == vec[i] {
        var x :| x in before && x.id == vec[i];
        assert x in t;
      }
    }
  }

  /** `fun_ranges_`: all sections' ranges in order of their starts. */
  method BuildTable(syms: seq<Symbol>, secs: seq<Section>) returns (t: seq<Range>, groups: map<nat, seq<nat>>)
    ensures IsTable(syms, secs, t) && Listed(syms, groups)
    ensures forall i :: 0 <= i < |syms| ==>
              ((exists r :: r in t && r.id == i) <==>
                 syms[i].defined && syms[i].kind == 0 && syms[i].primary && syms[i].section < |secs|)
    ensures forall r :: r in t ==> r.id < |syms| && r.start == syms[r.id].addr
    ensures WellPlaced(syms, secs) ==> IsGroups(syms, secs, 0, |secs|, groups)
  {
    hide IsExtent, IsGroups, WellPlaced, Listed;
    var all := [];
    groups := map[];
    NoGroups(syms, secs);
    for sid := 0 to |secs|
      invariant Listed(syms, groups) && (WellPlaced(syms, secs) ==> IsGroups(syms, secs, 0, sid, groups))
      invariant forall r :: r in all ==> IsExtent(syms, secs, r)
      invariant forall i :: IsEntry(syms, secs, i) && syms[i].section < sid ==> exists r :: r in all && r.id == i
    {
      var part, partGroups := SectionRanges(syms, secs, sid);
      if WellPlaced(syms, secs) {
        MergeGroups(syms, secs, sid, groups, partGroups);
      }
      MergeListed(syms, secs, sid, groups, partGroups);
      groups := groups + partGroups;
      ghost var before := all;
      all := all + part;
      forall i | IsEntry(syms, secs, i) && syms[i].section < sid + 1 ensures exists r :: r in all && r.id == i {
        if syms[i].section < sid {
          var r :| r in before && r.id == i;
          assert r in all;
        } else {
          var r :| r in part && r.id == i;
          assert r in all;
        }
      }
    }
    t := SortBy(all, (r: Range) => [r.start]);
    SameElements(t, all);
    forall j, k | 0 <= j < k < |t| ensures t[j].start <= t[k].start {
      assert KeyLe([t[j].start], [t[k].start]);
    }
    forall i | IsEntry(syms, secs, i) ensures exists r :: r in t && r.id == i {
      var r :| r in all && r.id == i;
      assert r in t;
    }
    TableMeans(syms, secs, t);
  }

  /** In the table is every defined and primary function of a known section, at its own address, and nothing else. */
  lemma TableMeans(syms: seq<Symbol>, secs: seq<Section>, t: seq<Range>)
    requires IsTable(syms, secs, t)
    ensures forall i :: 0 <= i < |syms| ==>
              ((exists r :: r in t && r.id == i) <==>
                 syms[i].defined && syms[i].kind == 0 && syms[i].primary && syms[i].section < |secs|)
    ensures forall r :: r in t ==> r.id < |syms| && r.start == syms[r.id].addr
  {
    hide SortedRanges;
    forall r | r in t ensures IsEntry(syms, secs, r.id) && r.start == syms[r.id].addr {
      assert IsExtent(syms, secs, r);
    }
    forall i | 0 <= i < |syms|
      ensures (exists r :: r in t && r.id == i) <==>
                syms[i].defined && syms[i].kind == 0 && syms[i].primary && syms[i].section < |secs|
    {
      assert IsEntry(syms, secs, i) ==> exists r :: r in t && r.id == i;
      if r :| r in t && r.id == i {
        assert IsEntry(syms, secs, r.id);
      }
    }
  }

  lemma NoGroups(syms: seq<Symbol>, secs: seq<Section>)
    ensures IsGroups(syms, secs, 0, 0, map[]) && Listed(syms, map[])
  {
  }

  lemma MergeListed(syms: seq<Symbol>, secs: seq<Section>, sid: nat, g: map<nat, seq<nat>>, h: map<nat, seq<nat>>)
    requires Listed(syms, g) && IsGroups(syms, secs, sid, sid + 1, h)
    ensures Listed(syms, g + h)
  {
    var all, top := g + h, sid + 1;
    forall cur, u: nat | InGroup(all, cur, u) ensures u < |syms| && syms[u].addr == cur {
      if cur in h {
        assert IsGroup(syms, secs, sid, top, cur, h[cur]);
        assert StartsAt(syms, secs, sid, top, cur, u);
      } else {
        assert InGroup(g, cur, u);
      }
    }
  }

  /** Functions of different sections never start at the same address. */
  lemma MergeGroups(syms: seq<Symbol>, secs: seq<Section>, sid: nat, g: map<nat, seq<nat>>, h: map<nat, seq<nat>>)
    requires WellPlaced(syms, secs) && sid < |secs|
    requires IsGroups(syms, secs, 0, sid, g) && IsGroups(syms, secs, sid, sid + 1, h)
    ensures IsGroups(syms, secs, 0, sid + 1, g + h)
  {
    var all, top := g + h, sid + 1;
    forall cur | cur in all ensures IsGroup(syms, secs, 0, sid + 1, cur, all[cur]) {
      var lo, hi := if cur in h then sid else 0, if cur in h then sid + 1 else sid;
      assert IsGroup(syms, secs, lo, hi, cur, all[cur]);
      assert all[cur][0] in all[cur];
      forall i: nat | StartsAt(syms, secs, 0, top, cur, i) ensures lo <= syms[i].section < hi {
        SameSection(syms, secs, i, all[cur][0]);
      }
    }
    forall i: nat, j: nat | Aliases(syms, secs, 0, top, i, j) ensures syms[i].addr in all {
      SameSection(syms, secs, i, j);
      assert Aliases(syms, secs, 0, sid, i, j) || Aliases(syms, secs, sid, sid + 1, i, j);
    }
  }

  lemma SameSection(syms: seq<Symbol>, secs: seq<Section>, i: nat, j: nat)
    requires WellPlaced(syms, secs) && IsEntry(syms, secs, i) && IsEntry(syms, secs, j) && syms[i].addr == syms[j].addr
    ensures syms[i].section == syms[j].section
  {
    assert !Clash(syms, secs, i, j);
  }

  // ---------------------------------------------------------------------------------------------
  // Searching it

  predicate Covers(r: Range, addr: nat) { r.start <= addr < r.end }

  /** Two ranges of the table are the same extent or disjoint. */
  ghost predicate Separate(t: seq<Range>) {
    forall r, q :: r in t && q in t && r.start <= q.start ==> r.end <= q.start || (r.start == q.start && r.end == q.end)
  }

  /** The extent of a function is one byte, as that of a label at the end of its section is. */
  ghost predicate OneByte(syms: seq<Symbol>, secs: seq<Section>, i: int) {
    IsEntry(syms, secs, i) && IsExtent(syms, secs, Range(syms[i].addr, syms[i].addr + 1, i))
  }

  ghost predicate ClashesAreBytes(syms: seq<Symbol>, secs: seq<Section>) {
    forall i, j :: Clash(syms, secs, i, j) ==> OneByte(syms, secs, i) && OneByte(syms, secs, j)
  }

  /** Extents are separate exactly when no label at the end of a section shares its address with a longer function. */
  lemma ExtentsSeparate(syms: seq<Symbol>, secs: seq<Section>, t: seq<Range>)
    requires Placed(syms, secs) && IsTable(syms, secs, t)
    ensures Separate(t) <==> ClashesAreBytes(syms, secs)
  {
    hide IsExtent, Placed, SortedRanges;
    if ClashesAreBytes(syms, secs) {
      forall r, q | r in t && q in t && r.start <= q.start
        ensures r.end <= q.start || (r.start == q.start && r.end == q.end)
      {
        TwoExtents(syms, secs, r, q);
      }
    }
    if Separate(t) {
      forall i, j | Clash(syms, secs, i, j) ensures OneByte(syms, secs, i) && OneByte(syms, secs, j) {
        ClashIsByte(syms, secs, t, i, j);
      }
    }
  }

  lemma ClashIsByte(syms: seq<Symbol>, secs: seq<Section>, t: seq<Range>, i: int, j: int)
    requires Placed(syms, secs) && IsTable(syms, secs, t) && Separate(t) && Clash(syms, secs, i, j)
    ensures OneByte(syms, secs, i) && OneByte(syms, secs, j)
  {
    hide IsExtent, Placed, SortedRanges;
    var r :| r in t && r.id == i;
    var q :| q in t && q.id == j;
    ExtentStarts(syms, secs, r);
    ExtentStarts(syms, secs, q);
    OneIsLabel(syms, secs, r, q);
  }

  lemma ExtentStarts(syms: seq<Symbol>, secs: seq<Section>, r: Range)
    requires IsExtent(syms, secs, r)
    ensures IsEntry(syms, secs, r.id) && r.start == syms[r.id].addr && r.start < r.end
  {
  }

  /** Of two functions at one address but of different sections, one stands at the end of its section. */
  lemma OneIsLabel(syms: seq<Symbol>, secs: seq<Section>, r: Range, q: Range)
    requires Placed(syms, secs) && IsExtent(syms, secs, r) && IsExtent(syms, secs, q) && Clash(syms, secs, r.id, q.id)
    ensures r.end == r.start + 1 || q.end == q.start + 1
  {
    hide IsExtent;
    var s, t := secs[syms[r.id].section], secs[syms[q.id].section];
    assert Apart(s, t);
    ExtentStarts(syms, secs, r);
    ExtentStarts(syms, secs, q);
    WithinSection(syms, secs, r);
    WithinSection(syms, secs, q);
  }

  lemma TwoExtents(syms: seq<Symbol>, secs: seq<Section>, r: Range, q: Range)
    requires Placed(syms, secs) && IsExtent(syms, secs, r) && IsExtent(syms, secs, q) && r.start <= q.start
    requires Clash(syms, secs, r.id, q.id) ==> OneByte(syms, secs, r.id) && OneByte(syms, secs, q.id)
    ensures r.end <= q.start || (r.start == q.start && r.end == q.end)
  {
    hide IsExtent;
    ExtentStarts(syms, secs, r);
    ExtentStarts(syms, secs, q);
    WithinSection(syms, secs, r);
    if syms[r.id].section == syms[q.id].section {
      InOneSection(syms, secs, r, q);
    } else if r.start == q.start {
      InOneSection(syms, secs, r, Range(r.start, r.start + 1, r.id));
      InOneSection(syms, secs, q, Range(q.start, q.start + 1, q.id));
    } else {
      assert Apart(secs[syms[r.id].section], secs[syms[q.id].section]);
    }
  }

  /** An extent ends with its section, unless it is that of a label at the end. */
  lemma WithinSection(syms: seq<Symbol>, secs: seq<Section>, r: Range)
    requires Placed(syms, secs) && IsExtent(syms, secs, r)
    ensures var s := secs[syms[r.id].section];
            r.end <= s.addr + s.size || (r.start == s.addr + s.size && r.end == r.start + 1)
  {
  }

  lemma InOneSection(syms: seq<Symbol>, secs: seq<Section>, r: Range, q: Range)
    requires Placed(syms, secs) && IsExtent(syms, secs, r) && IsExtent(syms, secs, q) && r.start <= q.start
    requires syms[r.id].section == syms[q.id].section
    ensures r.end <= q.start || (r.start == q.start && r.end == q.end)
  {
    var sid := syms[r.id].section;
    var n: nat :| IsNext(syms, secs, sid, r.start, n)
                  && r.end == if r.start < n < r.start + 0x8000_0000 then n else r.start + 1;
    var m: nat :| IsNext(syms, secs, sid, q.start, m)
                  && q.end == if q.start < m < q.start + 0x8000_0000 then m else q.start + 1;
    if r.start == q.start {
      SameNext(syms, secs, sid, r.start, n, m);
    }
  }

  lemma SameNext(syms: seq<Symbol>, secs: seq<Section>, sid: nat, cur: nat, n: nat, m: nat)
    requires sid < |secs| && IsNext(syms, secs, sid, cur, n) && IsNext(syms, secs, sid, cur, m)
    requires Placed(syms, secs)
    ensures n == m
  {
    var end := secs[sid].addr + secs[sid].size;
    if n != end {
      var i :| IsEntry(syms, secs, i) && syms[i].section == sid && syms[i].addr == n && n > cur;
      assert m <= n;
    }
    if m != end {
      var i :| IsEntry(syms, secs, i) && syms[i].section == sid && syms[i].addr == m && m > cur;
      assert n <= m;
    }
  }

  /** The function at an address: the last range that starts at or below it, if that covers it. */
  method TargetFuncByAddr(t: seq<Range>, addr: nat) returns (r: Option<nat>)
    requires SortedRanges(t)
    ensures r == LastBelow(t, addr)
    ensures Separate(t) ==> r == ScanForLast(t, addr)
  {
    hide ScanForLast, Separate;
    var lo, hi, ans := 0, |t| - 1, -1;
    while lo <= hi
      invariant 0 <= lo <= |t| && -1 <= hi < |t| && lo <= hi + 1 && ans == lo - 1
      invariant forall j :: 0 <= j < lo ==> t[j].start <= addr
      invariant forall j :: hi < j < |t| ==> addr < t[j].start
    {
      var mid := (lo + hi) / 2;
      if addr < t[mid].start {
        hi := mid - 1;
      } else {
        ans := mid;
        lo := mid + 1;
      }
    }
    LastBelowAt(t, addr, lo);
    if Separate(t) {
      LastCovers(t, addr, lo);
    }
    if ans >= 0 && Covers(t[ans], addr) {
      r := Some(t[ans].id);
    } else {
      r := None;
    }
  }

  /** Of all ranges that start at or below the address, the last one, if it covers the address. */
  function LastBelow(t: seq<Range>, addr: nat): Option<nat> {
    if t == [] then None
    else if t[|t| - 1].start > addr then LastBelow(t[..|t| - 1], addr)
    else if Covers(t[|t| - 1], addr) then Some(t[|t| - 1].id)
    else None
  }

  lemma {:induction false} LastBelowAt(t: seq<Range>, addr: nat, n: nat)
    requires n <= |t| && (n > 0 ==> t[n - 1].start <= addr) && forall j :: n <= j < |t| ==> addr < t[j].start
    ensures LastBelow(t, addr) == if n > 0 && Covers(t[n - 1], addr) then Some(t[n - 1].id) else None
  {
    if n < |t| {
      LastBelowAt(t[..|t| - 1], addr, n);
    }
  }

  /** The linear scan: of all ranges that cover the address, the last one. */
  function ScanForLast(t: seq<Range>, addr: nat): Option<nat> {
    if t == [] then None
    else if Covers(t[|t| - 1], addr) then Some(t[|t| - 1].id)
    else ScanForLast(t[..|t| - 1], addr)
  }

  /** What starts above the address does not count, and below it only the last range can cover it. */
  lemma {:induction false} LastCovers(t: seq<Range>, addr: nat, n: nat)
    requires SortedRanges(t) && Separate(t) && n <= |t|
    requires (forall j :: 0 <= j < n ==> t[j].start <= addr) && (forall j :: n <= j < |t| ==> addr < t[j].start)
    ensures ScanForLast(t, addr) == if n > 0 && Covers(t[n - 1], addr) then Some(t[n - 1].id) else None
  {
    if n < |t| {
      LastCovers(t[..|t| - 1], addr, n);
    } else if t != [] && !Covers(t[n - 1], addr) {
      NoneBelow(t, addr);
      NothingCovers(t, addr);
    }
  }

  lemma NoneBelow(t: seq<Range>, addr: nat)
    requires SortedRanges(t) && Separate(t) && t != [] && t[|t| - 1].start <= addr && !Covers(t[|t| - 1], addr)
    ensures forall r :: r in t ==> !Covers(r, addr)
  {
    var last := t[|t| - 1];
    forall r | r in t ensures !Covers(r, addr) {
      assert last in t && r.start <= last.start;
    }
  }

  lemma {:induction false} NothingCovers(t: seq<Range>, addr: nat)
    requires forall r :: r in t ==> !Covers(r, addr)
    ensures ScanForLast(t, addr).None?
  {
    if t != [] {
      assert t[|t| - 1] in t;
      NothingCovers(t[..|t| - 1], addr);
    }
  }

  lemma {:induction false} ScanMeaning(t: seq<Range>, addr: nat)
    ensures ScanForLast(t, addr).Some? ==> exists r :: r in t && Covers(r, addr) && r.id == ScanForLast(t, addr).value
    ensures ScanForLast(t, addr).None? ==> forall r :: r in t ==> !Covers(r, addr)
  {
    if t != [] {
      var init := t[..|t| - 1];
      assert t == init + [t[|t| - 1]];
      assert t[|t| - 1] in t;
      if !Covers(t[|t| - 1], addr) {
        ScanMeaning(init, addr);
      }
    }
  }

  /** All addresses of one extent give the same answer. */
  lemma {:induction false} ScanStable(t: seq<Range>, r: Range, a: nat, b: nat)
    requires Separate(t) && r in t && Covers(r, a) && Covers(r, b)
    ensures ScanForLast(t, a) == ScanForLast(t, b)
  {
    var last, init := t[|t| - 1], t[..|t| - 1];
    assert last in t;
    assert r.start <= last.start || last.start <= r.start;
    assert Covers(last, a) <==> Covers(last, b);
    if !Covers(last, a) {
      assert r in init;
      ScanStable(init, r, a, b);
    }
  }

  /**
   The index is right: the search returns a function whose extent holds the address exactly when there is one, and the same
   function for every address of the extent.
   */
  lemma IndexRight(syms: seq<Symbol>, secs: seq<Section>, t: seq<Range>, addr: nat)
    requires Placed(syms, secs) && ClashesAreBytes(syms, secs) && IsTable(syms, secs, t)
    ensures SortedRanges(t) && Separate(t)
    ensures ScanForLast(t, addr).Some? <==> exists r :: IsExtent(syms, secs, r) && r.start <= addr < r.end
    ensures ScanForLast(t, addr).Some? ==>
              exists r :: r in t && r.start <= addr < r.end && r.id == ScanForLast(t, addr).value
    ensures forall r, b :: r in t && r.start <= addr < r.end && r.start <= b < r.end ==>
              ScanForLast(t, b) == ScanForLast(t, addr)
  {
    hide IsExtent;
    ExtentsSeparate(syms, secs, t);
    ScanMeaning(t, addr);
    if r :| IsExtent(syms, secs, r) && r.start <= addr < r.end {
      ExtentStarts(syms, secs, r);
      var q :| q in t && q.id == r.id;
      ExtentStarts(syms, secs, q);
      InOneSection(syms, secs, r, q);
      assert Covers(q, addr);
    }
    forall r, b | r in t && r.start <= addr < r.end && r.start <= b < r.end
      ensures ScanForLast(t, b) == ScanForLast(t, addr)
    {
      ScanStable(t, r, addr, b);
    }
  }

  /**
   A function that shares its start with the label at the end of the section before is found behind its first byte exactly
   when its range, and not the label's, stands last among the equal starts; the sort leaves that open.
   */
  lemma {:induction false} BehindLabel(t: seq<Range>, k: nat, r: Range, addr: nat)
    requires SortedRanges(t) && k < |t| && r in t && t[k].start == r.start && Covers(r, addr) && addr > r.start
    requires forall j :: k < j < |t| ==> addr < t[j].start
    requires t[k].end == t[k].start + 1 || t[k].end == r.end
    ensures LastBelow(t, addr) == if t[k].end == r.end then Some(t[k].id) else None
  {
    LastBelowAt(t, addr, k + 1);
  }

  /** So one input has two tables, both in order, and the search answers from one of them only. */
  lemma SortDecides()
    ensures exists syms, secs, t, u ::
              && Placed(syms, secs) && IsTable(syms, secs, t) && IsTable(syms, secs, u)
              && LastBelow(t, 3) == Some(1) && LastBelow(u, 3) == None
  {
    var mark := Symbol("_etext", 2, 0, 0, 0, true, true, 0);
    var next := Symbol("next", 2, 4, 0, 1, true, true, 0);
    var syms, secs := [mark, next], [Section(0, 2, 0), Section(2, 4, 0)];
    var a, b := Range(2, 3, 0), Range(2, 6, 1);
    assert IsExtent(syms, secs, a) by { assert IsNext(syms, secs, 0, 2, 2); }
    assert IsExtent(syms, secs, b) by { assert IsNext(syms, secs, 1, 2, 6); }
    assert Placed(syms, secs);
    hide IsExtent, Placed;
    var t, u := [a, b], [b, a];
    TwoInTable(syms, secs, t, a, b);
    TwoInTable(syms, secs, u, a, b);
    LastBelowAt(t, 3, 2);
    LastBelowAt(u, 3, 2);
  }

  lemma TwoInTable(syms: seq<Symbol>, secs: seq<Section>, t: seq<Range>, a: Range, b: Range)
    requires |syms| == 2 && a.id == 0 && b.id == 1 && a.start == b.start && (t == [a, b] || t == [b, a])
    requires IsExtent(syms, secs, a) && IsExtent(syms, secs, b)
    ensures IsTable(syms, secs, t)
  {
    hide IsExtent;
    assert a in t && b in t;
  }
}
