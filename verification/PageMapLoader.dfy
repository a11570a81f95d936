/** The manager's side of the page map: loading the plan, checking it against the file, sending it in batches. */
module PageMapLoader {
  import opened Alignment
  import opened Concatenation
  import opened Options
  import opened PageMappings
  import opened PageMapText
  import opened Sorting

  /** `sizeof(line)`, less one for the NUL. */
  const LINE_MAX: nat := 511

  // ---------------------------------------------------------------------------------------------
  // Lines

  /** How much `fgets` takes: to the end of the line, but no more than its buffer holds. */
  function Taken(file: string): (n: nat)
    ensures n <= |file| && n <= 511 && (file != "" ==> n > 0)
    ensures forall k :: 0 <= k < n - 1 ==> file[k] != '\n'
    ensures n == |file| || n == 511 || file[n - 1] == '\n'
  {
    var end := Find(file, '\n', 0);
    var n := if end < |file| then end + 1 else |file|;
    if n > LINE_MAX then LINE_MAX else n
  }

  function Chunks(file: string): seq<string>
    decreases |file|
  {
    if file == "" then [] else [file[..Taken(file)]] + Chunks(file[Taken(file)..])
  }

  /** A line that `fgets` reads whole. */
  ghost predicate WholeLine(s: string) {
    0 < |s| <= LINE_MAX && s[|s| - 1] == '\n' && forall k :: 0 <= k < |s| - 1 ==> s[k] != '\n'
  }

  lemma TakeLine(line: string, rest: string)
    requires WholeLine(line)
    ensures Taken(line + rest) == |line| && (line + rest)[..|line|] == line && (line + rest)[|line|..] == rest
  {
    var f, n := line + rest, |line| - 1;
    assert forall k :: 0 <= k < |line| ==> f[k] == line[k];
    FindIs(f, '\n', 0, n);
  }

  ghost function FlattenFront(lines: seq<string>): string
    decreases |lines|
  {
    if lines == [] then "" else lines[0] + FlattenFront(lines[1..])
  }

  lemma {:induction false} FrontPush(lines: seq<string>, x: string)
    ensures FlattenFront(lines + [x]) == FlattenFront(lines) + x
    decreases |lines|
  {
    if lines == [] {
      assert [x][1..] == [];
      assert lines + [x] == [x];
    } else {
      FrontPush(lines[1..], x);
      assert (lines + [x])[1..] == lines[1..] + [x];
    }
  }

  lemma {:induction false} FrontIsFlat(lines: seq<string>)
    ensures FlattenFront(lines) == Flatten(lines)
    decreases |lines|
  {
    if lines != [] {
      var last, init := lines[|lines| - 1], lines[..|lines| - 1];
      FrontIsFlat(init);
      FrontPush(init, last);
      assert lines == init + [last];
    }
  }

  lemma {:induction false} ChunksOfLines(lines: seq<string>)
    requires forall k :: 0 <= k < |lines| ==> WholeLine(lines[k])
    ensures Chunks(FlattenFront(lines)) == lines
    decreases |lines|
  {
    hide Taken;
    if lines != [] {
      ChunksOfLines(lines[1..]);
      TakeLine(lines[0], FlattenFront(lines[1..]));
      assert lines == [lines[0]] + lines[1..];
    }
  }

  // ---------------------------------------------------------------------------------------------
  // Loading

  /** The entries of the lines, when all of them can be read. */
  function Entries(chunks: seq<string>): Option<seq<Entry>>
    decreases |chunks|
  {
    if chunks == [] then Some([])
    else
      match (Entries(chunks[..|chunks| - 1]), ParseLine(chunks[|chunks| - 1]))
      case (Some(es), Skipped) => Some(es)
      case (Some(es), Accepted(e)) => Some(es + [e])
      case _ => None
  }

  /** No file page and no kernel page twice. */
  ghost predicate NoDuplicates(es: seq<Entry>) {
    forall j, k :: 0 <= j < k < |es| ==> es[j].fileOffset != es[k].fileOffset && es[j].kernel != es[k].kernel
  }

  ghost predicate Acceptable(chunks: seq<string>) {
    Entries(chunks).Some? && Entries(chunks).value != [] && NoDuplicates(Entries(chunks).value)
  }

  ghost predicate SortedByOffset(es: seq<Entry>) {
    forall j, k :: 0 <= j < k < |es| ==> es[j].fileOffset <= es[k].fileOffset
  }

  ghost predicate Marks(es: seq<Entry>, offsets: set<nat>, pages: set<nat>) {
    && (forall x :: x in offsets <==> exists j :: 0 <= j < |es| && es[j].fileOffset == x)
    && (forall x :: x in pages <==> exists j :: 0 <= j < |es| && es[j].kernel == x)
  }

  lemma MarkEntry(es: seq<Entry>, offsets: set<nat>, pages: set<nat>, e: Entry)
    requires Marks(es, offsets, pages) && NoDuplicates(es)
    ensures Marks(es + [e], offsets + {e.fileOffset}, pages + {e.kernel})
    ensures NoDuplicates(es + [e]) <==> e.fileOffset !in offsets && e.kernel !in pages
  {
    var more := es + [e];
    assert more[|es|] == e && forall j :: 0 <= j < |es| ==> more[j] == es[j];
    forall x ensures x in offsets + {e.fileOffset} <==> exists j :: 0 <= j < |more| && more[j].fileOffset == x {
      if x in offsets {
        var j :| 0 <= j < |es| && es[j].fileOffset == x;
        assert more[j].fileOffset == x;
      }
    }
    forall x ensures x in pages + {e.kernel} <==> exists j :: 0 <= j < |more| && more[j].kernel == x {
      if x in pages {
        var j :| 0 <= j < |es| && es[j].kernel == x;
        assert more[j].kernel == x;
      }
    }
    if e.fileOffset in offsets {
      var j :| 0 <= j < |es| && es[j].fileOffset == e.fileOffset;
      assert more[j].fileOffset == more[|es|].fileOffset;
    }
    if e.kernel in pages {
      var j :| 0 <= j < |es| && es[j].kernel == e.kernel;
      assert more[j].kernel == more[|es|].kernel;
    }
  }

  /** Entries of a longer file begin with those of the shorter one. */
  lemma {:induction false} EntriesPrefix(chunks: seq<string>, n: nat)
    requires n <= |chunks| && Entries(chunks).Some?
    ensures Entries(chunks[..n]).Some? && Entries(chunks[..n]).value <= Entries(chunks).value
  {
    hide ParseLine;
    if n == |chunks| {
      assert chunks[..n] == chunks;
    } else {
      var init := chunks[..|chunks| - 1];
      EntriesPrefix(init, n);
      assert init[..n] == chunks[..n];
    }
  }

  lemma NotAcceptable(chunks: seq<string>, n: nat)
    requires n <= |chunks|
    requires Entries(chunks[..n]) == None || !NoDuplicates(Entries(chunks[..n]).value)
    ensures !Acceptable(chunks)
  {
    if Entries(chunks).Some? {
      EntriesPrefix(chunks, n);
    }
  }

  /** `load_page_mappings`: all lines, sorted by file offset, or nothing when a line is wrong or a page comes twice. */
  method LoadPageMappings(file: string) returns (plan: Option<seq<Entry>>)
    ensures plan.Some? <==> Acceptable(Chunks(file))
    ensures plan.Some? ==> SortedByOffset(plan.value) && multiset(plan.value) == multiset(Entries(Chunks(file)).value)
  {
    hide ParseLine, Taken, Marks, NoDuplicates, KeyLe;
    var rest, es, offsets, pages := file, [], {}, {};
    ghost var chunks := Chunks(file);
    ghost var n := 0;
    NothingMarked();
    while rest != ""
      invariant n <= |chunks| && chunks[n..] == Chunks(rest)
      invariant Entries(chunks[..n]) == Some(es) && Marks(es, offsets, pages) && NoDuplicates(es)
      decreases |rest|
    {
      var chunk := rest[..Taken(rest)];
      rest := rest[Taken(rest)..];
      assert chunks[n] == chunk && chunks[n..][1..] == chunks[n + 1..];
      assert chunks[..n + 1][..n] == chunks[..n];
      n := n + 1;
      match ParseLine(chunk) {
        case Skipped =>
        case Rejected =>
          NotAcceptable(chunks, n);
          return None;
        case Accepted(e) =>
          MarkEntry(es, offsets, pages, e);
          if e.fileOffset in offsets || e.kernel in pages {
            NotAcceptable(chunks, n);
            return None;
          }
          offsets, pages := offsets + {e.fileOffset}, pages + {e.kernel};
          es := es + [e];
      }
    }
    assert chunks[..n] == chunks;
    if es == [] {
      return None;
    }
    var sorted := SortBy(es, (e: Entry) => [e.fileOffset]);
    forall j, k | 0 <= j < k < |sorted| ensures sorted[j].fileOffset <= sorted[k].fileOffset {
      OneKey(sorted[j].fileOffset, sorted[k].fileOffset);
    }
    plan := Some(sorted);
  }

  lemma NothingMarked()
    ensures Marks([], {}, {}) && NoDuplicates([])
  {
  }

  lemma OneKey(a: nat, b: nat)
    requires KeyLe([a], [b])
    ensures a <= b
  {
  }

  // ---------------------------------------------------------------------------------------------
  // Loading what was printed

  function EntriesOf(maps: seq<Mapping>): seq<Entry> {
    seq(|maps|, k requires 0 <= k < |maps| => EntryOf(maps[k]))
  }

  lemma {:induction false} EntriesBack(maps: seq<Mapping>, n: nat)
    requires n <= |maps| && forall k :: 0 <= k < |maps| ==> Printable(maps[k])
    ensures Entries(Lines(maps)[..n + 1]) == Some(EntriesOf(maps[..n]))
  {
    hide ParseLine, Printable, LineOf;
    var lines := Lines(maps);
    if n == 0 {
      assert lines[..1] == [HEADING] && lines[..1][..0] == [];
      CommentSkipped(HEADING);
      assert Entries([]) == Some([]);
    } else {
      EntriesBack(maps, n - 1);
      LineBack(maps[n - 1]);
      assert lines[..n + 1][..n] == lines[..n] && lines[..n + 1][n] == LineOf(maps[n - 1]);
      assert EntriesOf(maps[..n]) == EntriesOf(maps[..n - 1]) + [EntryOf(maps[n - 1])];
    }
  }

  lemma LineIsWhole(m: Mapping)
    requires Printable(m) && |LineOf(m)| <= LINE_MAX
    ensures WholeLine(LineOf(m))
  {
    hide Printable, Body, ParseLine;
    LineBack(m);
  }

  lemma LinesAreWhole(maps: seq<Mapping>)
    requires forall k :: 0 <= k < |maps| ==> Printable(maps[k]) && |LineOf(maps[k])| <= LINE_MAX
    ensures forall k :: 0 <= k < |Lines(maps)| ==> WholeLine(Lines(maps)[k])
  {
    hide Printable, LineOf;
    forall k | 0 <= k < |Lines(maps)| ensures WholeLine(Lines(maps)[k]) {
      if k == 0 {
        HeadingIsLine();
      } else {
        LineIsWhole(maps[k - 1]);
      }
    }
  }

  ghost predicate StrictByOffset(es: seq<Entry>) {
    forall j, k :: 0 <= j < k < |es| ==> es[j].fileOffset < es[k].fileOffset
  }

  lemma SameLast(a: seq<Entry>, b: seq<Entry>)
    requires StrictByOffset(a) && StrictByOffset(b) && (forall x :: x in a <==> x in b) && a != []
    ensures b != [] && a[|a| - 1] == b[|b| - 1]
  {
    assert a[0] in b;
    var x, y := a[|a| - 1], b[|b| - 1];
    assert x in b && y in a;
  }

  lemma WithoutLast(a: seq<Entry>, e: Entry)
    requires StrictByOffset(a) && a != []
    ensures StrictByOffset(a[..|a| - 1]) && (e in a[..|a| - 1] <==> e in a && e != a[|a| - 1])
  {
    assert a == a[..|a| - 1] + [a[|a| - 1]];
  }

  lemma {:induction false} StrictUnique(a: seq<Entry>, b: seq<Entry>)
    requires StrictByOffset(a) && StrictByOffset(b) && forall x :: x in a <==> x in b
    ensures a == b
    decreases |b|
  {
    hide StrictByOffset;
    assert b != [] ==> b[0] in a;
    if a != [] {
      SameLast(a, b);
      var a1, b1 := a[..|a| - 1], b[..|b| - 1];
      WithoutLast(a, a[0]);
      WithoutLast(b, b[0]);
      forall e ensures e in a1 <==> e in b1 {
        WithoutLast(a, e);
        WithoutLast(b, e);
      }
      StrictUnique(a1, b1);
      assert a == a1 + [a[|a| - 1]] && b == b1 + [b[|b| - 1]];
    }
  }

  /** Two sorted lists of the same entries, with no offset twice, are the same list. */
  lemma SortedUnique(a: seq<Entry>, b: seq<Entry>)
    requires multiset(a) == multiset(b) && SortedByOffset(a) && StrictByOffset(b)
    ensures a == b
  {
    SameElements(a, b);
    forall j, k | 0 <= j < k < |a| ensures a[j].fileOffset < a[k].fileOffset {
      assert a[j] in b && a[k] in b && a[j] != a[k];
    }
    StrictUnique(a, b);
  }

  /** The manager loads exactly the builder's list, in its order. */
  lemma PlanBack(maps: seq<Mapping>, plan: Option<seq<Entry>>)
    requires maps != [] && Ascending(maps) && AllDifferent(maps)
    requires forall k :: 0 <= k < |maps| ==> Printable(maps[k]) && |LineOf(maps[k])| <= LINE_MAX
    requires plan.Some? <==> Acceptable(Chunks(Flatten(Lines(maps))))
    requires plan.Some? ==>
               && SortedByOffset(plan.value)
               && multiset(plan.value) == multiset(Entries(Chunks(Flatten(Lines(maps)))).value)
    ensures plan == Some(EntriesOf(maps))
  {
    hide Printable, LineOf, ParseLine, WholeLine, Chunks;
    FrontIsFlat(Lines(maps));
    LinesAreWhole(maps);
    ChunksOfLines(Lines(maps));
    EntriesBack(maps, |maps|);
    assert Lines(maps)[..|maps| + 1] == Lines(maps) && maps[..|maps|] == maps;
    assert NoDuplicates(EntriesOf(maps));
    SortedUnique(plan.value, EntriesOf(maps));
  }

  // ---------------------------------------------------------------------------------------------
  // The file and the batches

  /** `validate_page_mappings_for_file`: every page lies within the file. */
  method ValidateForFile(plan: seq<Entry>, size: nat) returns (ok: bool)
    ensures ok <==> forall k :: 0 <= k < |plan| ==> plan[k].fileOffset + PAGE <= size
  {
    for k := 0 to |plan|
      invariant forall j :: 0 <= j < k ==> plan[j].fileOffset + PAGE <= size
    {
      if plan[k].fileOffset > size - PAGE {
        return false;
      }
    }
    ok := true;
  }

  const MAX_PAGES: nat := 256

  /** A message: how many pages, and the two arrays of 256, zero behind the pages. */
  datatype Message = Message(count: nat, offsets: seq<nat>, vaddrs: seq<nat>)

  function Padded(xs: seq<nat>): seq<nat> { xs + seq(if |xs| < MAX_PAGES then MAX_PAGES - |xs| else 0, _ => 0) }

  /** What the first `count` places of the messages say. */
  ghost function Sent(msgs: seq<Message>): seq<(nat, nat)>
    requires forall m :: m in msgs ==> m.count <= |m.offsets| && m.count <= |m.vaddrs|
  {
    if msgs == [] then []
    else
      var m := msgs[|msgs| - 1];
      assert m in msgs;
      Sent(msgs[..|msgs| - 1]) + seq(m.count, k requires 0 <= k < m.count => (m.offsets[k], m.vaddrs[k]))
  }

  ghost predicate WellSized(msgs: seq<Message>) {
    forall m :: m in msgs ==> 1 <= m.count <= MAX_PAGES && |m.offsets| == |m.vaddrs| == MAX_PAGES
  }

  ghost function Pairs(offsets: seq<nat>, vaddrs: seq<nat>): seq<(nat, nat)>
    requires |offsets| == |vaddrs|
  {
    seq(|offsets|, k requires 0 <= k < |offsets| => (offsets[k], vaddrs[k]))
  }

  /** One batch: the pages from `start`. */
  method FillMessage(offsets: seq<nat>, vaddrs: seq<nat>, start: nat) returns (m: Message)
    requires |offsets| == |vaddrs| && start < |offsets|
    ensures m.count == (if |offsets| - start < MAX_PAGES then |offsets| - start else MAX_PAGES)
    ensures m.offsets == Padded(offsets[start..start + m.count]) && m.vaddrs == Padded(vaddrs[start..start + m.count])
    ensures |m.offsets| == |m.vaddrs| == MAX_PAGES
    ensures forall j :: m.count <= j < 256 ==> m.offsets[j] == 0 && m.vaddrs[j] == 0
  {
    var pages := if |offsets| - start < MAX_PAGES then |offsets| - start else MAX_PAGES;
    var o, v := seq(MAX_PAGES, _ => 0), seq(MAX_PAGES, _ => 0);
    for i := 0 to pages
      invariant |o| == |v| == MAX_PAGES
      invariant forall j :: 0 <= j < MAX_PAGES ==> o[j] == if j < i then offsets[start + j] else 0
      invariant forall j :: 0 <= j < MAX_PAGES ==> v[j] == if j < i then vaddrs[start + j] else 0
    {
      o, v := o[i := offsets[start + i]], v[i := vaddrs[start + i]];
    }
    m := Message(pages, o, v);
    assert o == Padded(offsets[start..start + pages]) && v == Padded(vaddrs[start..start + pages]);
  }

  /**
   `send_replace_batches`; `accepted` is how many messages the socket takes. Without a failure the batches, each of 1 to
   256 pages, say together what the plan says, in its order; otherwise they say the beginning of it.
   */
  method SendBatches(offsets: seq<nat>, vaddrs: seq<nat>, accepted: nat) returns (ok: bool, msgs: seq<Message>)
    requires |offsets| == |vaddrs|
    ensures WellSized(msgs) && Sent(msgs) <= Pairs(offsets, vaddrs)
    ensures ok ==> Sent(msgs) == Pairs(offsets, vaddrs)
    ensures ok <==> accepted >= (|offsets| + MAX_PAGES - 1) / MAX_PAGES
  {
    hide Padded;
    var batches := (|offsets| + MAX_PAGES - 1) / MAX_PAGES;
    msgs := [];
    for b := 0 to batches
      invariant |msgs| == b <= accepted && WellSized(msgs)
      invariant Sent(msgs) == Pairs(offsets, vaddrs)[..Reached(|offsets|, b)]
    {
      var start := b * MAX_PAGES;
      if b == accepted {
        return false, msgs;
      }
      var m := FillMessage(offsets, vaddrs, start);
      OneMore(offsets, vaddrs, msgs, m, start);
      msgs := msgs + [m];
    }
    assert Pairs(offsets, vaddrs)[..|offsets|] == Pairs(offsets, vaddrs);
    ok := true;
  }

  /** Pages and addresses of a plan. */
  ghost function PlanPairs(plan: seq<Entry>): seq<(nat, nat)> {
    seq(|plan|, k requires 0 <= k < |plan| => (plan[k].fileOffset, plan[k].kernel))
  }

  /** `replace_elf_sections_by_page_info`; there is nothing to do without a plan. */
  method ReplaceByPlan(plan: seq<Entry>, accepted: nat) returns (ok: bool, msgs: seq<Message>)
    ensures WellSized(msgs) && Sent(msgs) <= PlanPairs(plan)
    ensures ok ==> Sent(msgs) == PlanPairs(plan)
    ensures ok <==> plan != [] && accepted >= (|plan| + MAX_PAGES - 1) / MAX_PAGES
  {
    if plan == [] {
      return false, [];
    }
    var offsets, vaddrs := [], [];
    for k := 0 to |plan|
      invariant |offsets| == |vaddrs| == k
      invariant forall j :: 0 <= j < k ==> offsets[j] == plan[j].fileOffset && vaddrs[j] == plan[j].kernel
    {
      offsets, vaddrs := offsets + [plan[k].fileOffset], vaddrs + [plan[k].kernel];
    }
    ok, msgs := SendBatches(offsets, vaddrs, accepted);
    assert Pairs(offsets, vaddrs) == PlanPairs(plan);
  }

  function Reached(total: nat, batches: nat): (n: nat)
    ensures n <= total
  {
    if batches * MAX_PAGES < total then batches * MAX_PAGES else total
  }

  lemma OneMore(offsets: seq<nat>, vaddrs: seq<nat>, msgs: seq<Message>, m: Message, start: nat)
    requires |offsets| == |vaddrs| && start < |offsets| && WellSized(msgs)
    requires 1 <= m.count <= MAX_PAGES && start + m.count <= |offsets| && |m.offsets| == |m.vaddrs| == MAX_PAGES
    requires m.offsets == Padded(offsets[start..start + m.count]) && m.vaddrs == Padded(vaddrs[start..start + m.count])
    requires Sent(msgs) == Pairs(offsets, vaddrs)[..start]
    ensures WellSized(msgs + [m]) && Sent(msgs + [m]) == Pairs(offsets, vaddrs)[..start + m.count]
  {
    assert (msgs + [m])[..|msgs|] == msgs;
    assert WellSized(msgs + [m]);
    var all := Pairs(offsets, vaddrs);
    assert seq(m.count, k requires 0 <= k < m.count => (m.offsets[k], m.vaddrs[k])) == all[start..start + m.count];
    assert all[..start] + all[start..start + m.count] == all[..start + m.count];
  }
}
