/** Restoring by plan: the manager's restore batches, and what they leave behind for a plan of any length. */
module RestoreBatches {
  import opened Alignment
  import opened PageCache
  import opened PageCacheSafety
  import opened PageCacheSpec
  import opened PageMapLoader
  import opened PageMapText
  import opened Sorting

  // ---------------------------------------------------------------------------------------------
  // The manager's side

  /** A restore message: how many pages, and the array of 256 offsets, zero behind them. */
  datatype RestoreMessage = RestoreMessage(count: nat, offsets: seq<nat>)

  ghost predicate Sized(msgs: seq<RestoreMessage>) {
    forall m :: m in msgs ==> 1 <= m.count <= PageCacheSpec.MAX_PAGES && |m.offsets| == PageCacheSpec.MAX_PAGES
  }

  /** The offsets that the messages ask for. */
  ghost function Asked(msgs: seq<RestoreMessage>): seq<nat>
    requires Sized(msgs)
  {
    if msgs == [] then []
    else
      var m := msgs[|msgs| - 1];
      assert m in msgs;
      Asked(msgs[..|msgs| - 1]) + m.offsets[..m.count]
  }

  method FillRestore(offsets: seq<nat>, start: nat) returns (m: RestoreMessage)
    requires start < |offsets|
    ensures m.count == if |offsets| - start < PageCacheSpec.MAX_PAGES then |offsets| - start else PageCacheSpec.MAX_PAGES
    ensures |m.offsets| == PageCacheSpec.MAX_PAGES && m.offsets[..m.count] == offsets[start..start + m.count]
    ensures forall j :: m.count <= j < |m.offsets| ==> m.offsets[j] == 0
  {
    var max := PageCacheSpec.MAX_PAGES;
    var pages := if |offsets| - start < max then |offsets| - start else max;
    var o := seq(max, _ => 0);
    for i := 0 to pages
      invariant |o| == max && forall j :: 0 <= j < max ==> o[j] == if j < i then offsets[start + j] else 0
    {
      o := o[i := offsets[start + i]];
    }
    m := RestoreMessage(pages, o);
    assert o[..pages] == offsets[start..start + pages];
  }

  /** `send_restore_batches`; `accepted` is how many messages the socket takes. */
  method SendRestoreBatches(offsets: seq<nat>, accepted: nat) returns (ok: bool, msgs: seq<RestoreMessage>)
    ensures Sized(msgs) && Asked(msgs) <= offsets
    ensures ok ==> Asked(msgs) == offsets
    ensures ok <==> accepted >= (|offsets| + PageCacheSpec.MAX_PAGES - 1) / PageCacheSpec.MAX_PAGES
  {
    var batches := (|offsets| + PageCacheSpec.MAX_PAGES - 1) / PageCacheSpec.MAX_PAGES;
    msgs := [];
    for b := 0 to batches
      invariant |msgs| == b <= accepted && Sized(msgs) && Asked(msgs) == offsets[..Reached(|offsets|, b)]
    {
      var start := b * PageCacheSpec.MAX_PAGES;
      if b == accepted {
        return false, msgs;
      }
      var m := FillRestore(offsets, start);
      AskedMore(msgs, m);
      assert offsets[..start] + offsets[start..start + m.count] == offsets[..start + m.count];
      msgs := msgs + [m];
    }
    assert offsets[..|offsets|] == offsets;
    ok := true;
  }

  lemma AskedMore(msgs: seq<RestoreMessage>, m: RestoreMessage)
    requires Sized(msgs) && 1 <= m.count <= PageCacheSpec.MAX_PAGES == |m.offsets|
    ensures Sized(msgs + [m]) && Asked(msgs + [m]) == Asked(msgs) + m.offsets[..m.count]
  {
    assert (msgs + [m])[..|msgs|] == msgs;
  }

  function OffsetsOf(plan: seq<Entry>): seq<nat> {
    seq(|plan|, k requires 0 <= k < |plan| => plan[k].fileOffset)
  }

  /** `restore_elf_sections_by_page_info`; there is nothing to do without a plan. */
  method RestoreByPlan(plan: seq<Entry>, accepted: nat) returns (ok: bool, msgs: seq<RestoreMessage>)
    ensures Sized(msgs) && Asked(msgs) <= OffsetsOf(plan)
    ensures ok ==> Asked(msgs) == OffsetsOf(plan)
    ensures ok <==> plan != [] && accepted >= (|plan| + PageCacheSpec.MAX_PAGES - 1) / PageCacheSpec.MAX_PAGES
  {
    if plan == [] {
      return false, [];
    }
    var offsets := [];
    for k := 0 to |plan|
      invariant |offsets| == k && forall j :: 0 <= j < k ==> offsets[j] == plan[j].fileOffset
    {
      offsets := offsets + [plan[k].fileOffset];
    }
    assert offsets == OffsetsOf(plan);
    ok, msgs := SendRestoreBatches(offsets, accepted);
  }

  // ---------------------------------------------------------------------------------------------
  // The module's side

  function RestoreRequest(m: RestoreMessage): Request { Request(m.count, m.offsets, []) }

  /** What the module does with the messages, one after the other. */
  ghost function DeliverRestores(s: State, msgs: seq<RestoreMessage>): State
    requires Sized(msgs)
  {
    if msgs == [] then s
    else
      var m := msgs[|msgs| - 1];
      assert m in msgs;
      var t, r := DeliverRestores(s, msgs[..|msgs| - 1]), RestoreRequest(m);
      if r.RestoreAccepted() then RestorePages(t, r.RestoreIndices()).0 else t
  }

  function PagesAt(offsets: seq<nat>): (r: seq<nat>)
    ensures |r| == |offsets| && forall k :: 0 <= k < |r| ==> r[k] == offsets[k] / PAGE
  {
    seq(|offsets|, k requires 0 <= k < |offsets| => offsets[k] / PAGE)
  }

  /** `t` is `s` without the slots and the records of the given pages. */
  ghost predicate Emptied(s: State, t: State, gone: seq<nat>) {
    && Inv(t) && t.adds == s.adds
    && (forall i :: i in t.slots <==> i in s.slots && i !in gone)
    && (forall i :: i in t.slots ==> t.slots[i] == s.slots[i])
    && (forall i :: HasRecord(t, i) <==> HasRecord(s, i) && i !in gone)
  }

  lemma EmptiedMore(s: State, t: State, u: State, a: seq<nat>, b: seq<nat>)
    requires Emptied(s, t, a) && Emptied(t, u, b)
    ensures Emptied(s, u, a + b)
  {
    hide Inv, HasRecord;
  }

  /** One request: the pages are restored up to the first that has no record. */
  lemma {:induction false} RestoredPrefix(s: State, indices: seq<nat>, n: nat)
    requires Inv(s) && Distinct(indices) && n <= |indices| && forall k :: 0 <= k < n ==> HasRecord(s, indices[k])
    requires n < |indices| ==> !HasRecord(s, indices[n])
    ensures Emptied(s, RestorePages(s, indices).0, indices[..n])
    decreases |indices|
  {
    hide Inv, HasRecord, RestorePage;
    if indices == [] {
    } else if n == 0 {
      RestoreKeeps(s, indices[0]);
      NotRestored(s, indices[0]);
    } else {
      RestoreKeeps(s, indices[0]);
      var t := RestorePage(s, indices[0]).0;
      var rest := indices[1..];
      assert forall k :: 0 <= k < |rest| ==> rest[k] == indices[k + 1];
      RestoredPrefix(t, rest, n - 1);
      assert Emptied(s, t, [indices[0]]);
      EmptiedMore(s, t, RestorePages(t, rest).0, [indices[0]], rest[..n - 1]);
      assert [indices[0]] + rest[..n - 1] == indices[..n];
    }
  }

  lemma NotRestored(s: State, i: nat)
    requires !HasRecord(s, i)
    ensures RestorePage(s, i) == (s, ENOENT)
  {
  }

  /** All messages: when the pages with a record stand first, exactly these are emptied, wherever the batches end. */
  lemma {:induction false} RestoresTogether(s: State, msgs: seq<RestoreMessage>, r: nat)
    requires Inv(s) && Sized(msgs) && Distinct(PagesAt(Asked(msgs))) && r <= |Asked(msgs)|
    requires forall k :: 0 <= k < |Asked(msgs)| ==> (HasRecord(s, PagesAt(Asked(msgs))[k]) <==> k < r)
    ensures Emptied(s, DeliverRestores(s, msgs), PagesAt(Asked(msgs))[..r])
  {
    hide Inv, HasRecord, RestorePages, Emptied, Distinct;
    var all := PagesAt(Asked(msgs));
    if msgs == [] {
      NothingEmptied(s);
      assert all[..r] == [];
    } else {
      var m, init := msgs[|msgs| - 1], msgs[..|msgs| - 1];
      assert m in msgs;
      var a := |Asked(init)|;
      var done := if r < a then r else a;
      assert PagesAt(Asked(init)) == all[..a];
      assert Distinct(all[..a]) by { PartsDiffer(all, a); }
      assert forall k :: 0 <= k < a ==> all[..a][k] == all[k];
      RestoresTogether(s, init, done);
      assert all[..a][..done] == all[..done];
      assert RestoreRequest(m).RestoreIndices() == all[a..];
      NextRequest(s, DeliverRestores(s, init), all, a, r);
    }
  }

  /** The request for the pages from `a` on empties those that have a record. */
  lemma NextRequest(s: State, t: State, all: seq<nat>, a: nat, r: nat)
    requires Distinct(all) && a <= |all| && r <= |all| && Emptied(s, t, all[..if r < a then r else a])
    requires forall k :: 0 <= k < |all| ==> (HasRecord(s, all[k]) <==> k < r)
    ensures Emptied(s, RestorePages(t, all[a..]).0, all[..r])
  {
    hide Inv, HasRecord, RestorePages, Emptied, Distinct;
    var done, part := if r < a then r else a, all[a..];
    var n := r - done;
    forall k | 0 <= k < |part| ensures HasRecord(t, part[k]) <==> a + k < r {
      assert part[k] == all[a + k];
      NotEarlier(all, done, a + k);
      RecordLeft(s, t, all[..done], part[k]);
    }
    PartsDiffer(all, a);
    assert Inv(t) by { EmptiedKeeps(s, t, all[..done]); }
    RestoredPrefix(t, part, n);
    EmptiedMore(s, t, RestorePages(t, part).0, all[..done], part[..n]);
    assert all[..done] + part[..n] == all[..r];
  }

  lemma PartsDiffer(all: seq<nat>, a: nat)
    requires Distinct(all) && a <= |all|
    ensures Distinct(all[..a]) && Distinct(all[a..])
  {
  }

  lemma EmptiedKeeps(s: State, t: State, gone: seq<nat>)
    requires Emptied(s, t, gone)
    ensures Inv(t)
  {
  }

  lemma NothingEmptied(s: State)
    requires Inv(s)
    ensures Emptied(s, s, [])
  {
  }

  lemma NotEarlier(all: seq<nat>, n: nat, k: nat)
    requires Distinct(all) && n <= k < |all|
    ensures all[k] !in all[..n]
  {
  }

  lemma RecordLeft(s: State, t: State, gone: seq<nat>, i: nat)
    requires Emptied(s, t, gone) && i !in gone
    ensures HasRecord(t, i) <==> HasRecord(s, i)
  {
  }

  // ---------------------------------------------------------------------------------------------
  // Which pages of a plan have a record

  ghost predicate Noted(s: State, pages: seq<Target>, i: nat) {
    exists k :: 0 <= k < |pages| && s.adds + k < PageCacheSpec.MAX_PAGES && pages[k].0 == i
  }

  /** Records are made for the pages of a request in its order, for as long as the backup array has room. */
  lemma {:induction false} RecordsMade(s: State, frames: map<nat, nat>, pages: seq<Target>)
    requires Inv(s) && FreshPages(s, frames, pages) && forall k :: 0 <= k < |pages| ==> pages[k].1 in frames
    ensures forall i :: HasRecord(ReplacePages(s, frames, pages).0, i) <==> HasRecord(s, i) || Noted(s, pages, i)
    decreases |pages|
  {
    hide Inv, HasRecord, ReplacePage, FreshPage, FreshPages, Noted;
    if pages == [] {
      assert forall i :: !Noted(s, pages, i) by { NothingNoted(s); }
    } else {
      FirstIsFresh(s, frames, pages);
      ReplaceKeeps(s, frames, pages[0]);
      StillFresh(s, frames, pages);
      ReplacedOne(s, frames, pages[0]);
      var t := ReplacePage(s, frames, pages[0].0, pages[0].1).0;
      var rest := pages[1..];
      RecordsMade(t, frames, rest);
      forall i
        ensures HasRecord(ReplacePages(t, frames, rest).0, i) <==> HasRecord(s, i) || Noted(s, pages, i)
      {
        RecordMade(s, frames, pages[0], i);
        NotedFirst(s, t, pages, i);
      }
    }
  }

  lemma NothingNoted(s: State)
    ensures forall i :: !Noted(s, [], i)
  {
  }

  lemma NotedFirst(s: State, t: State, pages: seq<Target>, i: nat)
    requires pages != [] && t.adds == s.adds + 1
    ensures Noted(s, pages, i) <==> (s.adds < PageCacheSpec.MAX_PAGES && pages[0].0 == i) || Noted(t, pages[1..], i)
  {
    if Noted(t, pages[1..], i) {
      var k :| 0 <= k < |pages[1..]| && t.adds + k < PageCacheSpec.MAX_PAGES && pages[1..][k].0 == i;
      assert pages[k + 1].0 == i;
    }
    if Noted(s, pages, i) {
      var k :| 0 <= k < |pages| && s.adds + k < PageCacheSpec.MAX_PAGES && pages[k].0 == i;
      assert k > 0 ==> pages[1..][k - 1].0 == i;
    }
  }

  lemma RecordMade(s: State, frames: map<nat, nat>, page: Target, i: nat)
    requires Inv(s) && FreshPage(s, frames, page) && page.1 in frames
    ensures HasRecord(ReplacePage(s, frames, page.0, page.1).0, i)
       <==> HasRecord(s, i) || (s.adds < PageCacheSpec.MAX_PAGES && page.0 == i)
  {
    var t := ReplacePage(s, frames, page.0, page.1).0;
    if s.adds < PageCacheSpec.MAX_PAGES {
      assert t.backups == s.backups + [Backup(page.0, true)];
    } else {
      assert t.backups == s.backups;
    }
  }
}
