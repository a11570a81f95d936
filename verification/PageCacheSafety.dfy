/**
 What every run of the page-cache module keeps, and what restoring and unloading leave behind.
 */
module PageCacheSafety {
  import opened Options
  import opened PageCacheSpec

  function CachedIndices(slots: map<nat, Slot>): set<nat> { set i | i in slots && slots[i].Cached? }

  /** Owner fields and slots are inverse to each other. */
  ghost predicate Owned(s: State) {
    && (forall i :: IsCached(s, i) ==> s.slots[i].page in s.owner && s.owner[s.slots[i].page] == i)
    && (forall p :: p in s.owner ==> s.owner[p] in s.slots && s.slots[s.owner[p]] == Cached(p))
  }

  /** A cached page has one reference on top of its baseline, any other page none. */
  ghost predicate Counted(s: State) {
    && (forall p :: Ref(s, p) == if p in s.owner then 1 else 0)
    && s.nrpages == |CachedIndices(s.slots)|
    && (forall p :: p in s.owner && p.Disk? ==> p.serial < s.serial)
  }

  /** Live records name grafted pages, each once. */
  ghost predicate Recorded(s: State) {
    && (forall j, k :: 0 <= j < k < |s.backups| && s.backups[j].live && s.backups[k].live ==>
          s.backups[j].index != s.backups[k].index)
    && (forall i :: Backup(i, true) in s.backups ==> IsGrafted(s, i))
  }

  ghost predicate HasRecord(s: State, i: nat) { Backup(i, true) in s.backups }

  /** Records are made until the array is full; from then on grafted pages go without. */
  ghost predicate Filled(s: State) {
    && |s.backups| == (if s.adds <= MAX_PAGES then s.adds else MAX_PAGES)
    && (s.active <==> s.backups != [])
    && (s.adds <= MAX_PAGES <==> forall i :: IsGrafted(s, i) ==> HasRecord(s, i))
  }

  ghost predicate Inv(s: State) { Owned(s) && Counted(s) && Recorded(s) && Filled(s) }

  // ---------------------------------------------------------------------------------------------
  // Single operations

  lemma CountAdded(slots: map<nat, Slot>, i: nat, p: Page)
    requires i !in CachedIndices(slots)
    ensures |CachedIndices(slots[i := Cached(p)])| == |CachedIndices(slots)| + 1
  {
    assert CachedIndices(slots[i := Cached(p)]) == CachedIndices(slots) + {i};
  }

  lemma CountRemoved(slots: map<nat, Slot>, i: nat)
    requires i in CachedIndices(slots)
    ensures |CachedIndices(slots - {i})| == |CachedIndices(slots)| - 1
    ensures CachedIndices(slots[i := Shadow]) == CachedIndices(slots - {i})
  {
    assert CachedIndices(slots - {i}) == CachedIndices(slots) - {i};
  }

  /** Taking a page out of the cache. */
  lemma DropKeeps(s: State, i: nat)
    requires Owned(s) && Counted(s) && IsCached(s, i)
    ensures Owned(DropPage(s, i)) && Counted(DropPage(s, i))
  {
    CountRemoved(s.slots, i);
    var p, t := s.slots[i].page, DropPage(s, i);
    forall q ensures Ref(t, q) == if q in t.owner then 1 else 0 {
      assert Ref(s, q) == if q in s.owner then 1 else 0;
    }
  }

  /** Putting a page that is nowhere in the cache into an empty slot. */
  lemma PutKeeps(s: State, t: State, i: nat, p: Page)
    requires Owned(s) && Counted(s) && !IsCached(s, i) && p !in s.owner
    requires t.slots == s.slots[i := Cached(p)] && t.owner == s.owner[p := i] && t.refs == AddRef(s, p, 1).refs
    requires t.nrpages == s.nrpages + 1 && t.serial >= s.serial && (p.Disk? ==> p.serial < t.serial)
    ensures Owned(t) && Counted(t)
  {
    CountAdded(s.slots, i, p);
    forall q ensures Ref(t, q) == if q in t.owner then 1 else 0 {
      assert Ref(s, q) == if q in s.owner then 1 else 0;
    }
  }

  /** A page index and a kernel page that are not in use. */
  ghost predicate FreshPage(s: State, frames: map<nat, nat>, page: Target) {
    !IsGrafted(s, page.0) && (page.1 in frames ==> Kernel(frames[page.1]) !in s.owner)
  }

  /** Grafting a kernel page at an index without a live record: one record more, while there is room. */
  lemma AddRecords(d: State, i: nat, p: Page)
    requires Recorded(d) && Filled(d) && !IsCached(d, i) && !HasRecord(d, i) && p.Kernel?
    ensures Recorded(AddPage(d, i, p).0) && Filled(AddPage(d, i, p).0)
  {
    var t := AddPage(d, i, p).0;
    assert IsGrafted(t, i);
    assert forall j :: j != i ==> (IsGrafted(t, j) <==> IsGrafted(d, j));
    if d.adds < MAX_PAGES {
      assert t.backups == d.backups + [Backup(i, true)];
      assert forall j :: HasRecord(t, j) <==> HasRecord(d, j) || j == i;
    } else {
      assert !HasRecord(t, i);
    }
  }

  lemma AddKeeps(d: State, i: nat, p: Page)
    requires Inv(d) && !IsCached(d, i) && !HasRecord(d, i) && p !in d.owner && p.Kernel?
    ensures Inv(AddPage(d, i, p).0)
  {
    hide Owned, Counted, Recorded, Filled;
    PutKeeps(d, AddPage(d, i, p).0, i, p);
    AddRecords(d, i, p);
  }

  lemma ReplaceKeeps(s: State, frames: map<nat, nat>, page: Target)
    requires Inv(s) && FreshPage(s, frames, page)
    ensures Inv(ReplacePage(s, frames, page.0, page.1).0)
  {
    var (i, v) := page;
    if v in frames {
      var d := if IsCached(s, i) then DropPage(s, i) else s;
      if IsCached(s, i) { DropKeeps(s, i); }
      assert forall j :: IsGrafted(d, j) <==> IsGrafted(s, j);
      assert forall j :: HasRecord(d, j) <==> HasRecord(s, j);
      AddKeeps(d, i, Kernel(frames[v]));
    }
  }

  lemma RestoreKeeps(s: State, i: nat)
    requires Inv(s)
    ensures Inv(RestorePage(s, i).0)
    ensures RestorePage(s, i).1 == (if HasRecord(s, i) then OK else ENOENT)
    ensures HasRecord(s, i) ==>
              && RestorePage(s, i).0.slots == s.slots - {i}
              && (forall j :: HasRecord(RestorePage(s, i).0, j) <==> HasRecord(s, j) && j != i)
    ensures RestorePage(s, i).0.adds == s.adds && |RestorePage(s, i).0.backups| == |s.backups|
  {
    if HasRecord(s, i) {
      var t := RestorePage(s, i).0;
      var k := FindBackup(s.backups, i).value;
      assert t == DropPage(s, i).(backups := s.backups[k := Backup(i, false)]) by {
        assert i in CachedIndices(s.slots);
        assert |CachedIndices(s.slots)| > 0;
      }
      DropKeeps(s, i);
      RecordCleared(s.backups, k);
      assert forall j :: j != i ==> (IsGrafted(t, j) <==> IsGrafted(s, j));
      assert !IsGrafted(t, i);
      assert Owned(t) && Counted(t);
      assert Recorded(t);
    }
  }

  lemma RecordCleared(backups: seq<Backup>, k: nat)
    requires k < |backups| && backups[k].live
    requires forall j, l :: 0 <= j < l < |backups| && backups[j].live && backups[l].live ==>
               backups[j].index != backups[l].index
    ensures forall j :: Backup(j, true) in backups[k := Backup(backups[k].index, false)]
              <==> Backup(j, true) in backups && j != backups[k].index
  {
    var after := backups[k := Backup(backups[k].index, false)];
    forall j | Backup(j, true) in backups && j != backups[k].index ensures Backup(j, true) in after {
      var l :| 0 <= l < |backups| && backups[l] == Backup(j, true);
      assert after[l] == Backup(j, true);
    }
    forall j | Backup(j, true) in after ensures Backup(j, true) in backups && j != backups[k].index {
      var l :| 0 <= l < |after| && after[l] == Backup(j, true);
      assert backups[l] == Backup(j, true);
    }
  }

  lemma TouchKeeps(s: State, i: nat)
    requires Inv(s)
    ensures Inv(Touch(s, i))
  {
    if !IsCached(s, i) {
      var t := Touch(s, i);
      PutKeeps(s, t, i, Disk(s.serial));
      assert forall j :: IsGrafted(t, j) <==> IsGrafted(s, j);
      assert forall j :: HasRecord(t, j) <==> HasRecord(s, j);
    }
  }

  lemma ReclaimKeeps(s: State, i: nat)
    requires Inv(s)
    ensures Inv(Reclaim(s, i))
  {
    if IsCached(s, i) && !IsGrafted(s, i) {
      var t := Reclaim(s, i);
      DropKeeps(s, i);
      CountRemoved(s.slots, i);
      assert forall j :: IsGrafted(t, j) <==> IsGrafted(s, j);
      assert forall j :: HasRecord(t, j) <==> HasRecord(s, j);
    }
  }

  // ---------------------------------------------------------------------------------------------
  // Requests

  /** A replace request for indices and kernel pages that are not in use, none of them twice. */
  ghost predicate FreshPages(s: State, frames: map<nat, nat>, pages: seq<Target>) {
    && (forall k :: 0 <= k < |pages| ==> FreshPage(s, frames, pages[k]))
    && (forall j, k :: 0 <= j < k < |pages| ==> pages[j].0 != pages[k].0)
    && (forall j, k :: 0 <= j < k < |pages| && pages[j].1 in frames && pages[k].1 in frames ==>
          frames[pages[j].1] != frames[pages[k].1])
  }

  /** Replacing the first page of a fresh request leaves the others fresh. */
  lemma StillFresh(s: State, frames: map<nat, nat>, pages: seq<Target>)
    requires FreshPages(s, frames, pages) && pages != []
    ensures FreshPages(ReplacePage(s, frames, pages[0].0, pages[0].1).0, frames, pages[1..])
  {
    var t := ReplacePage(s, frames, pages[0].0, pages[0].1).0;
    forall k | 0 < k < |pages| ensures FreshPage(t, frames, pages[k]) {
    }
  }

  lemma {:induction false} ReplacePagesKeep(s: State, frames: map<nat, nat>, pages: seq<Target>)
    requires Inv(s) && FreshPages(s, frames, pages)
    ensures Inv(ReplacePages(s, frames, pages).0)
    decreases |pages|
  {
    hide Inv, FreshPages, ReplacePage;
    if pages != [] {
      FirstIsFresh(s, frames, pages);
      ReplaceKeeps(s, frames, pages[0]);
      var (t, code) := ReplacePage(s, frames, pages[0].0, pages[0].1);
      if code == OK {
        StillFresh(s, frames, pages);
        ReplacePagesKeep(t, frames, pages[1..]);
      }
    }
  }

  lemma FirstIsFresh(s: State, frames: map<nat, nat>, pages: seq<Target>)
    requires FreshPages(s, frames, pages) && pages != []
    ensures FreshPage(s, frames, pages[0])
  {
  }

  lemma {:induction false} RestorePagesKeep(s: State, indices: seq<nat>)
    requires Inv(s)
    ensures Inv(RestorePages(s, indices).0)
    ensures RestorePages(s, indices).0.adds == s.adds
    decreases |indices|
  {
    if indices != [] {
      RestoreKeeps(s, indices[0]);
      var (t, code) := RestorePage(s, indices[0]);
      if code == OK {
        RestorePagesKeep(t, indices[1..]);
      }
    }
  }

  // ---------------------------------------------------------------------------------------------
  // Runs

  datatype Step = Replace(pages: seq<Target>) | Restore(indices: seq<nat>) | Access(index: nat) | Evict(index: nat)

  function Apply(s: State, frames: map<nat, nat>, step: Step): State {
    match step
    case Replace(pages) => ReplacePages(s, frames, pages).0
    case Restore(indices) => RestorePages(s, indices).0
    case Access(i) => Touch(s, i)
    case Evict(i) => Reclaim(s, i)
  }

  function Run(s: State, frames: map<nat, nat>, steps: seq<Step>): State
    decreases |steps|
  {
    if steps == [] then s else Run(Apply(s, frames, steps[0]), frames, steps[1..])
  }

  /** Every replace request of the run is fresh when it arrives. */
  ghost predicate Session(s: State, frames: map<nat, nat>, steps: seq<Step>)
    decreases |steps|
  {
    steps == [] ||
    ((steps[0].Replace? ==> FreshPages(s, frames, steps[0].pages)) &&
     Session(Apply(s, frames, steps[0]), frames, steps[1..]))
  }

  lemma {:induction false} RunKeeps(s: State, frames: map<nat, nat>, steps: seq<Step>)
    requires Inv(s) && Session(s, frames, steps)
    ensures Inv(Run(s, frames, steps))
    decreases |steps|
  {
    hide Inv;
    if steps != [] {
      match steps[0] {
        case Replace(pages) => ReplacePagesKeep(s, frames, pages);
        case Restore(indices) => RestorePagesKeep(s, indices);
        case Access(i) => TouchKeeps(s, i);
        case Evict(i) => ReclaimKeeps(s, i);
      }
      RunKeeps(Apply(s, frames, steps[0]), frames, steps[1..]);
    }
  }

  /** Every state that a session reaches from a freshly loaded module. */
  lemma SessionSafe(frames: map<nat, nat>, steps: seq<Step>)
    requires Session(INIT, frames, steps)
    ensures Inv(Run(INIT, frames, steps))
  {
    assert CachedIndices(INIT.slots) == {};
    RunKeeps(INIT, frames, steps);
  }

  // ---------------------------------------------------------------------------------------------
  // Unloading

  /** No kernel page in the cache, and no kernel page with a reference or an owner left over. */
  ghost predicate KernelFree(s: State) {
    && (forall i :: !IsGrafted(s, i))
    && (forall p: Page :: p.Kernel? ==> Ref(s, p) == 0 && p !in s.owner)
  }

  lemma NoGraftMeansKernelFree(s: State)
    requires Owned(s) && Counted(s) && forall i :: !IsGrafted(s, i)
    ensures KernelFree(s)
  {
    forall p: Page | p.Kernel? ensures Ref(s, p) == 0 && p !in s.owner {
      if p in s.owner {
        assert IsGrafted(s, s.owner[p]);
      }
    }
  }

  lemma {:induction false} UnloadFromRestores(s: State, k: nat)
    requires Inv(s) && k <= |s.backups| && forall j :: 0 <= j < k ==> !s.backups[j].live
    ensures Owned(UnloadFrom(s, k)) && Counted(UnloadFrom(s, k))
    ensures forall i :: IsGrafted(UnloadFrom(s, k), i) <==> IsGrafted(s, i) && !HasRecord(s, i)
    ensures forall i :: i in UnloadFrom(s, k).slots <==> i in s.slots && !HasRecord(s, i)
    ensures forall i :: i in UnloadFrom(s, k).slots ==> UnloadFrom(s, k).slots[i] == s.slots[i]
    decreases |s.backups| - k
  {
    hide Owned, Counted, Recorded, Filled, RestorePage, FindBackup;
    if k < |s.backups| {
      if s.backups[k].live {
        var i := s.backups[k].index;
        assert s.backups[k] == Backup(i, true);
        RestoreKeeps(s, i);
        OnlyRecord(s, i, k);
        var t := RestorePage(s, i).0;
        UnloadFromRestores(t, k + 1);
      } else {
        UnloadFromRestores(s, k + 1);
      }
    } else {
      assert forall i :: !HasRecord(s, i);
      RecordsForgotten(s);
    }
  }

  lemma RecordsForgotten(s: State)
    requires Owned(s) && Counted(s)
    ensures Owned(s.(backups := [], active := false)) && Counted(s.(backups := [], active := false))
  {
  }

  /** The record that is found is the one and only live record for the index. */
  lemma OnlyRecord(s: State, i: nat, k: nat)
    requires Inv(s) && k < |s.backups| && s.backups[k] == Backup(i, true)
    ensures FindBackup(s.backups, i) == Some(k)
    ensures RestorePage(s, i).0.backups == s.backups[k := Backup(i, false)]
  {
    assert HasRecord(s, i);
    assert IsGrafted(s, i);
  }

  /**
   Unloading takes out exactly the grafted pages that have a record, and nothing else. So it leaves the kernel's pages
   alone if and only if no more pages were grafted since loading than the backup array has entries.
   */
  lemma UnloadRestores(s: State)
    requires Inv(s)
    ensures KernelFree(Unload(s)) <==> s.adds <= MAX_PAGES
    ensures forall i :: i in Unload(s).slots <==> i in s.slots && !HasRecord(s, i)
    ensures forall i :: i in Unload(s).slots ==> Unload(s).slots[i] == s.slots[i]
    ensures Unload(s).nrpages == |CachedIndices(Unload(s).slots)|
  {
    if s.active {
      UnloadFromRestores(s, 0);
    } else {
      assert forall i :: !HasRecord(s, i);
    }
    if forall i :: !IsGrafted(Unload(s), i) {
      NoGraftMeansKernelFree(Unload(s));
    }
  }

  // ---------------------------------------------------------------------------------------------
  // Replace, then restore

  /** A request all of whose addresses resolve is carried out in full, page by page where it was asked for. */
  lemma {:induction false} ReplacedInFull(s: State, frames: map<nat, nat>, pages: seq<Target>)
    requires Inv(s) && FreshPages(s, frames, pages)
    requires forall k :: 0 <= k < |pages| ==> pages[k].1 in frames
    ensures ReplacePages(s, frames, pages).1 == OK
    ensures forall k :: 0 <= k < |pages| ==>
              pages[k].0 in ReplacePages(s, frames, pages).0.slots
              && ReplacePages(s, frames, pages).0.slots[pages[k].0] == Cached(Kernel(frames[pages[k].1]))
    ensures forall i :: (forall k :: 0 <= k < |pages| ==> pages[k].0 != i) ==>
              (i in ReplacePages(s, frames, pages).0.slots <==> i in s.slots)
              && (i in s.slots ==> ReplacePages(s, frames, pages).0.slots[i] == s.slots[i])
    ensures ReplacePages(s, frames, pages).0.adds == s.adds + |pages|
    decreases |pages|
  {
    hide Inv, ReplacePage, FreshPage;
    if pages != [] {
      FirstIsFresh(s, frames, pages);
      ReplaceKeeps(s, frames, pages[0]);
      StillFresh(s, frames, pages);
      ReplacedOne(s, frames, pages[0]);
      var (t, code) := ReplacePage(s, frames, pages[0].0, pages[0].1);
      ReplacedInFull(t, frames, pages[1..]);
      assert forall k :: 0 < k < |pages| ==> pages[k] == pages[1..][k - 1];
    }
  }

  /** A request is carried out up to its first address that does not resolve, and fails there. */
  lemma {:induction false} RequestStops(s: State, frames: map<nat, nat>, pages: seq<Target>, n: nat)
    requires Inv(s) && FreshPages(s, frames, pages) && n < |pages| && pages[n].1 !in frames
    requires forall k :: 0 <= k < n ==> pages[k].1 in frames
    ensures ReplacePages(s, frames, pages) == (ReplacePages(s, frames, pages[..n]).0, ENOMEM)
    decreases n
  {
    hide Inv, FreshPage;
    if n > 0 {
      FirstIsFresh(s, frames, pages);
      ReplaceKeeps(s, frames, pages[0]);
      StillFresh(s, frames, pages);
      ReplacedOne(s, frames, pages[0]);
      RequestStops(ReplacePage(s, frames, pages[0].0, pages[0].1).0, frames, pages[1..], n - 1);
      assert pages[..n][1..] == pages[1..][..n - 1];
    }
  }

  /** Reclaim takes out the file's own pages alone, a shadow entry in their place, and an access brings one back. */
  lemma ReclaimAndAccess(s: State, i: nat)
    ensures Reclaim(s, i).slots == if i in s.slots && s.slots[i].Cached? && s.slots[i].page.Disk? then s.slots[i := Shadow]
                                   else s.slots
    ensures Touch(s, i).slots == if i in s.slots && s.slots[i].Cached? then s.slots else s.slots[i := Cached(Disk(s.serial))]
  {
  }

  lemma ReplacedOne(s: State, frames: map<nat, nat>, page: Target)
    requires page.1 in frames
    ensures ReplacePage(s, frames, page.0, page.1).1 == OK
    ensures ReplacePage(s, frames, page.0, page.1).0.slots == s.slots[page.0 := Cached(Kernel(frames[page.1]))]
    ensures ReplacePage(s, frames, page.0, page.1).0.adds == s.adds + 1
  {
  }

  /** Restoring pages that have a record, none of them twice, succeeds and empties exactly their slots. */
  lemma {:induction false} RestoredInFull(s: State, indices: seq<nat>)
    requires Inv(s) && forall k :: 0 <= k < |indices| ==> HasRecord(s, indices[k])
    requires forall j, k :: 0 <= j < k < |indices| ==> indices[j] != indices[k]
    ensures RestorePages(s, indices).1 == OK && Inv(RestorePages(s, indices).0)
    ensures forall i :: i in RestorePages(s, indices).0.slots <==> i in s.slots && i !in indices
    ensures forall i :: i in RestorePages(s, indices).0.slots ==> RestorePages(s, indices).0.slots[i] == s.slots[i]
    ensures forall i :: HasRecord(RestorePages(s, indices).0, i) <==> HasRecord(s, i) && i !in indices
    decreases |indices|
  {
    if indices != [] {
      RestoreKeeps(s, indices[0]);
      var (t, code) := RestorePage(s, indices[0]);
      forall k | 0 <= k < |indices[1..]| ensures HasRecord(t, indices[1..][k]) {
        assert indices[1..][k] == indices[k + 1];
      }
      RestoredInFull(t, indices[1..]);
      assert forall i :: i in indices <==> i == indices[0] || i in indices[1..];
    }
  }

  /** Restoring every grafted page, in any order, leaves none behind while the backup array has not overflowed. */
  lemma RestoreEverything(s: State, indices: seq<nat>)
    requires Inv(s) && s.adds <= MAX_PAGES
    requires forall i :: IsGrafted(s, i) <==> i in indices
    requires forall j, k :: 0 <= j < k < |indices| ==> indices[j] != indices[k]
    ensures RestorePages(s, indices).1 == OK && KernelFree(RestorePages(s, indices).0)
  {
    forall k | 0 <= k < |indices| ensures HasRecord(s, indices[k]) {
      assert indices[k] in indices;
    }
    RestoredInFull(s, indices);
    NoGraftMeansKernelFree(RestorePages(s, indices).0);
  }

  function Indices(pages: seq<Target>): (r: seq<nat>)
    ensures |r| == |pages| && forall k :: 0 <= k < |pages| ==> r[k] == pages[k].0
  {
    seq(|pages|, k requires 0 <= k < |pages| => pages[k].0)
  }

  /**
   A request and the restore request for the same pages: both succeed, the replaced slots end up empty, every other slot
   is as it was, and so is every kernel page's reference count.
   */
  lemma ReplaceThenRestore(s: State, frames: map<nat, nat>, pages: seq<Target>)
    requires Inv(s) && FreshPages(s, frames, pages) && s.adds + |pages| <= MAX_PAGES
    requires forall k :: 0 <= k < |pages| ==> pages[k].1 in frames
    ensures ReplacePages(s, frames, pages).1 == OK
    ensures RestorePages(ReplacePages(s, frames, pages).0, Indices(pages)).1 == OK
    ensures RestorePages(ReplacePages(s, frames, pages).0, Indices(pages)).0.slots
         == map i | i in s.slots && i !in Indices(pages) :: s.slots[i]
    ensures forall p: Page :: p.Kernel? ==>
              Ref(RestorePages(ReplacePages(s, frames, pages).0, Indices(pages)).0, p) == Ref(s, p)
  {
    hide Owned, Counted, Recorded, Filled, FreshPages, ReplacePages, RestorePages;
    var t := ReplacePages(s, frames, pages).0;
    var indices := Indices(pages);
    ReplacedInFull(s, frames, pages);
    ReplacePagesKeep(s, frames, pages);
    DistinctIndices(s, frames, pages);
    forall k | 0 <= k < |indices| ensures HasRecord(t, indices[k]) {
      assert IsGrafted(t, pages[k].0);
      GraftedHasRecord(t, pages[k].0);
    }
    RestoredInFull(t, indices);
    var u := RestorePages(t, indices).0;
    forall i | i !in indices ensures i in t.slots <==> i in s.slots {
      assert forall k :: 0 <= k < |pages| ==> pages[k].0 == indices[k] != i;
    }
    assert u.slots == map i | i in s.slots && i !in indices :: s.slots[i];
    SameKernelPages(s, u, frames, pages);
  }

  lemma DistinctIndices(s: State, frames: map<nat, nat>, pages: seq<Target>)
    requires FreshPages(s, frames, pages)
    ensures forall j, k :: 0 <= j < k < |pages| ==> Indices(pages)[j] != Indices(pages)[k]
  {
  }

  lemma GraftedHasRecord(s: State, i: nat)
    requires Inv(s) && s.adds <= MAX_PAGES && IsGrafted(s, i)
    ensures HasRecord(s, i)
  {
  }

  lemma SameKernelPages(s: State, u: State, frames: map<nat, nat>, pages: seq<Target>)
    requires Inv(s) && Inv(u) && FreshPages(s, frames, pages)
    requires u.slots == map i | i in s.slots && i !in Indices(pages) :: s.slots[i]
    ensures forall p: Page :: p.Kernel? ==> Ref(u, p) == Ref(s, p)
  {
    forall p: Page | p.Kernel? ensures p in u.owner <==> p in s.owner {
      if p in s.owner {
        var i := s.owner[p];
        assert IsGrafted(s, i);
        assert i !in Indices(pages);
        assert IsCached(u, i) && u.slots[i].page == p;
      }
      if p in u.owner {
        assert IsCached(s, u.owner[p]) && s.slots[u.owner[p]].page == p;
      }
    }
  }
}
