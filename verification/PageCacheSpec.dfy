/**
 What the page-cache module's operations do to its state: one file's page cache, the pages' reference counts and owner
 fields, and the append-only backup records.
 */
module PageCacheSpec {
  import opened Options

  /** `MAX_PAGES_PER_OPERATION`, which is also the length of the backup array. */
  const MAX_PAGES: nat := 256

  /** A page object: the kernel's page frame, or a page the kernel allocated to hold a piece of the file. */
  datatype Page = Kernel(frame: nat) | Disk(serial: nat)

  datatype Slot = Cached(page: Page) | Shadow

  datatype Backup = Backup(index: nat, live: bool)

  datatype Code = OK | EEXIST | ENOENT | ENOMEM

  /**
   `refs` counts the references above the page's baseline, `owner` is `page->index` of the pages whose `page->mapping` is
   this file, `adds` counts the pages grafted since the module was loaded.
   */
  datatype State = State(slots: map<nat, Slot>, nrpages: int, refs: map<Page, int>, owner: map<Page, nat>,
                         backups: seq<Backup>, active: bool, adds: nat, serial: nat)

  const INIT := State(map[], 0, map[], map[], [], false, 0, 0)

  function Ref(s: State, p: Page): int { if p in s.refs then s.refs[p] else 0 }

  function AddRef(s: State, p: Page, n: int): State { s.(refs := s.refs[p := Ref(s, p) + n]) }

  predicate IsCached(s: State, i: nat) { i in s.slots && s.slots[i].Cached? }

  predicate IsGrafted(s: State, i: nat) { IsCached(s, i) && s.slots[i].page.Kernel? }

  /** Position of the first live backup record for a page index, from record `k` on. */
  function FindFrom(backups: seq<Backup>, index: nat, k: nat): (r: Option<nat>)
    ensures r.Some? ==> k <= r.value < |backups| && backups[r.value] == Backup(index, true)
    ensures r.None? ==> forall j :: k <= j < |backups| ==> backups[j] != Backup(index, true)
    decreases |backups| - k
  {
    if k >= |backups| then None
    else if backups[k] == Backup(index, true) then Some(k)
    else FindFrom(backups, index, k + 1)
  }

  function FindBackup(backups: seq<Backup>, index: nat): (r: Option<nat>)
    ensures r.Some? ==> r.value < |backups| && backups[r.value] == Backup(index, true)
    ensures r.None? <==> Backup(index, true) !in backups
  {
    FindFrom(backups, index, 0)
  }

  function Record(s: State, index: nat): State {
    if |s.backups| < MAX_PAGES then s.(backups := s.backups + [Backup(index, true)], active := true) else s
  }

  function AddPage(s: State, index: nat, page: Page): (State, Code) {
    if IsCached(s, index) then (s, EEXIST)
    else
      var t := Record(AddRef(s.(owner := s.owner[page := index]), page, 1), index);
      (t.(slots := t.slots[index := Cached(page)], nrpages := t.nrpages + 1, adds := t.adds + 1), OK)
  }

  /** `delete_from_page_cache` and the release of the last reference. */
  function DropPage(s: State, index: nat): State
    requires IsCached(s, index)
  {
    var p := s.slots[index].page;
    AddRef(s, p, -1).(slots := s.slots - {index}, nrpages := s.nrpages - 1, owner := s.owner - {p})
  }

  /** One page of a replace request; `frames` is what the kernel's page tables resolve an address to. */
  function ReplacePage(s: State, frames: map<nat, nat>, index: nat, vaddr: nat): (State, Code) {
    if vaddr !in frames then (s, ENOMEM)
    else AddPage(if IsCached(s, index) then DropPage(s, index) else s, index, Kernel(frames[vaddr]))
  }

  function RestorePage(s: State, index: nat): (State, Code) {
    if !s.active || FindBackup(s.backups, index).None? || !IsCached(s, index) then (s, ENOENT)
    else
      var p := s.slots[index].page;
      var k := FindBackup(s.backups, index).value;
      (AddRef(s, p, -1).(slots := s.slots - {index}, nrpages := if s.nrpages > 0 then s.nrpages - 1 else s.nrpages,
                         owner := s.owner - {p}, backups := s.backups[k := Backup(index, false)]), OK)
  }

  /** A page of a request: page index and kernel address. */
  type Target = (nat, nat)

  /** The pages of a request one by one, up to the first that fails. */
  function ReplacePages(s: State, frames: map<nat, nat>, pages: seq<Target>): (State, Code)
    decreases |pages|
  {
    if pages == [] then (s, OK)
    else
      var (t, code) := ReplacePage(s, frames, pages[0].0, pages[0].1);
      if code != OK then (t, code) else ReplacePages(t, frames, pages[1..])
  }

  function RestorePages(s: State, indices: seq<nat>): (State, Code)
    decreases |indices|
  {
    if indices == [] then (s, OK)
    else
      var (t, code) := RestorePage(s, indices[0]);
      if code != OK then (t, code) else RestorePages(t, indices[1..])
  }

  /** A page fault or a read of the file: a miss is filled from disk. */
  function Touch(s: State, index: nat): State {
    if IsCached(s, index) then s
    else
      var p := Disk(s.serial);
      AddRef(s, p, 1).(slots := s.slots[index := Cached(p)], nrpages := s.nrpages + 1, owner := s.owner[p := index],
                       serial := s.serial + 1)
  }

  /** Reclaim of a clean file page, which leaves a shadow entry behind; grafted pages are on no list of such pages. */
  function Reclaim(s: State, index: nat): State {
    if IsCached(s, index) && !IsGrafted(s, index) then DropPage(s, index).(slots := s.slots[index := Shadow]) else s
  }

  /** The records from number `k` on, each restored if it is still live; failures are only logged. */
  function UnloadFrom(s: State, k: nat): State
    decreases |s.backups| - k
  {
    if k >= |s.backups| then s.(backups := [], active := false)
    else
      UnloadFrom(if s.backups[k].live then RestorePage(s, s.backups[k].index).0 else s, k + 1)
  }

  function Unload(s: State): State {
    if s.active then UnloadFrom(s, 0) else s
  }
}
