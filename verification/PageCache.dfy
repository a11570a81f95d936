/**
 The page-cache module as it runs: the backup array and its count, the cache slots, `nrpages`, reference counts and page
 fields are updated step by step. Every operation is proved to do what `PageCacheSpec` says.
 */
module PageCache {
  import opened Options
  import opened PageCacheSafety
  import opened PageCacheSpec

  /** A request as it arrives: `page_count` and the two fixed arrays, of which the first `page_count` entries count. */
  datatype Request = Request(count: int, offsets: seq<int>, vaddrs: seq<nat>) {
    ghost predicate Shaped() { |offsets| == |vaddrs| == MAX_PAGES }

    predicate CountValid() { 0 < count <= MAX_PAGES }

    ghost predicate Accepted()
      requires Shaped()
    {
      CountValid() && forall i :: 0 <= i < count ==> offsets[i] >= 0 && vaddrs[i] != 0
    }

    /** The page indices and addresses of an accepted request. */
    ghost function Targets(): (r: seq<Target>)
      requires Shaped() && Accepted()
    {
      seq(count, i requires 0 <= i < count => (offsets[i] / 0x1000, vaddrs[i]))
    }

    /** Restore requests carry no addresses. */
    ghost predicate RestoreAccepted()
      requires |offsets| == MAX_PAGES
    {
      CountValid() && forall i :: 0 <= i < count ==> offsets[i] >= 0
    }

    ghost function RestoreIndices(): (r: seq<nat>)
      requires |offsets| == MAX_PAGES && RestoreAccepted()
    {
      seq(count, i requires 0 <= i < count => offsets[i] / 0x1000)
    }
  }

  lemma NothingToRestore(s: State, indices: seq<nat>)
    requires !s.active
    ensures RestorePages(s, indices).0 == s
  {
  }

  class Module {
    const frames: map<nat, nat>
    var slots: map<nat, Slot>
    var nrpages: int
    var refs: map<Page, int>
    var owner: map<Page, nat>
    const backups: array<Backup>
    var backupCount: nat
    var isActive: bool
    var serial: nat
    ghost var adds: nat

    ghost predicate Valid()
      reads this
    {
      backups.Length == MAX_PAGES && backupCount <= MAX_PAGES
    }

    ghost function View(): State
      requires Valid()
      reads this, backups
    {
      State(slots, nrpages, refs, owner, backups[..backupCount], isActive, adds, serial)
    }

    /** `page_replace_init` */
    constructor (frames: map<nat, nat>)
      ensures Valid() && fresh(backups) && this.frames == frames && View() == INIT
    {
      this.frames := frames;
      slots, nrpages, refs, owner, backupCount, isActive, serial, adds := map[], 0, map[], map[], 0, false, 0, 0;
      backups := new Backup[MAX_PAGES](i => Backup(0, false));
    }

    method GetPage(p: Page)
      requires Valid()
      modifies this`refs
      ensures View() == AddRef(old(View()), p, 1)
    {
      refs := refs[p := (if p in refs then refs[p] else 0) + 1];
    }

    method PutPage(p: Page)
      requires Valid()
      modifies this`refs
      ensures View() == AddRef(old(View()), p, -1)
    {
      refs := refs[p := (if p in refs then refs[p] else 0) - 1];
    }

    method FindBackupInfo(index: nat) returns (r: Option<nat>)
      requires Valid()
      ensures r == FindBackup(View().backups, index)
    {
      for i := 0 to backupCount
        invariant FindFrom(View().backups, index, i) == FindBackup(View().backups, index)
      {
        if backups[i].index == index && backups[i].live {
          return Some(i);
        }
      }
      r := None;
    }

    method ClearBackupInfo(index: nat)
      requires Valid()
      modifies backups
      ensures var k := FindBackup(old(View()).backups, index);
              View() == if k.None? then old(View())
                        else old(View()).(backups := old(View()).backups[k.value := Backup(index, false)])
    {
      var entry := FindBackupInfo(index);
      if entry.Some? {
        backups[entry.value] := backups[entry.value].(live := false);
      }
    }

    method BackupPageInfo(index: nat)
      requires Valid()
      modifies this`backupCount, this`isActive, backups
      ensures Valid() && View() == Record(old(View()), index)
    {
      if backupCount < MAX_PAGES {
        backups[backupCount] := Backup(index, true);
        backupCount := backupCount + 1;
        isActive := true;
      }
    }

    method AddPageToCache(index: nat, page: Page) returns (code: Code)
      requires Valid()
      modifies this, backups
      ensures Valid() && (View(), code) == AddPage(old(View()), index, page)
    {
      if index in slots && !slots[index].Shadow? {
        return EEXIST;
      }
      owner := owner[page := index];
      GetPage(page);
      BackupPageInfo(index);
      slots := slots[index := Cached(page)];
      nrpages := nrpages + 1;
      adds := adds + 1;
      code := OK;
    }

    method RestorePageCache(index: nat) returns (code: Code)
      requires Valid()
      modifies this, backups
      ensures Valid() && (View(), code) == RestorePage(old(View()), index)
      ensures backupCount == old(backupCount)
    {
      hide FindBackup;
      if !isActive {
        return ENOENT;
      }
      var entry := FindBackupInfo(index);
      if entry.None? || index !in slots || slots[index].Shadow? {
        return ENOENT;
      }
      var page := slots[index].page;
      RemoveEntry(index, page);
      ClearBackupInfo(index);
      owner := owner - {page};
      PutPage(page);
      assert refs == AddRef(old(View()), page, -1).refs;
      code := OK;
    }

    /** The entry goes and with it the reference the cache held; the reference taken here is still there at the end. */
    method RemoveEntry(index: nat, page: Page)
      requires Valid()
      modifies this`slots, this`nrpages, this`refs
      ensures View() == AddRef(AddRef(old(View()), page, 1), page, -1).(
                          slots := old(slots) - {index},
                          nrpages := if old(nrpages) > 0 then old(nrpages) - 1 else old(nrpages))
    {
      GetPage(page);
      slots := slots - {index};
      if nrpages > 0 {
        nrpages := nrpages - 1;
      }
      PutPage(page);
    }

    method DeleteFromPageCache(index: nat)
      requires Valid() && IsCached(View(), index)
      modifies this
      ensures Valid() && backupCount == old(backupCount) && View() == DropPage(old(View()), index)
    {
      var page := slots[index].page;
      GetPage(page);
      slots := slots - {index};
      nrpages := nrpages - 1;
      owner := owner - {page};
      PutPage(page);
      PutPage(page);
    }

    method BatchProcessPages(pages: seq<Target>) returns (code: Code)
      requires Valid()
      modifies this, backups
      ensures Valid() && (View(), code) == ReplacePages(old(View()), frames, pages)
    {
      hide AddPage, DropPage;
      for i := 0 to |pages|
        invariant Valid()
        invariant ReplacePages(View(), frames, pages[i..]) == ReplacePages(old(View()), frames, pages)
      {
        assert pages[i..][1..] == pages[i + 1..];
        var (index, vaddr) := pages[i];
        if vaddr !in frames {
          return ENOMEM;
        }
        if index in slots && slots[index].Cached? {
          DeleteFromPageCache(index);
        }
        code := AddPageToCache(index, Kernel(frames[vaddr]));
        if code != OK {
          return;
        }
      }
      code := OK;
    }

    method BatchRestorePages(indices: seq<nat>) returns (code: Code)
      requires Valid()
      modifies this, backups
      ensures Valid() && (View(), code) == RestorePages(old(View()), indices)
    {
      hide RestorePage;
      for i := 0 to |indices|
        invariant Valid()
        invariant RestorePages(View(), indices[i..]) == RestorePages(old(View()), indices)
      {
        assert indices[i..][1..] == indices[i + 1..];
        code := RestorePageCache(indices[i]);
        if code != OK {
          return;
        }
      }
      code := OK;
    }

    /** A malformed replace request changes nothing; any other is handed on. */
    method ReceiveReplace(msg: Request)
      requires Valid() && msg.Shaped()
      modifies this, backups
      ensures Valid()
      ensures msg.Accepted() ==> View() == ReplacePages(old(View()), frames, msg.Targets()).0
      ensures !msg.Accepted() ==> View() == old(View())
    {
      hide ReplacePages;
      if !msg.CountValid() {
        return;
      }
      var pages: seq<Target> := [];
      for i := 0 to msg.count
        invariant Valid() && View() == old(View())
        invariant |pages| == i
        invariant forall j :: 0 <= j < i ==> msg.offsets[j] >= 0 && msg.vaddrs[j] != 0
        invariant forall j :: 0 <= j < i ==> pages[j] == (msg.offsets[j] / 0x1000, msg.vaddrs[j])
      {
        if msg.offsets[i] < 0 || msg.vaddrs[i] == 0 {
          return;
        }
        pages := pages + [(msg.offsets[i] / 0x1000, msg.vaddrs[i])];
      }
      assert pages == msg.Targets();
      var code := BatchProcessPages(pages);
    }

    /** A malformed restore request changes nothing, nor does any when there are no records. */
    method ReceiveRestore(msg: Request)
      requires Valid() && |msg.offsets| == MAX_PAGES
      modifies this, backups
      ensures Valid()
      ensures msg.RestoreAccepted() ==> View() == RestorePages(old(View()), msg.RestoreIndices()).0
      ensures !msg.RestoreAccepted() ==> View() == old(View())
    {
      hide RestorePages;
      if !msg.CountValid() {
        return;
      }
      var indices: seq<nat> := [];
      for i := 0 to msg.count
        invariant Valid() && View() == old(View())
        invariant |indices| == i
        invariant forall j :: 0 <= j < i ==> msg.offsets[j] >= 0 && indices[j] == msg.offsets[j] / 0x1000
      {
        if msg.offsets[i] < 0 {
          return;
        }
        indices := indices + [msg.offsets[i] / 0x1000];
      }
      assert indices == msg.RestoreIndices();
      if !isActive {
        NothingToRestore(View(), indices);
        return;
      }
      var code := BatchRestorePages(indices);
    }

    /** A file access that misses the cache. */
    method Fault(index: nat)
      requires Valid()
      modifies this
      ensures Valid() && View() == Touch(old(View()), index)
    {
      if index in slots && slots[index].Cached? {
        return;
      }
      var page := Disk(serial);
      serial := serial + 1;
      GetPage(page);
      owner := owner[page := index];
      slots := slots[index := Cached(page)];
      nrpages := nrpages + 1;
    }

    /** A clean page of the file's own is reclaimed, and leaves a shadow entry. */
    method ReclaimPage(index: nat)
      requires Valid()
      modifies this
      ensures Valid() && View() == Reclaim(old(View()), index)
    {
      if index in slots && slots[index].Cached? && !slots[index].page.Kernel? {
        DeleteFromPageCache(index);
        slots := slots[index := Shadow];
      }
    }

    method Perform(step: Step)
      requires Valid()
      modifies this, backups
      ensures Valid() && View() == Apply(old(View()), frames, step)
    {
      hide ReplacePages, RestorePages, Touch, Reclaim;
      match step {
        case Replace(pages) =>
          var code := BatchProcessPages(pages);
        case Restore(indices) =>
          var code := BatchRestorePages(indices);
        case Access(index) =>
          Fault(index);
        case Evict(index) =>
          ReclaimPage(index);
      }
    }

    /** Any sequence of steps, and what the module's fields keep throughout a session. */
    method RunSteps(steps: seq<Step>)
      requires Valid()
      modifies this, backups
      ensures Valid() && View() == Run(old(View()), frames, steps)
      ensures Inv(old(View())) && Session(old(View()), frames, steps) ==> Inv(View())
    {
      hide Apply, Inv, Session;
      ghost var before := View();
      for k := 0 to |steps|
        invariant Valid() && Run(View(), frames, steps[k..]) == Run(before, frames, steps)
      {
        assert steps[k..][1..] == steps[k + 1..];
        Perform(steps[k]);
      }
      if Inv(before) && Session(before, frames, steps) {
        RunKeeps(before, frames, steps);
      }
    }

    /** `page_replace_exit` */
    method Exit()
      requires Valid()
      modifies this, backups
      ensures Valid() && View() == Unload(old(View()))
    {
      hide RestorePage;
      if isActive {
        for i := 0 to backupCount
          invariant Valid() && backupCount == old(backupCount)
          invariant UnloadFrom(View(), i) == UnloadFrom(old(View()), 0)
        {
          if backups[i].live {
            var code := RestorePageCache(backups[i].index);
          }
        }
        backupCount := 0;
        isActive := false;
        assert backups[..0] == [];
      }
    }
  }
}
