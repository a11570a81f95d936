/** The tools as they are run: build, write the map, load it, send it, carry it out; and take it back. */
module Deployment {
  import opened Alignment
  import opened DsoBuilder
  import opened DsoSymbols
  import opened Graft
  import opened Layout
  import opened LayoutProperties
  import opened Options
  import opened PageCache
  import opened PageCacheSafety
  import opened PageCacheSpec
  import opened Manager
  import opened PageMapLoader
  import opened PageMapText
  import opened PageMappings
  import opened Regions
  import opened RestoreBatches
  import opened Session

  /** The file page that the loader maps at `v` is the kernel page of the translated address. */
  ghost predicate ShowsKernel(d: Dso, s: State, frames: map<nat, nat>, k: nat, v: int)
    requires k < |d.sparse|
  {
    var page, i := Translated(d, v) - Translated(d, v) % PAGE, FilePage(d, k, v) / PAGE;
    page in frames && i in s.slots && s.slots[i] == Cached(Kernel(frames[page]))
  }

  /** Address `a` of the kernel is in memory, from a page of the file in whose slot the kernel's page is. */
  ghost predicate ByteShown(d: Dso, s: State, frames: map<nat, nat>, a: nat) {
    && a - a % PAGE in frames
    && exists k: nat :: k < |d.sparse| && HoldsByte(d, d.sparse[k], a)
                        && PageBehind(d, d.sparse[k], a) in s.slots
                        && s.slots[PageBehind(d, d.sparse[k], a)] == Cached(Kernel(frames[a - a % PAGE]))
  }

  ghost predicate HoldsByte(d: Dso, section: Section, a: nat) {
    section.addr <= TEXT_BASE_VADDR + (a - d.low) < section.addr + section.size
  }

  /** The index of the file page from which the byte is loaded. */
  ghost function PageBehind(d: Dso, section: Section, a: nat): int {
    (section.offset + (TEXT_BASE_VADDR + (a - d.low) - section.addr)) / PAGE
  }

  /** All bytes of a symbol, apart from those on synthetic pages, are shown. */
  ghost predicate SymbolShown(d: Dso, s: State, frames: map<nat, nat>, synthetic: set<nat>, sym: Sym) {
    forall a: nat :: sym.address <= a < sym.address + sym.size && a - a % PAGE !in synthetic ==> ByteShown(d, s, frames, a)
  }

  /** The builder's part: the layout and the text of its page map. */
  method Build(b: Builder, synthetic: set<nat>) returns (text: Option<string>, ghost maps: seq<Mapping>)
    requires forall s :: s in b.extraText || s in b.extraRo ==> s.start <= s.end
    modifies b
    ensures IsPrepared(old(b.symbols), b.symbols, b.stub, b.extraText, b.extraRo, b.override, b.low, b.text, b.ro)
    ensures b.Prepared() && Consistent(b.View()) && IsLaid(b.View(), b.content, b.rwBase)
    ensures text.Some? ==>
              && IsPageMap(b.View(), synthetic, maps) && AllDifferent(maps) && maps != []
              && text.value == Concatenation.Flatten(Lines(maps))
    ensures text.None? ==>
              || (forall m :: !IsMapped(b.View(), synthetic, m))
              || exists page :: KernelPageTwice(b.View(), synthetic, page)
  {
    hide IsPrepared, IsMapped, KernelPageTwice, Lines, IsRwAddr, RowLaid, Shifted;
    b.LayOut();
    var d := Dso(b.low, b.text, b.ro, b.sparse, b.writable, b.tail, b.rwOffset, b.rwAddr, b.rwFileEnd, b.rwMemEnd,
                 b.headersOffset);
    var r := ReusablePageMappings(d, synthetic);
    match r {
      case Err(e) => return None, [];
      case Ok(found) =>
        maps := found;
        text := WritePageMap(found);
    }
  }

  /** Everything at once: from the builder's symbols to the page cache. */
  method Deploy(b: Builder, m: Module, synthetic: set<nat>, headers: nat, accepted: nat)
    returns (ok: bool, text: string, ghost maps: seq<Mapping>, ghost msgs: seq<Message>)
    requires forall s :: s in b.extraText || s in b.extraRo ==> s.start <= s.end
    requires m.Valid()
    modifies b, m, m.backups
    ensures IsPrepared(old(b.symbols), b.symbols, b.stub, b.extraText, b.extraRo, b.override, b.low, b.text, b.ro)
    ensures Consistent(b.View()) && IsLaid(b.View(), b.content, b.rwBase)
    ensures m.Valid() && WellSized(msgs) && m.View() == Deliver(old(m.View()), m.frames, msgs)
    ensures ok && InRange(b.View()) ==> IsPageMap(b.View(), synthetic, maps) && Sound(maps) && SaysPlan(msgs, maps)
    ensures ok ==> AllDifferent(maps) && maps != [] && text == Concatenation.Flatten(Lines(maps))
    ensures InRange(b.View()) && accepted >= Batches(|maps|) ==>
              (ok <==> (exists p :: IsMapped(b.View(), synthetic, p))
                       && forall page :: !KernelPageTwice(b.View(), synthetic, page))
    ensures ok && InRange(b.View()) && Inv(old(m.View())) && KernelFree(old(m.View())) && Resolves(m.frames, maps) ==>
              forall k: nat, v :: k < |b.sparse| && InMemory(b.sparse[k], v)
                                  && Translated(b.View(), v) - Translated(b.View(), v) % PAGE !in synthetic ==>
                ShowsKernel(b.View(), m.View(), m.frames, k, v)
    ensures ok && InRange(b.View()) && Inv(old(m.View())) && KernelFree(old(m.View())) && Resolves(m.frames, maps) ==>
              forall k :: 0 <= k < |b.symbols| && b.symbols[k].kept && b.symbols[k].kind in {Func, RoObject} ==>
                SymbolShown(b.View(), m.View(), m.frames, synthetic, b.symbols[k])
  {
    hide SymbolShown;
    hide IsPrepared, InRange, Consistent, IsLaid, IsPageMap, Sound, Inv, KernelFree, Resolves, IsMapped, KernelPageTwice;
    hide Deliver, Sent, Chunks, Lines, ShowsKernel, Translated, AreRegions, InMemory, AllDifferent, UsedBy, Acceptable;
    ghost var before := m.View();
    var built;
    built, maps := Build(b, synthetic);
    ghost var d := b.View();
    msgs := [];
    NothingDelivered(before, m.frames);
    if built.None? {
      ok, text := false, "";
      return;
    }
    text := built.value;
    ghost var plan;
    ok, plan, msgs := ReplaceCommand(m, text, b.headersOffset + headers, accepted);
    if InRange(d) {
      RegionsOf(old(b.symbols), b.symbols, b.stub, b.extraText, b.extraRo, b.override, b.low, b.text, b.ro);
      MapLoads(d, UsedBy(b.symbols, Func, b.extraText), UsedBy(b.symbols, RoObject, b.extraRo), b.content, b.rwBase,
               synthetic, maps, plan, b.headersOffset + headers);
      PageMapComplete(d, synthetic, maps);
      if ok && Inv(before) && KernelFree(before) && Resolves(m.frames, maps) {
        DeployedShows(d, synthetic, maps, before, m.View(), m.frames, msgs, b.symbols, b.extraText, b.extraRo);
      }
    }
  }

  lemma DeployedShows(d: Dso, synthetic: set<nat>, maps: seq<Mapping>, before: State, s: State, frames: map<nat, nat>,
                      msgs: seq<Message>, symbols: seq<Sym>, extraText: seq<Span>, extraRo: seq<Span>)
    requires Consistent(d) && PageAligned(d.low) && IsPageMap(d, synthetic, maps) && Sound(maps)
    requires Inv(before) && KernelFree(before) && Resolves(frames, maps) && SaysPlan(msgs, maps)
    requires s == Deliver(before, frames, msgs)
    requires AreRegions(d.text, ".text", UsedBy(symbols, Func, extraText))
    requires AreRegions(d.ro, ".rodata", UsedBy(symbols, RoObject, extraRo))
    ensures forall k: nat, v :: k < |d.sparse| && InMemory(d.sparse[k], v)
                                && Translated(d, v) - Translated(d, v) % PAGE !in synthetic ==>
              ShowsKernel(d, s, frames, k, v)
    ensures forall k :: 0 <= k < |symbols| && symbols[k].kept && symbols[k].kind in {Func, RoObject} ==>
              SymbolShown(d, s, frames, synthetic, symbols[k])
  {
    hide SymbolShown, Consistent, IsPageMap, Sound, Inv, KernelFree, Resolves, AreRegions, Deliver, Sent, ShowsKernel;
    hide Translated, InMemory;
    forall k: nat, v | k < |d.sparse| && InMemory(d.sparse[k], v)
                       && Translated(d, v) - Translated(d, v) % PAGE !in synthetic
      ensures ShowsKernel(d, s, frames, k, v)
    {
      Shown(d, synthetic, maps, before, frames, msgs, k, v);
    }
    forall k | 0 <= k < |symbols| && symbols[k].kept && symbols[k].kind in {Func, RoObject}
      ensures SymbolShown(d, s, frames, synthetic, symbols[k])
    {
      AllShown(d, synthetic, s, frames, symbols, extraText, extraRo, k);
    }
  }

  /** What restoring has left at the page of a mapping: the file's own page once more, or still the kernel's. */
  ghost predicate CameBack(before: State, after: State, frames: map<nat, nat>, maps: seq<Mapping>, k: nat)
    requires k < |maps|
  {
    var i := maps[k].fileOffset / PAGE;
    if before.adds + k < PageCacheSpec.MAX_PAGES then
      i !in after.slots && IsCached(Touch(after, i), i) && Touch(after, i).slots[i].page.Disk?
    else
      maps[k].kernel in frames && i in after.slots && after.slots[i] == Cached(Kernel(frames[maps[k].kernel]))
  }

  /** Deployed, and later restored by the same page map, as `replace --hold` does when a signal comes. */
  method Hold(b: Builder, m: Module, synthetic: set<nat>, headers: nat, accepted: nat, acceptedBack: nat)
    returns (ok: bool, restored: bool, ghost maps: seq<Mapping>)
    requires forall s :: s in b.extraText || s in b.extraRo ==> s.start <= s.end
    requires m.Valid()
    modifies b, m, m.backups
    ensures m.Valid() && IsLaid(b.View(), b.content, b.rwBase)
    ensures ok && InRange(b.View()) && acceptedBack >= Batches(|maps|) ==> restored
    ensures restored && InRange(b.View()) && Inv(old(m.View())) && KernelFree(old(m.View())) && Resolves(m.frames, maps) ==>
              && (forall k :: 0 <= k < |maps| ==> CameBack(old(m.View()), m.View(), m.frames, maps, k))
              && (KernelFree(m.View()) <==> old(m.adds) + |maps| <= PageCacheSpec.MAX_PAGES)
  {
    hide IsPrepared, InRange, Consistent, IsLaid, IsPageMap, Sound, Inv, KernelFree, Resolves, IsMapped, KernelPageTwice;
    hide Deliver, DeliverRestores, Sent, Asked, Chunks, Lines, ShowsKernel, Translated, CameBack;
    ghost var before := m.View();
    var text;
    ghost var msgs;
    ok, text, maps, msgs := Deploy(b, m, synthetic, headers, accepted);
    restored := false;
    if ok {
      ghost var plan, restores;
      restored, plan, restores := RestoreCommand(m, text, b.headersOffset + headers, acceptedBack);
      if InRange(b.View()) {
        RegionsOf(old(b.symbols), b.symbols, b.stub, b.extraText, b.extraRo, b.override, b.low, b.text, b.ro);
        MapLoads(b.View(), UsedBy(b.symbols, Func, b.extraText), UsedBy(b.symbols, RoObject, b.extraRo), b.content,
                 b.rwBase, synthetic, maps, plan, b.headersOffset + headers);
        if restored && Inv(before) && KernelFree(before) && Resolves(m.frames, maps) {
          AllComesBack(before, m.frames, maps, msgs, restores);
          forall k | 0 <= k < |maps| ensures CameBack(before, m.View(), m.frames, maps, k) {
            PageComesBack(before, m.frames, maps, msgs, restores, k);
          }
        }
      }
    }
  }

  lemma PageComesBack(s: State, frames: map<nat, nat>, maps: seq<Mapping>, msgs: seq<Message>,
                      restores: seq<RestoreMessage>, k: nat)
    requires Inv(s) && KernelFree(s) && Sound(maps) && Resolves(frames, maps) && k < |maps|
    requires SaysPlan(msgs, maps) && SaysRestore(restores, maps)
    ensures CameBack(s, DeliverRestores(Deliver(s, frames, msgs), restores), frames, maps, k)
  {
    hide Inv, KernelFree, Sound, Resolves, Sent, Asked, Deliver, DeliverRestores;
    FileComesBack(s, frames, maps, msgs, restores, k);
  }

  lemma RegionsOf(before: seq<Sym>, after: seq<Sym>, stub: nat, extraText: seq<Span>, extraRo: seq<Span>,
                  override: Option<nat>, low: nat, text: seq<Region>, ro: seq<Region>)
    requires IsPrepared(before, after, stub, extraText, extraRo, override, low, text, ro)
    ensures AreRegions(text, ".text", UsedBy(after, Func, extraText))
    ensures AreRegions(ro, ".rodata", UsedBy(after, RoObject, extraRo))
  {
  }

  lemma PageMapComplete(d: Dso, synthetic: set<nat>, maps: seq<Mapping>)
    requires IsPageMap(d, synthetic, maps) && AllDifferent(maps) && maps != []
    ensures (exists p :: IsMapped(d, synthetic, p)) && forall page :: !KernelPageTwice(d, synthetic, page)
  {
    hide IsMapped, KernelPageTwice;
    assert maps[0] in maps;
    forall page ensures !KernelPageTwice(d, synthetic, page) {
      NoneTwice(d, synthetic, maps, page);
    }
  }

  /** The manager finds the builder's list, and all of it in the file. */
  lemma MapLoads(d: Dso, used: seq<Span>, roUsed: seq<Span>, c: Content, rwBase: Option<nat>, synthetic: set<nat>,
                 maps: seq<Mapping>, plan: Option<seq<PageMapText.Entry>>, size: nat)
    requires Consistent(d) && AreRegions(d.text, ".text", used) && AreRegions(d.ro, ".rodata", roUsed) && InRange(d)
    requires IsLaid(d, c, rwBase) && size >= d.headersOffset
    requires IsPageMap(d, synthetic, maps) && AllDifferent(maps) && maps != []
    requires IsLoadedFrom(plan, Concatenation.Flatten(Lines(maps)))
    ensures plan == Some(EntriesOf(maps)) && Fits(plan, size) && Sound(maps)
  {
    hide Consistent, AreRegions, InRange, IsMapped, Printable, LineOf, Lines, Chunks, IsLaid;
    PlanIsBuilders(d, used, roUsed, c, rwBase, synthetic, maps, plan, size);
    forall k | 0 <= k < |maps| ensures Printable(maps[k]) {
      assert maps[k] in maps;
      MappingPrintable(d, used, roUsed, synthetic, maps[k]);
    }
  }

  lemma AllShown(d: Dso, synthetic: set<nat>, s: State, frames: map<nat, nat>, symbols: seq<Sym>, extraText: seq<Span>,
                 extraRo: seq<Span>, k: nat)
    requires Consistent(d) && k < |symbols| && symbols[k].kept && symbols[k].kind in {Func, RoObject}
    requires AreRegions(d.text, ".text", UsedBy(symbols, Func, extraText))
    requires AreRegions(d.ro, ".rodata", UsedBy(symbols, RoObject, extraRo))
    requires forall j: nat, v :: j < |d.sparse| && InMemory(d.sparse[j], v)
                                 && Translated(d, v) - Translated(d, v) % PAGE !in synthetic ==>
               ShowsKernel(d, s, frames, j, v)
    ensures SymbolShown(d, s, frames, synthetic, symbols[k])
  {
    hide Consistent, AreRegions, ShowsKernel, ByteShown;
    RegionsHoldBytes(symbols, Func, extraText, d.text, ".text");
    RegionsHoldBytes(symbols, RoObject, extraRo, d.ro, ".rodata");
    var sym := symbols[k];
    forall a: nat | sym.address <= a < sym.address + sym.size && a - a % PAGE !in synthetic
      ensures ByteShown(d, s, frames, a)
    {
      var regions := if sym.kind == Func then d.text else d.ro;
      assert InRegion(regions, a);
      var r :| 0 <= r < |regions| && regions[r].start <= a < regions[r].end;
      var j := if sym.kind == Func then r else |d.text| + r;
      assert d.Regions()[j] == regions[r];
      SectionOfRegion(d, j, a);
      OneShown(d, s, frames, j, a);
    }
  }

  lemma OneShown(d: Dso, s: State, frames: map<nat, nat>, j: nat, a: nat)
    requires j < |d.sparse| && InMemory(d.sparse[j], TEXT_BASE_VADDR + (a - d.low))
    requires ShowsKernel(d, s, frames, j, TEXT_BASE_VADDR + (a - d.low))
    ensures ByteShown(d, s, frames, a)
  {
    var v := TEXT_BASE_VADDR + (a - d.low);
    SamePage(d.sparse[j].offset + (v - d.sparse[j].addr));
    assert HoldsByte(d, d.sparse[j], a);
    assert PageBehind(d, d.sparse[j], a) == FilePage(d, j, v) / PAGE;
  }

  lemma SamePage(byte: int)
    ensures (byte - byte % PAGE) / PAGE == byte / PAGE
  {
  }

  lemma Shown(d: Dso, synthetic: set<nat>, maps: seq<Mapping>, s: State, frames: map<nat, nat>, msgs: seq<Message>,
              k: nat, v: int)
    requires Consistent(d) && PageAligned(d.low) && IsPageMap(d, synthetic, maps) && Sound(maps)
    requires Inv(s) && KernelFree(s) && Resolves(frames, maps) && SaysPlan(msgs, maps)
    requires k < |d.sparse| && InMemory(d.sparse[k], v)
    requires Translated(d, v) - Translated(d, v) % PAGE !in synthetic
    ensures ShowsKernel(d, Deliver(s, frames, msgs), frames, k, v)
  {
    hide Consistent, IsPageMap, Sound, Inv, KernelFree, Resolves, Sent, Deliver, FilePage, Translated;
    UserSeesKernel(d, synthetic, maps, s, frames, msgs, k, v);
  }
}
