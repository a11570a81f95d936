/** The point of the layout: with the kernel's pages in place, DSO addresses are kernel addresses, moved by one constant. */
module Graft {
  import opened Alignment
  import opened DsoSymbols
  import opened Layout
  import opened LayoutProperties
  import opened PageMappings

  /** The address in the kernel that `v` stands for. */
  function Translated(d: Dso, v: int): int { v - TEXT_BASE_VADDR + d.low }

  /** The page of the file from which the loader takes address `v` of sparse section `k`. */
  function FilePage(d: Dso, k: nat, v: int): int
    requires k < |d.sparse|
  {
    var byte := d.sparse[k].offset + (v - d.sparse[k].addr);
    byte - byte % PAGE
  }

  /** The full list of mappings, as the builder returns it. */
  ghost predicate IsPageMap(d: Dso, synthetic: set<nat>, maps: seq<Mapping>) {
    Ascending(maps) && forall m :: m in maps <==> IsMapped(d, synthetic, m)
  }

  /** The slot behind an address. */
  lemma SlotOfAddress(d: Dso, k: nat, v: int) returns (i: nat)
    requires Consistent(d) && PageAligned(d.low) && k < |d.sparse| && InMemory(d.sparse[k], v)
    ensures IsSlot(d, k, i) && MapOf(d, k, i).fileOffset == FilePage(d, k, v)
    ensures MapOf(d, k, i).kernel + v % PAGE == Translated(d, v)
    ensures Translated(d, v) >= 0 && MapOf(d, k, i).kernel == Translated(d, v) - Translated(d, v) % PAGE
  {
    SparseLoadable(d.Regions(), d.low, d.sparse, k);
    assert SparseIs(d.Regions(), d.low, k, d.sparse[k]);
    SizeIsPaged(d.Regions(), k);
    var s := d.sparse[k];
    i := (v - s.addr) / PAGE;
    SameRemainder(s.offset, s.addr, d.Regions()[k].start, v);
  }

  lemma SameRemainder(offset: nat, addr: int, start: nat, v: int)
    requires PageAligned(offset) && PageAligned(addr) && PageAligned(start) && v >= addr
    ensures v % PAGE == (v - addr) % PAGE == (offset + (v - addr)) % PAGE == (start + (v - addr)) % PAGE
    ensures v - addr == PAGE * ((v - addr) / PAGE) + (v - addr) % PAGE
  {
  }

  /**
   For every address of a text or read-only segment outside synthetic pages: the file page behind it is in the page map
   exactly once, and there the kernel page that makes the address the translation of its kernel address.
   */
  lemma GraftTranslation(d: Dso, synthetic: set<nat>, maps: seq<Mapping>, k: nat, v: int) returns (t: nat)
    requires Consistent(d) && PageAligned(d.low) && IsPageMap(d, synthetic, maps)
    requires k < |d.sparse| && InMemory(d.sparse[k], v)
    requires Translated(d, v) - Translated(d, v) % PAGE !in synthetic
    ensures t < |maps| && maps[t].fileOffset == FilePage(d, k, v)
    ensures maps[t].kernel + v % PAGE == Translated(d, v)
    ensures forall u :: 0 <= u < |maps| && maps[u].fileOffset == FilePage(d, k, v) ==> u == t
  {
    hide Consistent, IsMapped, MapOf, FilePage, Translated;
    var i := SlotOfAddress(d, k, v);
    SlotIsMapped(d, synthetic, k, i);
    t :| 0 <= t < |maps| && maps[t] == MapOf(d, k, i);
  }

  /** A synthetic page keeps what the file holds: nothing is mapped there. */
  lemma SyntheticKept(d: Dso, synthetic: set<nat>, maps: seq<Mapping>, k: nat, v: int, t: nat)
    requires Consistent(d) && PageAligned(d.low) && IsPageMap(d, synthetic, maps)
    requires k < |d.sparse| && InMemory(d.sparse[k], v)
    requires Translated(d, v) - Translated(d, v) % PAGE in synthetic
    requires t < |maps|
    ensures maps[t].fileOffset != FilePage(d, k, v)
  {
    hide Consistent, MapOf, FilePage, Translated, IsSlot;
    var i := SlotOfAddress(d, k, v);
    assert maps[t] in maps;
    var l: nat, j: nat :| IsSlot(d, l, j) && MapOf(d, l, j) == maps[t];
    if maps[t].fileOffset == FilePage(d, k, v) {
      SlotUnique(d, k, i, l, j);
    }
  }

  /** Where a grafted address leads, according to the page map. */
  ghost predicate LeadsTo(d: Dso, maps: seq<Mapping>, v: int, a: int) {
    exists k: nat, t: nat :: k < |d.sparse| && InMemory(d.sparse[k], v) && t < |maps|
                             && maps[t].fileOffset == FilePage(d, k, v) && a == maps[t].kernel + v % PAGE
  }

  /** All addresses are moved alike, whatever section they are loaded from. */
  lemma LeadsToTranslated(d: Dso, synthetic: set<nat>, maps: seq<Mapping>, v: int, a: int)
    requires Consistent(d) && PageAligned(d.low) && IsPageMap(d, synthetic, maps) && LeadsTo(d, maps, v, a)
    ensures a == Translated(d, v)
  {
    hide Consistent, FilePage, Translated, IsMapped;
    var k: nat, t: nat :| k < |d.sparse| && InMemory(d.sparse[k], v) && t < |maps|
                          && maps[t].fileOffset == FilePage(d, k, v) && a == maps[t].kernel + v % PAGE;
    if Translated(d, v) - Translated(d, v) % PAGE in synthetic {
      SyntheticKept(d, synthetic, maps, k, v, t);
    } else {
      var u := GraftTranslation(d, synthetic, maps, k, v);
    }
  }

  /** So distances are those of the kernel: relative calls and references between grafted addresses stay right. */
  lemma DistancesKept(d: Dso, synthetic: set<nat>, maps: seq<Mapping>, v: int, a: int, w: int, b: int)
    requires Consistent(d) && PageAligned(d.low) && IsPageMap(d, synthetic, maps)
    requires LeadsTo(d, maps, v, a) && LeadsTo(d, maps, w, b)
    ensures w - v == b - a
  {
    hide Consistent, IsPageMap, LeadsTo;
    LeadsToTranslated(d, synthetic, maps, v, a);
    LeadsToTranslated(d, synthetic, maps, w, b);
  }

  /** A function or read-only object of the module is reached, at its own kernel address, by its virtual address. */
  lemma SymbolReachesKernel(d: Dso, synthetic: set<nat>, maps: seq<Mapping>, sym: Sym)
    requires Consistent(d) && PageAligned(d.low) && IsPageMap(d, synthetic, maps)
    requires sym.kept && (sym.kind == Func || sym.kind == RoObject) && SectionIs(sym, d.text, d.ro)
    requires sym.vaddr == TEXT_BASE_VADDR + (sym.address - d.low)
    requires sym.address - sym.address % PAGE !in synthetic
    ensures LeadsTo(d, maps, sym.vaddr, sym.address)
  {
    hide Consistent, IsPageMap, FilePage;
    var regions := if sym.kind == Func then d.text else d.ro;
    var r: int :| 0 <= r < |regions| && regions[r].start <= sym.address < regions[r].end;
    var k := if sym.kind == Func then r else |d.text| + r;
    assert d.Regions()[k] == regions[r];
    SectionOfRegion(d, k, sym.address);
    var t := GraftTranslation(d, synthetic, maps, k, sym.vaddr);
  }

  lemma SectionOfRegion(d: Dso, k: nat, a: nat)
    requires Consistent(d) && k < |d.Regions()| && d.Regions()[k].start <= a < d.Regions()[k].end
    ensures k < |d.sparse| && InMemory(d.sparse[k], TEXT_BASE_VADDR + (a - d.low))
  {
    assert SparseIs(d.Regions(), d.low, k, d.sparse[k]);
  }
}
