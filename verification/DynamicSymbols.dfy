/**
 The dynamic symbol tables of the generated DSO: which symbols become dynamic, their order, the string table, the symbol
 table and the relocations that point into it.
 */
module DynamicSymbols {
  import opened CStrings
  import opened Options
  import opened Powers
  import opened Sorting

  /** `ResolvedSymbol`, as far as the dynamic tables use it; identity is object identity. */
  class Symbol {
    const name: string
    const defined: bool
    const kind: nat
    const section: Option<string>
    const size: nat
    const virtualAddress: int
    const exportOrder: nat
    const originalOrder: nat
    var hash: nat
    var bucket: nat
    var dynsymIndex: nat

    constructor (name: string, defined: bool, kind: nat, section: Option<string>, size: nat, virtualAddress: int,
                 exportOrder: nat, originalOrder: nat)
      ensures this.name == name && this.defined == defined && this.virtualAddress == virtualAddress
      ensures this.kind == kind && this.section == section && this.size == size
      ensures this.exportOrder == exportOrder && this.originalOrder == originalOrder
    {
      this.name, this.defined, this.virtualAddress := name, defined, virtualAddress;
      this.kind, this.section, this.size := kind, section, size;
      this.exportOrder, this.originalOrder := exportOrder, originalOrder;
    }
  }

  /** `gnu_hash`: 32-bit arithmetic. */
  function GnuHash(name: string): (h: nat)
    ensures h < 0x1_0000_0000
  {
    if name == "" then 5381
    else (GnuHash(name[..|name| - 1]) * 33 + name[|name| - 1] as nat) % 0x1_0000_0000
  }

  /** The characters as digits of a number to the base 33, the last one lowest. */
  function Base33(name: string): nat {
    if name == "" then 0 else name[0] as nat * Pow(33, |name| - 1) + Base33(name[1..])
  }

  lemma {:induction false} Base33Last(name: string, c: char)
    ensures Base33(name + [c]) == 33 * Base33(name) + c as nat
  {
    if name == "" {
      assert ([c])[1..] == "" && "" + [c] == [c];
      assert Base33([c]) == c as nat * Pow(33, 0) + Base33("");
    } else {
      assert (name + [c])[1..] == name[1..] + [c];
      Base33Last(name[1..], c);
      PowerUp(name[0] as nat, |name| - 1);
    }
  }

  lemma PowerUp(d: nat, n: nat)
    ensures d * Pow(33, n + 1) == 33 * (d * Pow(33, n))
  {
    assert Pow(33, n + 1) == 33 * Pow(33, n);
  }

  /** The hash is the name as a number to the base 33 behind a leading 5381, cut to 32 bits. */
  lemma {:induction false} GnuHashIsNumber(name: string)
    ensures GnuHash(name) == (5381 * Pow(33, |name|) + Base33(name)) % 0x1_0000_0000
  {
    if name == "" {
      assert Pow(33, 0) == 1;
    } else {
      var init, last := name[..|name| - 1], name[|name| - 1];
      GnuHashIsNumber(init);
      assert name == init + [last];
      Base33Last(init, last);
      PowerUp(5381, |init|);
      TimesCut(5381 * Pow(33, |init|) + Base33(init), last as nat);
    }
  }

  lemma TimesCut(v: nat, c: nat)
    ensures (v % 0x1_0000_0000 * 33 + c) % 0x1_0000_0000 == (33 * v + c) % 0x1_0000_0000
  {
    var q, r := v / 0x1_0000_0000, v % 0x1_0000_0000;
    assert 33 * v + c == (r * 33 + c) + 0x1_0000_0000 * (33 * q);
    SameCut(r * 33 + c, 33 * q);
  }

  lemma SameCut(v: nat, q: nat)
    ensures (v + 0x1_0000_0000 * q) % 0x1_0000_0000 == v % 0x1_0000_0000
  {
  }

  method ComputeGnuHash(name: string) returns (h: nat)
    ensures h == GnuHash(name)
  {
    h := 5381;
    for i := 0 to |name|
      invariant h == GnuHash(name[..i])
    {
      assert name[..i + 1][..i] == name[..i];
      h := (h * 33 + name[i] as nat) % 0x1_0000_0000;
    }
    assert name[..|name|] == name;
  }

  // ---------------------------------------------------------------------------------------------
  // Which symbols, and in which order

  /** Each object where it occurs first. */
  function Firsts(candidates: seq<Symbol>): seq<Symbol> {
    if candidates == [] then []
    else
      var init, last := candidates[..|candidates| - 1], candidates[|candidates| - 1];
      Firsts(init) + if last in init then [] else [last]
  }

  /** The first occurrence of each object, in their order. */
  method Deduplicate(candidates: seq<Symbol>) returns (r: seq<Symbol>)
    ensures r == Firsts(candidates)
    ensures Distinct(r) && forall s :: s in r <==> s in candidates
  {
    r := [];
    var seen: set<Symbol> := {};
    for i := 0 to |candidates|
      invariant r == Firsts(candidates[..i]) && Distinct(r) && forall s :: s in r <==> s in candidates[..i]
      invariant forall s :: s in seen <==> s in r
    {
      assert candidates[..i + 1] == candidates[..i] + [candidates[i]];
      assert candidates[..i + 1][..i] == candidates[..i];
      if candidates[i] !in seen {
        r := r + [candidates[i]];
        seen := seen + {candidates[i]};
      }
    }
    assert candidates[..|candidates|] == candidates;
  }

  function Bucket(s: Symbol, nbuckets: nat): nat
    requires nbuckets > 0
  {
    GnuHash(s.name) % nbuckets
  }

  function Max(a: nat, b: nat): nat { if a > b then a else b }

  function Buckets(n: nat): (b: nat)
    ensures b > 0
  {
    if n == 0 then 1 else Max(3, n)
  }

  function BloomSize(n: nat): (b: nat)
    ensures b > 0
  {
    if n == 0 then 1 else Max(1, (n + 63) / 64)
  }

  /** The sort key: bucket, defined symbols first, export order, original order. */
  function Key(s: Symbol, nbuckets: nat): seq<nat>
    requires nbuckets > 0
  {
    [Bucket(s, nbuckets), if s.defined then 0 else 1, s.exportOrder, s.originalOrder]
  }

  ghost predicate Ordered(syms: seq<Symbol>, nbuckets: nat)
    requires nbuckets > 0
  {
    forall j, k :: 0 <= j < k < |syms| ==> KeyLe(Key(syms[j], nbuckets), Key(syms[k], nbuckets))
  }

  /** By bucket; in a bucket defined symbols first; then by export order and by original order. */
  ghost predicate InOrder(s: Symbol, t: Symbol, nbuckets: nat)
    requires nbuckets > 0
  {
    var b, c := GnuHash(s.name) % nbuckets, GnuHash(t.name) % nbuckets;
    b < c || (b == c &&
      ((s.defined && !t.defined) || (s.defined == t.defined &&
        (s.exportOrder < t.exportOrder || (s.exportOrder == t.exportOrder && s.originalOrder <= t.originalOrder)))))
  }

  lemma OrderMeans(syms: seq<Symbol>, nbuckets: nat)
    requires nbuckets > 0 && Ordered(syms, nbuckets)
    ensures forall j, k :: 0 <= j < k < |syms| ==> InOrder(syms[j], syms[k], nbuckets)
  {
    hide KeyLe, Ordered, GnuHash;
    forall j, k | 0 <= j < k < |syms| ensures InOrder(syms[j], syms[k], nbuckets) {
      OrderOfTwo(syms, nbuckets, j, k);
      var x, y := Key(syms[j], nbuckets), Key(syms[k], nbuckets);
      FourKeys(x, y);
    }
  }

  lemma OrderOfTwo(syms: seq<Symbol>, nbuckets: nat, j: nat, k: nat)
    requires nbuckets > 0 && Ordered(syms, nbuckets) && j < k < |syms|
    ensures KeyLe(Key(syms[j], nbuckets), Key(syms[k], nbuckets))
  {
  }

  lemma FourKeys(x: seq<nat>, y: seq<nat>)
    requires |x| == |y| == 4 && KeyLe(x, y)
    ensures x[0] < y[0] || (x[0] == y[0] && (x[1] < y[1] || (x[1] == y[1] &&
              (x[2] < y[2] || (x[2] == y[2] && x[3] <= y[3])))))
  {
    KeyStep(x, y);
    KeyStep(x[1..], y[1..]);
    KeyStep(x[1..][1..], y[1..][1..]);
    KeyStep(x[1..][1..][1..], y[1..][1..][1..]);
  }

  lemma KeyStep(x: seq<nat>, y: seq<nat>)
    requires x != [] && y != []
    ensures KeyLe(x, y) <==> x[0] < y[0] || (x[0] == y[0] && KeyLe(x[1..], y[1..]))
  {
  }

  // ---------------------------------------------------------------------------------------------
  // String table, symbol table, relocations

  const RELATIVE: nat := 8

  const SHN_ABS: nat := 0xfff1

  const GLOBAL: nat := 16

  /** An entry of `.dynsym`; section 0 makes it undefined for the loader. */
  datatype Entry = Entry(nameOffset: nat, info: nat, section: nat, value: nat, size: nat)

  datatype DataReloc = DataReloc(offset: nat, symbol: Option<Symbol>, addend: int, rtype: nat)

  /** `r_info` holds the symbol index in its upper half. */
  datatype Rela = Rela(offset: int, info: nat, addend: int) {
    function SymbolIndex(): nat { info / 0x1_0000_0000 }

    function Type(): nat { info % 0x1_0000_0000 }
  }

  /** The value a symbol is listed with. */
  function SymbolValue(s: Symbol): nat {
    (if s.defined then s.virtualAddress else 0) % 0x1_0000_0000_0000_0000
  }

  /** The section a symbol is listed with. */
  function SectionIndex(s: Symbol, indices: map<string, nat>): nat {
    match s.section
    case None => if s.defined then SHN_ABS else 0
    case Some(name) => if name in indices then indices[name] else 0
  }

  function EntryOf(s: Symbol, nameOffset: nat, indices: map<string, nat>): Entry {
    Entry(nameOffset, GLOBAL + s.kind, SectionIndex(s, indices), SymbolValue(s), s.size)
  }

  function TargetsOf(relocations: seq<DataReloc>): seq<Symbol> {
    if relocations == [] then []
    else
      var init, last := relocations[..|relocations| - 1], relocations[|relocations| - 1];
      TargetsOf(init) + if last.symbol.Some? then [last.symbol.value] else []
  }

  method CollectTargets(relocations: seq<DataReloc>) returns (targets: seq<Symbol>)
    ensures targets == TargetsOf(relocations)
    ensures forall r :: r in relocations && r.symbol.Some? ==> r.symbol.value in targets
    ensures forall s :: s in targets ==> exists r :: r in relocations && r.symbol == Some(s)
  {
    targets := [];
    for i := 0 to |relocations|
      invariant targets == TargetsOf(relocations[..i])
      invariant forall r :: r in relocations[..i] && r.symbol.Some? ==> r.symbol.value in targets
      invariant forall s :: s in targets ==> exists r :: r in relocations && r.symbol == Some(s)
    {
      assert relocations[..i + 1] == relocations[..i] + [relocations[i]];
      assert relocations[..i + 1][..i] == relocations[..i];
      if relocations[i].symbol.Some? {
        assert relocations[i] in relocations && relocations[i].symbol == Some(relocations[i].symbol.value);
        targets := targets + [relocations[i].symbol.value];
      }
    }
    assert relocations[..|relocations|] == relocations;
  }

  class Tables {
    const needed: seq<string>
    const relocations: seq<DataReloc>
    const sectionIndices: map<string, nat>
    const nbuckets: nat
    ghost const symbols: set<Symbol>
    var dynamic: seq<Symbol>
    var dynstr: string
    var offsets: map<string, nat>
    var dynsym: seq<Entry>

    ghost predicate Valid()
      reads this
    {
      && nbuckets == Buckets(|dynamic|)
      && Distinct(dynamic) && symbols == (set s | s in dynamic)
      && (forall s :: s in dynamic ==> NulFree(s.name)) && (forall n :: n in needed ==> NulFree(n))
      && (forall r :: r in relocations && r.symbol.Some? ==> r.symbol.value in dynamic)
    }

    ghost predicate StringsBuilt()
      reads this
    {
      && (forall n :: n in offsets ==> Holds(dynstr, offsets[n], n))
      && (forall s :: s in dynamic ==> s.name in offsets)
      && (forall n :: n in needed ==> n in offsets)
    }

    /** Exports, imports and relocation targets, each object once. */
    constructor (exports: seq<Symbol>, imports: seq<Symbol>, needed: seq<string>, relocations: seq<DataReloc>,
                 sectionIndices: map<string, nat>)
      requires forall s :: s in exports || s in imports ==> NulFree(s.name)
      requires forall r :: r in relocations && r.symbol.Some? ==> NulFree(r.symbol.value.name)
      requires forall n :: n in needed ==> NulFree(n)
      ensures Valid() && this.needed == needed && this.relocations == relocations
      ensures this.sectionIndices == sectionIndices
      ensures dynamic == Firsts(exports + imports + TargetsOf(relocations))
      ensures nbuckets == if dynamic == [] then 1 else if |dynamic| <= 3 then 3 else |dynamic|
    {
      var targets := CollectTargets(relocations);
      var all := Deduplicate(exports + imports + targets);
      this.needed, this.relocations, this.sectionIndices, nbuckets := needed, relocations, sectionIndices, Buckets(|all|);
      symbols := set s | s in all;
      dynamic, dynstr, offsets, dynsym := all, "", map[], [];
    }

    /** Hash values and buckets are filled in and the symbols brought into bucket order. */
    method ReorderSymbolsForHash()
      requires Valid()
      modifies this`dynamic, symbols
      ensures Valid() && Ordered(dynamic, nbuckets) && multiset(dynamic) == multiset(old(dynamic))
      ensures forall j, k :: 0 <= j < k < |dynamic| ==> InOrder(dynamic[j], dynamic[k], nbuckets)
      ensures forall s :: s in dynamic ==> s.hash == GnuHash(s.name) && s.bucket == Bucket(s, nbuckets)
    {
      for i := 0 to |dynamic|
        invariant dynamic == old(dynamic)
        invariant forall j :: 0 <= j < i ==> dynamic[j].hash == GnuHash(dynamic[j].name)
        invariant forall j :: 0 <= j < i ==> dynamic[j].bucket == Bucket(dynamic[j], nbuckets)
      {
        dynamic[i].hash := ComputeGnuHash(dynamic[i].name);
        dynamic[i].bucket := dynamic[i].hash % nbuckets;
      }
      ghost var before := dynamic;
      dynamic := SortBy(dynamic, s => Key(s, nbuckets));
      SameElements(dynamic, before);
      OrderMeans(dynamic, nbuckets);
    }

    method AddString(name: string)
      requires forall n :: n in offsets ==> Holds(dynstr, offsets[n], n)
      modifies this`dynstr, this`offsets
      ensures forall n :: n in offsets ==> Holds(dynstr, offsets[n], n)
      ensures forall n :: n in offsets <==> n in old(offsets) || n == name
    {
      if name !in offsets {
        ghost var before := dynstr;
        offsets := offsets[name := |dynstr|];
        dynstr := dynstr + name + [NUL];
        forall n | n in offsets ensures Holds(dynstr, offsets[n], n) {
          if n != name {
            assert Holds(before, offsets[n], n);
            assert dynstr[offsets[n]..offsets[n] + |n|] == before[offsets[n]..offsets[n] + |n|];
          } else {
            assert dynstr[|before|..|before| + |name|] == name;
          }
        }
      }
    }

    /** Names of symbols and libraries, equal strings stored once. */
    method BuildDynstr()
      requires Valid()
      modifies this`dynstr, this`offsets
      ensures Valid() && StringsBuilt()
    {
      hide Holds;
      dynstr, offsets := [NUL], map[];
      for i := 0 to |dynamic|
        invariant forall n :: n in offsets ==> Holds(dynstr, offsets[n], n)
        invariant forall j :: 0 <= j < i ==> dynamic[j].name in offsets
      {
        AddString(dynamic[i].name);
      }
      for i := 0 to |needed|
        invariant forall n :: n in offsets ==> Holds(dynstr, offsets[n], n)
        invariant forall j :: 0 <= j < |dynamic| ==> dynamic[j].name in offsets
        invariant forall j :: 0 <= j < i ==> needed[j] in offsets
      {
        AddString(needed[i]);
      }
    }

    ghost predicate SymbolsBuilt()
      reads this, dynamic
    {
      && StringsBuilt()
      && |dynsym| == |dynamic| + 1
      && (forall i :: 0 <= i < |dynamic| ==>
            && dynamic[i].dynsymIndex == i + 1
            && dynsym[i + 1] == EntryOf(dynamic[i], offsets[dynamic[i].name], sectionIndices))
    }

    /** The null entry and one entry per dynamic symbol, which learns its index. */
    method BuildDynsym()
      requires Valid() && StringsBuilt()
      modifies this`dynsym, symbols`dynsymIndex
      ensures Valid() && SymbolsBuilt()
      ensures dynsym[0] == Entry(0, 0, 0, 0, 0)
      ensures forall i :: 0 <= i < |dynamic| ==>
                && dynsym[i + 1].info == 16 + dynamic[i].kind && dynsym[i + 1].size == dynamic[i].size
                && dynsym[i + 1].value ==
                     (if dynamic[i].defined then dynamic[i].virtualAddress % 0x1_0000_0000_0000_0000 else 0)
                && dynsym[i + 1].section == (match dynamic[i].section
                                             case None => (if dynamic[i].defined then 0xfff1 else 0)
                                             case Some(n) => (if n in sectionIndices then sectionIndices[n] else 0))
    {
      dynsym := [Entry(0, 0, 0, 0, 0)];
      for i := 0 to |dynamic|
        invariant |dynsym| == i + 1 && dynsym[0] == Entry(0, 0, 0, 0, 0)
        invariant forall j :: 0 <= j < i ==>
                    && dynamic[j].dynsymIndex == j + 1
                    && dynsym[j + 1] == EntryOf(dynamic[j], offsets[dynamic[j].name], sectionIndices)
      {
        dynsym := dynsym + [EntryOf(dynamic[i], offsets[dynamic[i].name], sectionIndices)];
        dynamic[i].dynsymIndex := i + 1;
      }
    }

    /** What the loader makes of an entry's symbol index. */
    ghost predicate ResolvesTo(rela: Rela, s: Symbol)
      reads this
    {
      && rela.SymbolIndex() < |dynsym|
      && CString(dynstr, dynsym[rela.SymbolIndex()].nameOffset) == s.name
      && dynsym[rela.SymbolIndex()] == EntryOf(s, dynsym[rela.SymbolIndex()].nameOffset, sectionIndices)
    }

    /** An entry of `.rela.dyn` does what its relocation asks for. */
    ghost predicate Patches(rela: Rela, x: DataReloc, dataAddress: int)
      reads this
    {
      && rela.offset == dataAddress + x.offset && rela.addend == x.addend && rela.Type() == x.rtype
      && (x.rtype == RELATIVE ==> rela.SymbolIndex() == 0)
      && (x.rtype != RELATIVE ==> x.symbol.Some? && ResolvesTo(rela, x.symbol.value))
    }

    /**
     `.rela.dyn`. Every entry patches its own slot, and its symbol index leads to the name, the section and the value of
     the symbol the relocation was made for, however names are shared among symbols and libraries.
     */
    method BuildRelocations(dataAddress: int) returns (r: Result<seq<Rela>, nat>)
      requires Valid() && SymbolsBuilt()
      requires forall x :: x in relocations ==> x.rtype < 0x1_0000_0000
      ensures r.Err? <==> exists x :: x in relocations && x.rtype != RELATIVE && x.symbol.None?
      ensures r.Ok? ==> |r.value| == |relocations| && forall k :: 0 <= k < |relocations| ==>
                Patches(r.value[k], relocations[k], dataAddress)
    {
      hide Patches;
      var entries: seq<Rela> := [];
      for i := 0 to |relocations|
        invariant |entries| == i
        invariant forall k :: 0 <= k < i ==>
                    (relocations[k].rtype != RELATIVE ==> relocations[k].symbol.Some?)
                    && Patches(entries[k], relocations[k], dataAddress)
      {
        var x := relocations[i];
        var index := 0;
        if x.rtype != RELATIVE {
          if x.symbol.None? {
            return Err(x.offset);
          }
          index := x.symbol.value.dynsymIndex;
        }
        PatchedBy(x, index, dataAddress);
        entries := entries + [Rela(dataAddress + x.offset, index * 0x1_0000_0000 + x.rtype, x.addend)];
      }
      r := Ok(entries);
    }

    lemma PatchedBy(x: DataReloc, index: nat, dataAddress: int)
      requires Valid() && SymbolsBuilt() && x in relocations && x.rtype < 0x1_0000_0000
      requires if x.rtype == RELATIVE then index == 0 else x.symbol.Some? && index == x.symbol.value.dynsymIndex
      ensures Patches(Rela(dataAddress + x.offset, index * 0x1_0000_0000 + x.rtype, x.addend), x, dataAddress)
    {
      hide Valid, SymbolsBuilt, EntryOf, CString;
      var rela := Rela(dataAddress + x.offset, index * 0x1_0000_0000 + x.rtype, x.addend);
      assert rela.SymbolIndex() == index && rela.Type() == x.rtype;
      if x.rtype != RELATIVE {
        TargetIsDynamic(x);
        IndexResolves(x.symbol.value, index);
      }
    }

    lemma TargetIsDynamic(x: DataReloc)
      requires Valid() && x in relocations && x.symbol.Some?
      ensures x.symbol.value in dynamic
    {
    }

    lemma IndexResolves(s: Symbol, index: nat)
      requires Valid() && SymbolsBuilt() && s in dynamic && index == s.dynsymIndex
      ensures index < |dynsym| && dynsym[index] == EntryOf(s, dynsym[index].nameOffset, sectionIndices)
      ensures CString(dynstr, dynsym[index].nameOffset) == s.name
    {
      var i :| 0 <= i < |dynamic| && dynamic[i] == s;
      ReadsName(dynstr, offsets[s.name], s.name);
    }
  }
}
