/**
 The GNU hash table of the generated DSO against the look-up a loader performs on it.
 */
module GnuHashTable {
  import opened CStrings
  import opened DynamicSymbols
  import opened Options
  import opened Sorting

  const SHIFT: nat := 64   // 2 to the power of `gnu_bloom_shift`

  /** A 64-bit bloom word by its digits. */
  type BloomWord = w: seq<bool> | |w| == 64 witness seq(64, i => false)

  datatype HashTable = HashTable(bloom: seq<BloomWord>, buckets: seq<nat>, chains: seq<nat>)

  function HashesOf(names: seq<string>): (h: seq<nat>)
    ensures |h| == |names| && forall i :: 0 <= i < |names| ==> h[i] == GnuHash(names[i])
  {
    seq(|names|, i requires 0 <= i < |names| => GnuHash(names[i]))
  }

  // ---------------------------------------------------------------------------------------------
  // The table

  ghost predicate InBloom(t: HashTable, h: nat) {
    |t.bloom| > 0 && t.bloom[h / 64 % |t.bloom|][h % 64] && t.bloom[h / 64 % |t.bloom|][h / 64 % 64]
  }

  /** The first position of a bucket's symbols, counted from 1; 0 when it has none. */
  ghost predicate IsBucketStart(hs: seq<nat>, nbuckets: nat, b: nat, start: nat)
    requires nbuckets > 0
  {
    if start == 0 then forall i :: 0 <= i < |hs| ==> hs[i] % nbuckets != b
    else start <= |hs| && hs[start - 1] % nbuckets == b && forall i :: 0 <= i < start - 1 ==> hs[i] % nbuckets != b
  }

  ghost predicate SortedByBucket(hs: seq<nat>, nbuckets: nat)
    requires nbuckets > 0
  {
    forall i, j :: 0 <= i < j < |hs| ==> hs[i] % nbuckets <= hs[j] % nbuckets
  }

  /** The hash value of symbol `i` without its lowest digit, which says whether the bucket ends here. */
  function Chain(hs: seq<nat>, nbuckets: nat, i: nat): nat
    requires nbuckets > 0 && i < |hs|
  {
    hs[i] - hs[i] % 2 + if i + 1 == |hs| || hs[i + 1] % nbuckets != hs[i] % nbuckets then 1 else 0
  }

  ghost predicate IsTable(t: HashTable, hs: seq<nat>) {
    && |t.buckets| > 0
    && (forall i :: 0 <= i < |hs| ==> InBloom(t, hs[i]))
    && (forall b :: 0 <= b < |t.buckets| ==> IsBucketStart(hs, |t.buckets|, b, t.buckets[b]))
    && |t.chains| == |hs| && (forall i :: 0 <= i < |hs| ==> t.chains[i] == Chain(hs, |t.buckets|, i))
  }

  // ---------------------------------------------------------------------------------------------
  // Building it

  method AddToBloom(bloom: array<BloomWord>, h: nat)
    requires bloom.Length > 0
    modifies bloom
    ensures bloom[h / 64 % bloom.Length][h % 64] && bloom[h / 64 % bloom.Length][h / SHIFT % 64]
    ensures forall w, d :: 0 <= w < bloom.Length && 0 <= d < 64 && old(bloom[w])[d] ==> bloom[w][d]
  {
    var word := h / 64 % bloom.Length;
    bloom[word] := bloom[word][h % 64 := true][h / SHIFT % 64 := true];
  }

  method BuildBloom(hs: seq<nat>, size: nat) returns (bloom: array<BloomWord>)
    requires size > 0
    ensures bloom.Length == size
    ensures forall i :: 0 <= i < |hs| ==>
              bloom[hs[i] / 64 % size][hs[i] % 64] && bloom[hs[i] / 64 % size][hs[i] / 64 % 64]
  {
    bloom := new BloomWord[size](i => seq(64, d => false));
    for n := 0 to |hs|
      invariant forall i :: 0 <= i < n ==>
                  bloom[hs[i] / 64 % size][hs[i] % 64] && bloom[hs[i] / 64 % size][hs[i] / SHIFT % 64]
    {
      AddToBloom(bloom, hs[n]);
    }
  }

  /** Bucket starts and chains in one pass, closing the bucket before whenever a new one is opened. */
  method BuildChains(hs: seq<nat>, nbuckets: nat) returns (buckets: array<nat>, chains: array<nat>)
    requires nbuckets > 0 && SortedByBucket(hs, nbuckets)
    ensures buckets.Length == nbuckets && chains.Length == |hs|
    ensures forall b :: 0 <= b < nbuckets ==> IsBucketStart(hs, nbuckets, b, buckets[b])
    ensures forall i :: 0 <= i < |hs| ==> chains[i] == Chain(hs, nbuckets, i)
  {
    hide Chain, SortedByBucket, IsBucketStart;
    NoStarts(nbuckets);
    buckets := new nat[nbuckets](i => 0);
    chains := new nat[|hs|](i => 0);
    for n := 0 to |hs|
      invariant forall b :: 0 <= b < nbuckets ==> IsBucketStart(hs[..n], nbuckets, b, buckets[b])
      invariant forall i :: 0 <= i < n - 1 ==> chains[i] == Chain(hs, nbuckets, i)
      invariant n > 0 ==> chains[n - 1] == hs[n - 1] - hs[n - 1] % 2
    {
      var b := hs[n] % nbuckets;
      assert hs[..0] == [];
      forall d | 0 <= d < nbuckets
        ensures IsBucketStart(hs[..n + 1], nbuckets, d, if d == b && buckets[d] == 0 then n + 1 else buckets[d])
      {
        StartOfMore(hs, nbuckets, n, d, buckets[d]);
      }
      OpensBucket(hs, nbuckets, n, buckets[b]);
      if n > 0 {
        ChainEnds(hs, nbuckets, n - 1);
      }
      if buckets[b] == 0 {
        buckets[b] := n + 1;
        if n > 0 {
          chains[n - 1] := chains[n - 1] + 1;
        }
      }
      chains[n] := hs[n] - hs[n] % 2;
    }
    if |hs| > 0 {
      ChainEnds(hs, nbuckets, |hs| - 1);
      chains[|hs| - 1] := chains[|hs| - 1] + 1;
    }
    assert hs[..|hs|] == hs;
  }

  lemma NoStarts(nbuckets: nat)
    requires nbuckets > 0
    ensures forall b :: IsBucketStart([], nbuckets, b, 0)
  {
  }

  /** One more symbol: it starts its bucket if that has none yet, and changes no other. */
  lemma StartOfMore(hs: seq<nat>, nbuckets: nat, n: nat, d: nat, start: nat)
    requires nbuckets > 0 && n < |hs| && IsBucketStart(hs[..n], nbuckets, d, start)
    ensures IsBucketStart(hs[..n + 1], nbuckets, d, if d == hs[n] % nbuckets && start == 0 then n + 1 else start)
  {
    assert hs[..n + 1] == hs[..n] + [hs[n]];
  }

  lemma ChainEnds(hs: seq<nat>, nbuckets: nat, i: nat)
    requires nbuckets > 0 && i < |hs|
    ensures Chain(hs, nbuckets, i)
         == hs[i] - hs[i] % 2 + if i + 1 == |hs| || hs[i + 1] % nbuckets != hs[i] % nbuckets then 1 else 0
  {
  }

  /** In bucket order, a bucket that has no start yet is a new one, and differs from the one before. */
  lemma OpensBucket(hs: seq<nat>, nbuckets: nat, n: nat, start: nat)
    requires nbuckets > 0 && SortedByBucket(hs, nbuckets) && n < |hs|
    requires IsBucketStart(hs[..n], nbuckets, hs[n] % nbuckets, start)
    ensures n > 0 ==> (start == 0 <==> hs[n - 1] % nbuckets != hs[n] % nbuckets)
    ensures n == 0 ==> start == 0
  {
    if n > 0 && start != 0 {
      assert hs[start - 1] % nbuckets == hs[n] % nbuckets;
      assert start - 1 < n - 1 ==> hs[start - 1] % nbuckets <= hs[n - 1] % nbuckets;
    } else if n > 0 {
      assert hs[..n][n - 1] == hs[n - 1];
    }
  }

  // ---------------------------------------------------------------------------------------------
  // Looking up

  /** The loader's walk from chain position `i` on: compare, stop at a set lowest digit, go on otherwise. */
  function Walk(chains: seq<nat>, dynsym: seq<Entry>, dynstr: string, name: string, i: nat): Option<nat>
    requires i >= 1
    decreases |chains| - i
  {
    if i - 1 >= |chains| || i >= |dynsym| then None
    else if chains[i - 1] / 2 == GnuHash(name) / 2 && CString(dynstr, dynsym[i].nameOffset) == name then Some(i)
    else if chains[i - 1] % 2 == 1 then None
    else Walk(chains, dynsym, dynstr, name, i + 1)
  }

  function Lookup(t: HashTable, dynsym: seq<Entry>, dynstr: string, name: string): Option<nat>
    requires |t.bloom| > 0 && |t.buckets| > 0
  {
    var h := GnuHash(name);
    var word := t.bloom[h / 64 % |t.bloom|];
    if !word[h % 64] || !word[h / 64 % 64] then None
    else
      var start := t.buckets[h % |t.buckets|];
      if start == 0 then None else Walk(t.chains, dynsym, dynstr, name, start)
  }

  /** The symbol table lists the names in order, behind the null entry. */
  ghost predicate Lists(dynsym: seq<Entry>, dynstr: string, names: seq<string>) {
    |dynsym| == |names| + 1
    && forall i :: 0 <= i < |names| ==> CString(dynstr, dynsym[i + 1].nameOffset) == names[i]
  }

  lemma {:induction false} WalkFinds(t: HashTable, dynsym: seq<Entry>, dynstr: string, names: seq<string>, name: string,
                                     i: nat)
    requires IsTable(t, HashesOf(names)) && SortedByBucket(HashesOf(names), |t.buckets|) && Lists(dynsym, dynstr, names)
    requires 1 <= i <= |names| && GnuHash(names[i - 1]) % |t.buckets| == GnuHash(name) % |t.buckets|
    ensures Walk(t.chains, dynsym, dynstr, name, i).Some? ==>
              var r := Walk(t.chains, dynsym, dynstr, name, i).value;
              i <= r <= |names| && names[r - 1] == name && forall k :: i - 1 <= k < r - 1 ==> names[k] != name
    ensures Walk(t.chains, dynsym, dynstr, name, i).None? ==> forall k :: i - 1 <= k < |names| ==> names[k] != name
    decreases |names| - i
  {
    hide GnuHash, CString, IsTable;
    var hs, n := HashesOf(names), |t.buckets|;
    ChainValue(t, hs, i - 1);
    assert CString(dynstr, dynsym[i].nameOffset) == names[i - 1];
    if names[i - 1] == name {
    } else if t.chains[i - 1] % 2 == 0 {
      WalkFinds(t, dynsym, dynstr, names, name, i + 1);
    } else {
      forall k | i <= k < |names| ensures names[k] != name {
        assert hs[i - 1] % n <= hs[i] % n;
        assert i < k ==> hs[i] % n <= hs[k] % n;
      }
    }
  }

  /**
   The look-up finds the first dynamic symbol of that name and returns its own index in the symbol table; a name that no
   dynamic symbol has is never accepted.
   */
  lemma LookupFinds(t: HashTable, dynsym: seq<Entry>, dynstr: string, names: seq<string>, name: string)
    requires IsTable(t, HashesOf(names)) && SortedByBucket(HashesOf(names), |t.buckets|) && Lists(dynsym, dynstr, names)
    requires |t.bloom| > 0
    ensures Lookup(t, dynsym, dynstr, name).Some? ==>
              var r := Lookup(t, dynsym, dynstr, name).value;
              1 <= r <= |names| && names[r - 1] == name && forall k :: 0 <= k < r - 1 ==> names[k] != name
    ensures Lookup(t, dynsym, dynstr, name).None? ==> name !in names
  {
    var hs, h := HashesOf(names), GnuHash(name);
    var start := t.buckets[h % |t.buckets|];
    assert IsBucketStart(hs, |t.buckets|, h % |t.buckets|, start);
    forall k | 0 <= k < |names| && names[k] == name ensures InBloom(t, h) && start != 0 && start - 1 <= k {
      assert hs[k] == h && InBloom(t, hs[k]);
    }
    if start != 0 {
      WalkFinds(t, dynsym, dynstr, names, name, start);
    }
  }

  /** A chain value holds the hash but for its lowest digit, which says whether the next symbol is of another bucket. */
  lemma ChainValue(t: HashTable, hs: seq<nat>, i: nat)
    requires IsTable(t, hs) && i < |hs|
    ensures |t.chains| == |hs| && |t.buckets| > 0 && t.chains[i] / 2 == hs[i] / 2
    ensures t.chains[i] % 2 == 0 <==> i + 1 < |hs| && hs[i + 1] % |t.buckets| == hs[i] % |t.buckets|
  {
    hide InBloom, IsBucketStart, Chain;
    assert t.chains[i] == Chain(hs, |t.buckets|, i);
    ChainEnds(hs, |t.buckets|, i);
  }

  /** The positions a walk that starts at `start` can come to: past any number of chain values without the stop digit. */
  ghost predicate CanReach(chains: seq<nat>, start: nat, i: nat) {
    i == start || (i > start && i - 1 >= 1 && CanReach(chains, start, i - 1)
                   && i - 2 < |chains| && chains[i - 2] % 2 == 0)
  }

  /** The walk never leaves its bucket, and so never runs off the table. */
  lemma {:induction false} WalkStays(t: HashTable, hs: seq<nat>, b: nat, i: nat)
    requires IsTable(t, hs) && b < |t.buckets| && t.buckets[b] != 0 && CanReach(t.chains, t.buckets[b], i)
    ensures 1 <= i <= |hs| && hs[i - 1] % |t.buckets| == b
    decreases i
  {
    hide IsTable;
    StartsInBucket(t, hs, b);
    if i > t.buckets[b] {
      WalkStays(t, hs, b, i - 1);
      ChainValue(t, hs, i - 2);
    }
  }

  lemma StartsInBucket(t: HashTable, hs: seq<nat>, b: nat)
    requires IsTable(t, hs) && b < |t.buckets| && t.buckets[b] != 0
    ensures |t.chains| == |hs| && t.buckets[b] <= |hs| && hs[t.buckets[b] - 1] % |t.buckets| == b
  {
    hide InBloom, Chain;
    assert IsBucketStart(hs, |t.buckets|, b, t.buckets[b]);
  }

  // ---------------------------------------------------------------------------------------------
  // The builder's table

  function NamesOf(syms: seq<Symbol>): (names: seq<string>)
    ensures |names| == |syms| && forall i :: 0 <= i < |syms| ==> names[i] == syms[i].name
  {
    seq(|syms|, i requires 0 <= i < |syms| => syms[i].name)
  }

  /** `_build_gnu_hash` over the reordered symbols; with none of them there is no table. */
  method BuildGnuHash(tables: Tables) returns (r: Option<HashTable>)
    requires tables.Valid() && Ordered(tables.dynamic, tables.nbuckets)
    requires forall s :: s in tables.dynamic ==> s.hash == GnuHash(s.name)
    ensures r.None? <==> tables.dynamic == []
    ensures r.Some? ==>
              && IsTable(r.value, HashesOf(NamesOf(tables.dynamic)))
              && |r.value.buckets| == tables.nbuckets
              && 64 * |r.value.bloom| - 64 < |tables.dynamic| <= 64 * |r.value.bloom|
              && SortedByBucket(HashesOf(NamesOf(tables.dynamic)), |r.value.buckets|)
  {
    hide IsBucketStart, Chain;
    var n := |tables.dynamic|;
    if n == 0 {
      return None;
    }
    var hs := [];
    for i := 0 to n
      invariant |hs| == i && forall j :: 0 <= j < i ==> hs[j] == tables.dynamic[j].hash
    {
      hs := hs + [tables.dynamic[i].hash];
    }
    assert hs == HashesOf(NamesOf(tables.dynamic));
    KeyOrderIsBucketOrder(tables.dynamic, tables.nbuckets);
    var bloom := BuildBloom(hs, BloomSize(n));
    var buckets, chains := BuildChains(hs, tables.nbuckets);
    r := Some(HashTable(bloom[..], buckets[..], chains[..]));
  }

  lemma KeyOrderIsBucketOrder(syms: seq<Symbol>, nbuckets: nat)
    requires nbuckets > 0 && Ordered(syms, nbuckets)
    ensures SortedByBucket(HashesOf(NamesOf(syms)), nbuckets)
  {
    forall i, j | 0 <= i < j < |syms|
      ensures HashesOf(NamesOf(syms))[i] % nbuckets <= HashesOf(NamesOf(syms))[j] % nbuckets
    {
      assert KeyLe(Key(syms[i], nbuckets), Key(syms[j], nbuckets));
    }
  }

  /**
   All tables together: for every set of dynamic symbols the loader finds the first symbol of each name under its own
   symbol-table index, and no other name.
   */
  method BuildLookupTables(tables: Tables) returns (r: Option<HashTable>)
    requires tables.Valid()
    modifies tables, tables.symbols
    ensures tables.Valid() && tables.SymbolsBuilt() && multiset(tables.dynamic) == multiset(old(tables.dynamic))
    ensures r.None? <==> tables.dynamic == []
    ensures r.Some? ==> |r.value.bloom| > 0 && |r.value.buckets| > 0
    ensures r.Some? ==> forall i :: 0 <= i < |tables.dynamic| ==>
              && Lookup(r.value, tables.dynsym, tables.dynstr, tables.dynamic[i].name).Some?
              && Lookup(r.value, tables.dynsym, tables.dynstr, tables.dynamic[i].name).value <= i + 1
    ensures r.Some? && Distinct(NamesOf(tables.dynamic)) ==>
              forall i :: 0 <= i < |tables.dynamic| ==>
                Lookup(r.value, tables.dynsym, tables.dynstr, tables.dynamic[i].name) == Some(tables.dynamic[i].dynsymIndex)
    ensures r.Some? ==> forall name :: name !in NamesOf(tables.dynamic) ==>
              Lookup(r.value, tables.dynsym, tables.dynstr, name).None?
  {
    hide IsTable, Lookup, SortedByBucket, Ordered, Lists, InBloom, GnuHash, HashesOf, NamesOf, Distinct;
    tables.ReorderSymbolsForHash();
    tables.BuildDynstr();
    tables.BuildDynsym();
    r := BuildGnuHash(tables);
    if r.Some? {
      AllFound(tables, r.value);
    }
  }

  lemma AllFound(tables: Tables, t: HashTable)
    requires tables.Valid() && tables.SymbolsBuilt() && |t.bloom| > 0
    requires IsTable(t, HashesOf(NamesOf(tables.dynamic)))
    requires SortedByBucket(HashesOf(NamesOf(tables.dynamic)), |t.buckets|)
    ensures |t.buckets| > 0
    ensures forall i :: 0 <= i < |tables.dynamic| ==>
              && Lookup(t, tables.dynsym, tables.dynstr, tables.dynamic[i].name).Some?
              && Lookup(t, tables.dynsym, tables.dynstr, tables.dynamic[i].name).value <= i + 1
    ensures Distinct(NamesOf(tables.dynamic)) ==>
              forall i :: 0 <= i < |tables.dynamic| ==>
                Lookup(t, tables.dynsym, tables.dynstr, tables.dynamic[i].name) == Some(tables.dynamic[i].dynsymIndex)
    ensures forall name :: name !in NamesOf(tables.dynamic) ==> Lookup(t, tables.dynsym, tables.dynstr, name).None?
  {
    hide IsTable, Lookup, SortedByBucket, Lists, GnuHash, HashesOf;
    TableSizes(t, HashesOf(NamesOf(tables.dynamic)));
    ListsNames(tables);
    EveryLookup(t, tables.dynsym, tables.dynstr, NamesOf(tables.dynamic));
    assert forall i :: 0 <= i < |tables.dynamic| ==> NamesOf(tables.dynamic)[i] == tables.dynamic[i].name;
  }

  lemma EveryLookup(t: HashTable, dynsym: seq<Entry>, dynstr: string, names: seq<string>)
    requires |t.bloom| > 0 && |t.buckets| > 0
    requires IsTable(t, HashesOf(names)) && SortedByBucket(HashesOf(names), |t.buckets|) && Lists(dynsym, dynstr, names)
    ensures forall i :: 0 <= i < |names| ==>
              Lookup(t, dynsym, dynstr, names[i]).Some? && Lookup(t, dynsym, dynstr, names[i]).value <= i + 1
    ensures Distinct(names) ==> forall i :: 0 <= i < |names| ==> Lookup(t, dynsym, dynstr, names[i]) == Some(i + 1)
    ensures forall name :: name !in names ==> Lookup(t, dynsym, dynstr, name).None?
  {
    hide IsTable, Lookup, SortedByBucket, Lists, HashesOf;
    forall i | 0 <= i < |names|
      ensures Lookup(t, dynsym, dynstr, names[i]).Some? && Lookup(t, dynsym, dynstr, names[i]).value <= i + 1
      ensures Distinct(names) ==> Lookup(t, dynsym, dynstr, names[i]) == Some(i + 1)
    {
      LookupFinds(t, dynsym, dynstr, names, names[i]);
    }
    forall name | name !in names ensures Lookup(t, dynsym, dynstr, name).None? {
      LookupFinds(t, dynsym, dynstr, names, name);
    }
  }

  lemma TableSizes(t: HashTable, hs: seq<nat>)
    requires IsTable(t, hs)
    ensures |t.buckets| > 0
  {
  }

  lemma ListsNames(tables: Tables)
    requires tables.Valid() && tables.SymbolsBuilt()
    ensures Lists(tables.dynsym, tables.dynstr, NamesOf(tables.dynamic))
  {
    forall i | 0 <= i < |tables.dynamic|
      ensures CString(tables.dynstr, tables.dynsym[i + 1].nameOffset) == tables.dynamic[i].name
    {
      tables.IndexResolves(tables.dynamic[i], i + 1);
    }
  }
}
