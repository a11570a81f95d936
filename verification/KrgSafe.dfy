/**
 SAFE pruning, renumbering and the compressed edge table: what is saved has the reachability of what was built.
 */
module KrgSafe {
  import opened Concatenation
  import opened KrgIndex
  import opened KrgEdges
  import opened Sorting

  /** The builder's state when it saves: one entry per symbol in every list. */
  datatype Built = Built(syms: seq<Symbol>, adj: seq<seq<nat>>, dataRefs: seq<seq<nat>>, writable: seq<bool>,
                         blacklisted: seq<bool>) {
    ghost predicate Shaped() { |adj| == |dataRefs| == |writable| == |blacklisted| == |syms| }

    /** Edges lead from code, to code in `adj` and to data in `dataRefs`. */
    ghost predicate Typed() {
      && Shaped()
      && (forall u :: 0 <= u < |syms| && syms[u].kind != 0 ==> adj[u] == [] && dataRefs[u] == [])
      && (forall u :: 0 <= u < |syms| ==> AllOfKind(adj[u], 0) && AllOfKind(dataRefs[u], 1))
    }

    ghost predicate AllOfKind(targets: seq<nat>, kind: nat) {
      forall k :: 0 <= k < |targets| ==> targets[k] < |syms| && syms[targets[k]].kind == kind
    }
  }

  /** The builder as it stands; which data symbols are writable was noted when symbols were collected. */
  ghost function StateOf(e: Edges, writable: seq<bool>): Built
    reads e
  {
    Built(e.syms, e.adj, e.dataRefs, writable, e.callsBlacklisted)
  }

  predicate StartsWithDot(name: string) { name != "" && name[0] == '.' }

  /** Writable data may be referred to from the same module only, and from the kernel proper not at all. */
  predicate RefAllowed(b: Built, u: nat, v: nat)
    requires b.Shaped() && u < |b.syms|
  {
    v < |b.syms| && b.syms[v].kind == 1 && b.writable[v] ==>
      b.syms[u].origin != 0 && b.syms[u].origin == b.syms[v].origin
  }

  ghost predicate IsSafe(b: Built, u: nat)
    requires b.Shaped()
  {
    u < |b.syms| && b.syms[u].kind == 0 && b.syms[u].defined && !b.blacklisted[u]
    && forall v :: v in b.dataRefs[u] ==> RefAllowed(b, u, v)
  }

  /** Aliases get the same verdict. */
  lemma AliasesSameVerdict(b: Built, u: nat, w: nat)
    requires b.Shaped() && u < |b.syms| && w < |b.syms|
    requires SameTargets(b.dataRefs[u], b.dataRefs[w], u, w) && b.blacklisted[u] == b.blacklisted[w]
    requires b.syms[u].kind == b.syms[w].kind == 0 && b.syms[u].defined == b.syms[w].defined
    requires b.syms[u].origin == b.syms[w].origin
    ensures IsSafe(b, u) <==> IsSafe(b, w)
  {
    assert forall v :: v == u || v == w ==> RefAllowed(b, u, v) && RefAllowed(b, w, v);
    assert forall v :: RefAllowed(b, u, v) <==> RefAllowed(b, w, v);
    forall v | v != u && v != w ensures v in b.dataRefs[u] <==> v in b.dataRefs[w] {
    }
  }

  /**
   So after any sequence of recorded edges, functions that start at the same address are safe together or unsafe together:
   with sections apart they lie in one section, and so come from one file.
   */
  lemma AliasVerdicts(e: Edges, secs: seq<Section>, writable: seq<bool>, cur: nat, a: nat, c: nat)
    requires e.Valid() && e.Agree() && |writable| == |e.syms|
    requires WellPlaced(e.syms, secs) && IsGroups(e.syms, secs, 0, |secs|, e.groups)
    requires forall i :: IsEntry(e.syms, secs, i) ==> e.syms[i].origin == secs[e.syms[i].section].origin
    requires InGroup(e.groups, cur, a) && InGroup(e.groups, cur, c)
    ensures IsSafe(StateOf(e, writable), a) <==> IsSafe(StateOf(e, writable), c)
  {
    hide IsSafe;
    assert IsGroup(e.syms, secs, 0, |secs|, cur, e.groups[cur]);
    assert StartsAt(e.syms, secs, 0, |secs|, cur, a) && StartsAt(e.syms, secs, 0, |secs|, cur, c);
    SameSection(e.syms, secs, a, c);
    AliasesSameVerdict(StateOf(e, writable), a, c);
  }

  /** The outgoing edges that survive pruning. */
  ghost function Out(b: Built, u: nat): seq<nat>
    requires b.Shaped() && u < |b.syms|
  {
    if b.syms[u].kind == 0 && !IsSafe(b, u) then [] else b.adj[u] + b.dataRefs[u]
  }

  /** The first pass of pruning. */
  method FindSafe(b: Built) returns (ok: seq<bool>)
    requires b.Shaped()
    ensures |ok| == |b.syms| && forall u :: 0 <= u < |ok| ==> ok[u] == IsSafe(b, u)
    ensures forall u :: 0 <= u < |ok| ==>
              (ok[u] <==>
                 && b.syms[u].kind == 0 && b.syms[u].defined && !b.blacklisted[u]
                 && forall v :: v in b.dataRefs[u] && v < |b.syms| && b.syms[v].kind == 1 && b.writable[v] ==>
                      b.syms[u].origin != 0 && b.syms[v].origin == b.syms[u].origin)
  {
    ok := [];
    for u := 0 to |b.syms|
      invariant |ok| == u && forall w :: 0 <= w < u ==> ok[w] == IsSafe(b, w)
    {
      var refsOk := true;
      for k := 0 to |b.dataRefs[u]|
        invariant refsOk == forall j :: 0 <= j < k ==> RefAllowed(b, u, b.dataRefs[u][j])
      {
        var v := b.dataRefs[u][k];
        if v < |b.syms| && b.syms[v].kind == 1 && b.writable[v]
           && !(b.syms[u].origin != 0 && b.syms[u].origin == b.syms[v].origin) {
          refsOk := false;
        }
      }
      assert refsOk == forall v :: v in b.dataRefs[u] ==> RefAllowed(b, u, v);
      ok := ok + [b.syms[u].kind == 0 && b.syms[u].defined && !b.blacklisted[u] && refsOk];
    }
  }

  /** Unsafe functions have lost their outgoing edges, nothing else has changed. */
  ghost predicate IsPruned(b: Built, pruned: Built)
    requires b.Shaped()
  {
    && pruned.Shaped() && pruned == b.(adj := pruned.adj, dataRefs := pruned.dataRefs)
    && forall u :: 0 <= u < |b.syms| ==>
         && (b.syms[u].kind == 0 && !IsSafe(b, u) ==> pruned.adj[u] == [] && pruned.dataRefs[u] == [])
         && (b.syms[u].kind != 0 || IsSafe(b, u) ==>
               pruned.adj[u] == b.adj[u] && pruned.dataRefs[u] == b.dataRefs[u])
  }

  /** `prune_to_safe_subgraph`, which empties the lists of unsafe functions in the builder itself. */
  method PruneToSafeSubgraph(e: Edges, writable: seq<bool>) returns (ok: seq<bool>)
    requires e.Valid() && |writable| == |e.syms|
    modifies e`adj, e`dataRefs
    ensures e.Valid() && IsPruned(old(StateOf(e, writable)), StateOf(e, writable))
    ensures |ok| == |e.syms| && forall u :: 0 <= u < |ok| ==> ok[u] == IsSafe(old(StateOf(e, writable)), u)
  {
    hide IsSafe;
    ghost var b := StateOf(e, writable);
    ok := FindSafe(Built(e.syms, e.adj, e.dataRefs, writable, e.callsBlacklisted));
    for u := 0 to |e.syms|
      invariant e.Valid() && e.callsBlacklisted == b.blacklisted
      invariant forall w :: u <= w < |e.syms| ==> e.adj[w] == b.adj[w] && e.dataRefs[w] == b.dataRefs[w]
      invariant forall w :: 0 <= w < u ==>
                  && (b.syms[w].kind == 0 && !IsSafe(b, w) ==> e.adj[w] == [] && e.dataRefs[w] == [])
                  && (b.syms[w].kind != 0 || IsSafe(b, w) ==> e.adj[w] == b.adj[w] && e.dataRefs[w] == b.dataRefs[w])
    {
      if e.syms[u].kind == 0 && !ok[u] {
        e.adj := e.adj[u := []];
        e.dataRefs := e.dataRefs[u := []];
      }
    }
  }

  // ---------------------------------------------------------------------------------------------
  // Which symbols are saved

  ghost predicate CalledBySafe(b: Built, v: nat)
    requires b.Shaped()
  {
    v < |b.syms| && b.syms[v].kind == 0 && b.syms[v].defined
    && exists u :: 0 <= u < |b.syms| && IsSafe(b, u) && v in b.adj[u]
  }

  ghost predicate ReadBySafe(b: Built, v: nat)
    requires b.Shaped()
  {
    v < |b.syms| && b.syms[v].kind == 1 && b.syms[v].defined && !StartsWithDot(b.syms[v].name)
    && exists u :: 0 <= u < |b.syms| && IsSafe(b, u) && v in b.dataRefs[u]
  }

  ghost predicate IsNeeded(b: Built, v: nat)
    requires b.Shaped()
  {
    IsSafe(b, v) || CalledBySafe(b, v) || ReadBySafe(b, v)
  }

  /** `need` after the targets of one list were marked, those that pass the test. */
  method MarkTargets(need0: seq<bool>, targets: seq<nat>, allowed: seq<bool>) returns (need: seq<bool>)
    requires |allowed| == |need0|
    ensures |need| == |need0|
    ensures forall v :: 0 <= v < |need| ==> need[v] == (need0[v] || (v in targets && allowed[v]))
  {
    need := need0;
    for k := 0 to |targets|
      invariant |need| == |need0|
      invariant forall v :: 0 <= v < |need| ==> need[v] == (need0[v] || (v in targets[..k] && allowed[v]))
    {
      assert targets[..k + 1] == targets[..k] + [targets[k]];
      if targets[k] < |need| && allowed[targets[k]] {
        need := need[targets[k] := true];
      }
    }
    assert targets[..|targets|] == targets;
  }

  /** The pass over all safe functions' lists. */
  method MarkAll(need0: seq<bool>, ok: seq<bool>, lists: seq<seq<nat>>, allowed: seq<bool>) returns (need: seq<bool>)
    requires |allowed| == |need0| == |ok| == |lists|
    ensures |need| == |need0|
    ensures forall v :: 0 <= v < |need| ==>
              need[v] == (need0[v] || (allowed[v] && exists u :: 0 <= u < |ok| && ok[u] && v in lists[u]))
  {
    need := need0;
    for u := 0 to |ok|
      invariant |need| == |need0|
      invariant forall v :: 0 <= v < |need| ==>
                  need[v] == (need0[v] || (allowed[v] && exists w :: 0 <= w < u && ok[w] && v in lists[w]))
    {
      if ok[u] {
        need := MarkTargets(need, lists[u], allowed);
      }
    }
  }

  method FindNeeded(ghost b: Built, ok: seq<bool>, pruned: Built) returns (need: seq<bool>)
    requires b.Shaped() && pruned.Shaped() && pruned.syms == b.syms
    requires |ok| == |b.syms| && forall u :: 0 <= u < |ok| ==> ok[u] == IsSafe(b, u)
    requires forall u :: 0 <= u < |ok| && ok[u] ==> pruned.adj[u] == b.adj[u] && pruned.dataRefs[u] == b.dataRefs[u]
    requires forall u :: 0 <= u < |ok| && b.syms[u].kind == 0 && !ok[u] ==> pruned.dataRefs[u] == []
    ensures |need| == |b.syms| && forall v :: 0 <= v < |need| ==> need[v] == IsNeeded(b, v)
  {
    hide IsSafe;
    var n, syms := |pruned.syms|, pruned.syms;
    var code := seq(n, v requires 0 <= v < n => syms[v].kind == 0 && syms[v].defined);
    var data := seq(n, v requires 0 <= v < n => syms[v].kind == 1 && syms[v].defined && !StartsWithDot(syms[v].name));
    need := MarkAll(ok, ok, pruned.adj, code);
    var first := need;
    SafeIsCode(b);
    var neededCode := seq(n, u requires 0 <= u < n && |first| == n => first[u] && syms[u].kind == 0);
    need := MarkAll(need, neededCode, pruned.dataRefs, data);
    forall v | 0 <= v < n ensures need[v] == IsNeeded(b, v) {
      assert (exists u :: 0 <= u < n && ok[u] && v in pruned.adj[u])
          == (exists u :: 0 <= u < n && IsSafe(b, u) && v in b.adj[u]);
      assert (exists u :: 0 <= u < n && neededCode[u] && v in pruned.dataRefs[u])
          == (exists u :: 0 <= u < n && IsSafe(b, u) && v in b.dataRefs[u]);
    }
  }

  lemma SafeIsCode(b: Built)
    requires b.Shaped()
    ensures forall u :: 0 <= u < |b.syms| && IsSafe(b, u) ==> b.syms[u].kind == 0
  {
  }

  // ---------------------------------------------------------------------------------------------
  // Renumbering

  /** The new number of symbol `i`: how many saved symbols come before it. */
  function Rank(need: seq<bool>, i: nat): (r: nat)
    requires i <= |need|
    ensures r <= i
  {
    if i == 0 then 0 else Rank(need, i - 1) + if need[i - 1] then 1 else 0
  }

  lemma {:induction false} RankMonotone(need: seq<bool>, i: nat, j: nat)
    requires i <= j <= |need|
    ensures Rank(need, i) <= Rank(need, j)
    ensures i < j && need[i] ==> Rank(need, i) < Rank(need, j)
  {
    if i < j { RankMonotone(need, i, j - 1); }
  }

  /** Different saved symbols get different numbers, all of them below the number of saved symbols. */
  lemma RankInjective(need: seq<bool>, i: nat, j: nat)
    requires i < |need| && j < |need| && need[i] && need[j] && Rank(need, i) == Rank(need, j)
    ensures i == j
  {
    if i < j {
      RankMonotone(need, i, j);
    } else if j < i {
      RankMonotone(need, j, i);
    }
  }

  method Number(need: seq<bool>) returns (idmap: seq<int>, m: nat)
    ensures |idmap| == |need| && m == Rank(need, |need|)
    ensures forall i :: 0 <= i < |need| ==> idmap[i] == if need[i] then Rank(need, i) else -1
  {
    idmap, m := [], 0;
    for i := 0 to |need|
      invariant |idmap| == i && m == Rank(need, i)
      invariant forall j :: 0 <= j < i ==> idmap[j] == if need[j] then Rank(need, j) else -1
    {
      if need[i] {
        idmap, m := idmap + [m], m + 1;
      } else {
        idmap := idmap + [-1];
      }
    }
  }

  // ---------------------------------------------------------------------------------------------
  // The compressed edge table

  datatype Csr = Csr(rowPtr: seq<nat>, colIdx: seq<nat>) {
    /** A table for `m` nodes. */
    ghost predicate Valid(m: nat) {
      && |rowPtr| == m + 1 && rowPtr[m] == |colIdx|
      && (forall r, s :: 0 <= r <= s <= m ==> rowPtr[r] <= rowPtr[s])
      && (forall v :: v in colIdx ==> v < m)
    }

    /** Row `r` can be read: it ends within the table, and its columns are among the `m` there are. */
    predicate Readable(m: nat, r: nat)
      requires r + 1 < |rowPtr|
    {
      rowPtr[r] < rowPtr[r + 1] ==>
        rowPtr[r + 1] <= |colIdx| && forall e :: rowPtr[r] <= e < rowPtr[r + 1] ==> colIdx[e] < m
    }

    /** The columns of a row that can be read. */
    ghost function Row(m: nat, r: nat): seq<nat>
      requires r + 1 < |rowPtr|
    {
      if rowPtr[r] < rowPtr[r + 1] && Readable(m, r) then colIdx[rowPtr[r]..rowPtr[r + 1]] else []
    }

    lemma AllReadable(m: nat, r: nat)
      requires Valid(m) && r < m
      ensures Readable(m, r) && Row(m, r) == colIdx[rowPtr[r]..rowPtr[r + 1]]
    {
      if rowPtr[r] < rowPtr[r + 1] {
        forall e | rowPtr[r] <= e < rowPtr[r + 1] ensures colIdx[e] < m {
          assert colIdx[e] in colIdx;
        }
      }
    }
  }

  predicate StrictlyAscending(xs: seq<nat>) {
    forall j, k :: 0 <= j < k < |xs| ==> xs[j] < xs[k]
  }

  lemma Appended(xs: seq<nat>, x: nat)
    requires StrictlyAscending(xs) && forall y :: y in xs ==> y < x
    ensures StrictlyAscending(xs + [x])
  {
    assert forall j :: 0 <= j < |xs| ==> xs[j] in xs;
  }

  /** Sorted, each number once. */
  method SortUnique(xs: seq<nat>) returns (r: seq<nat>)
    ensures StrictlyAscending(r) && forall x :: x in r <==> x in xs
  {
    hide StrictlyAscending;
    var sorted := SortBy(xs, (x: nat) => [x]);
    SameElements(sorted, xs);
    r := [];
    NothingAscends();
    for i := 0 to |sorted|
      invariant StrictlyAscending(r) && forall x :: x in r <==> x in sorted[..i]
      invariant i > 0 ==> r != [] && r[|r| - 1] == sorted[i - 1]
    {
      assert sorted[..i + 1] == sorted[..i] + [sorted[i]];
      if i == 0 || sorted[i] != r[|r| - 1] {
        AllBelow(sorted, i);
        Appended(r, sorted[i]);
        r := r + [sorted[i]];
      }
    }
    assert sorted[..|sorted|] == sorted;
  }

  lemma NothingAscends()
    ensures StrictlyAscending([])
  {
  }

  lemma AllBelow(sorted: seq<nat>, i: nat)
    requires SortedBy(sorted, (x: nat) => [x]) && i < |sorted| && (i > 0 ==> sorted[i - 1] != sorted[i])
    ensures forall x :: x in sorted[..i] ==> x < sorted[i]
  {
    forall j | 0 <= j < i ensures sorted[j] < sorted[i] {
      assert KeyLe([sorted[j]], [sorted[i - 1]]) || j == i - 1;
      assert KeyLe([sorted[i - 1]], [sorted[i]]);
    }
  }

  /** A column of the row of symbol `i`: the number of a saved target, itself excepted. */
  ghost predicate IsColumn(targets: seq<nat>, need: seq<bool>, i: nat, c: nat) {
    exists x :: x in targets && x < |need| && need[x] && x != i && c == Rank(need, x)
  }

  /** The columns of one row, ascending. */
  method RowColumns(targets: seq<nat>, idmap: seq<int>, ghost need: seq<bool>, i: nat) returns (cols: seq<nat>)
    requires |idmap| == |need| && i < |need| && need[i]
    requires forall j :: 0 <= j < |need| ==> idmap[j] == if need[j] then Rank(need, j) else -1
    requires forall x :: x in targets ==> x < |need|
    ensures StrictlyAscending(cols) && forall c :: c in cols <==> IsColumn(targets, need, i, c)
  {
    hide StrictlyAscending;
    var tmp := SortUnique(targets);
    cols := [];
    NothingAscends();
    for k := 0 to |tmp|
      invariant StrictlyAscending(cols) && forall c :: c in cols <==> IsColumn(tmp[..k], need, i, c)
    {
      assert tmp[..k + 1] == tmp[..k] + [tmp[k]];
      assert tmp[k] in tmp;
      ghost var before := cols;
      var vx := idmap[tmp[k]];
      if vx >= 0 && vx != idmap[i] {
        ColumnsRise(tmp, need, i, k);
        Appended(cols, vx);
        cols := cols + [vx];
      }
      NextColumn(tmp, need, i, k, before, cols);
    }
    assert tmp[..|tmp|] == tmp;
    forall c ensures IsColumn(tmp, need, i, c) <==> IsColumn(targets, need, i, c) {
      SameColumns(tmp, targets, need, i, c);
      SameColumns(targets, tmp, need, i, c);
    }
  }

  lemma ColumnsRise(tmp: seq<nat>, need: seq<bool>, i: nat, k: nat)
    requires StrictlyAscending(tmp) && k < |tmp| && tmp[k] < |need| && need[tmp[k]]
    ensures forall c: nat :: IsColumn(tmp[..k], need, i, c) ==> c < Rank(need, tmp[k])
  {
    forall c: nat | IsColumn(tmp[..k], need, i, c) ensures c < Rank(need, tmp[k]) {
      var x :| x in tmp[..k] && x < |need| && need[x] && x != i && c == Rank(need, x);
      RankMonotone(need, x, tmp[k]);
    }
  }

  lemma SameColumns(t: seq<nat>, u: seq<nat>, need: seq<bool>, i: nat, c: nat)
    requires forall x :: x in t ==> x in u
    ensures IsColumn(t, need, i, c) ==> IsColumn(u, need, i, c)
  {
  }

  lemma NextColumn(tmp: seq<nat>, need: seq<bool>, i: nat, k: nat, before: seq<nat>, cols: seq<nat>)
    requires k < |tmp| && tmp[k] < |need| && i < |need| && need[i]
    requires forall c :: c in before <==> IsColumn(tmp[..k], need, i, c)
    requires cols == if need[tmp[k]] && Rank(need, tmp[k]) != Rank(need, i) then before + [Rank(need, tmp[k])] else before
    ensures forall c :: c in cols <==> IsColumn(tmp[..k + 1], need, i, c)
  {
    var x := tmp[k];
    assert tmp[..k + 1] == tmp[..k] + [x];
    if need[x] && Rank(need, x) == Rank(need, i) {
      RankInjective(need, x, i);
    }
    forall c ensures c in cols <==> IsColumn(tmp[..k + 1], need, i, c) {
      SameColumns(tmp[..k], tmp[..k + 1], need, i, c);
      if need[x] && x != i && c == Rank(need, x) {
        assert x in tmp[..k + 1];
      }
    }
  }

  /** The table as it stands when the rows `rows` have been written. */
  ghost predicate Written(rowPtr: seq<nat>, colIdx: seq<nat>, rows: seq<seq<nat>>) {
    && |rowPtr| == |rows| && colIdx == Flatten(rows)
    && (forall r :: 0 <= r < |rows| ==> rowPtr[r] == |Flatten(rows[..r])|)
  }

  lemma WriteRow(rowPtr: seq<nat>, colIdx: seq<nat>, rows: seq<seq<nat>>, cols: seq<nat>)
    requires Written(rowPtr, colIdx, rows)
    ensures Written(rowPtr + [|colIdx|], colIdx + cols, rows + [cols])
  {
    var more := rows + [cols];
    assert more[..|more| - 1] == rows;
    forall r | 0 <= r < |more| ensures (rowPtr + [|colIdx|])[r] == |Flatten(more[..r])| {
      assert more[..r] == rows[..r];
      assert rows[..|rows|] == rows;
    }
  }

  /** The finished table gives back the rows. */
  lemma RowsGiven(rowPtr: seq<nat>, colIdx: seq<nat>, rows: seq<seq<nat>>, m: nat)
    requires Written(rowPtr, colIdx, rows) && |rows| == m && forall v :: v in colIdx ==> v < m
    ensures Csr(rowPtr + [|colIdx|], colIdx).Valid(m)
    ensures forall r :: 0 <= r < m ==> Csr(rowPtr + [|colIdx|], colIdx).Row(m, r) == rows[r]
  {
    var c := Csr(rowPtr + [|colIdx|], colIdx);
    assert rows[..m] == rows;
    assert forall r :: 0 <= r <= m ==> c.rowPtr[r] == |Flatten(rows[..r])|;
    forall r, s | 0 <= r <= s <= m ensures c.rowPtr[r] <= c.rowPtr[s] {
      FlattenGrows(rows, r, s);
    }
    forall r | 0 <= r < m ensures c.Row(m, r) == rows[r] {
      c.AllReadable(m, r);
      FlattenPrefix(rows, r);
    }
  }

  /** Every saved symbol's row lists the numbers of its saved targets. */
  ghost predicate IsSaved(b: Built, need: seq<bool>, c: Csr)
    requires b.Shaped() && |need| == |b.syms|
  {
    && c.Valid(Rank(need, |need|))
    && (forall i :: 0 <= i < |need| && need[i] ==> RowIs(b, need, c, i))
  }

  ghost predicate RowIs(b: Built, need: seq<bool>, c: Csr, i: nat)
    requires b.Shaped() && |need| == |b.syms| && c.Valid(Rank(need, |need|)) && i < |need|
  {
    var m := Rank(need, |need|);
    && Rank(need, i) < m && StrictlyAscending(c.Row(m, Rank(need, i)))
    && forall v :: v in c.Row(m, Rank(need, i)) <==> IsColumn(Out(b, i), need, i, v)
  }

  method BuildCsr(ghost b: Built, pruned: Built, need: seq<bool>, idmap: seq<int>) returns (c: Csr)
    requires b.Shaped() && |need| == |idmap| == |b.syms| && pruned.Shaped() && pruned.syms == b.syms
    requires forall u :: 0 <= u < |need| ==> pruned.adj[u] + pruned.dataRefs[u] == Out(b, u)
    requires forall u, v :: 0 <= u < |need| && v in Out(b, u) ==> v < |need|
    requires forall j :: 0 <= j < |need| ==> idmap[j] == if need[j] then Rank(need, j) else -1
    ensures IsSaved(b, need, c)
  {
    hide Out, IsColumn, Written, StrictlyAscending;
    ghost var m := Rank(need, |need|);
    ghost var rows: seq<seq<nat>> := [];
    var rowPtr: seq<nat>, colIdx: seq<nat> := [], [];
    WrittenNothing();
    for i := 0 to |need|
      invariant |rows| == Rank(need, i) && Written(rowPtr, colIdx, rows)
      invariant forall v :: v in colIdx ==> v < m
      invariant forall j :: 0 <= j < i && need[j] ==>
                  && Rank(need, j) < |rows| && StrictlyAscending(rows[Rank(need, j)])
                  && forall v :: v in rows[Rank(need, j)] <==> IsColumn(Out(b, j), need, j, v)
    {
      if idmap[i] >= 0 {
        var cols := RowColumns(pruned.adj[i] + pruned.dataRefs[i], idmap, need, i);
        ColumnsBelow(Out(b, i), need, i, cols);
        WriteRow(rowPtr, colIdx, rows, cols);
        rowPtr := rowPtr + [|colIdx|];
        colIdx := colIdx + cols;
        rows := rows + [cols];
      }
    }
    RowsGiven(rowPtr, colIdx, rows, m);
    c := Csr(rowPtr + [|colIdx|], colIdx);
  }

  lemma WrittenNothing()
    ensures Written([], [], [])
  {
  }

  lemma ColumnsBelow(targets: seq<nat>, need: seq<bool>, i: nat, cols: seq<nat>)
    requires forall c :: c in cols <==> IsColumn(targets, need, i, c)
    ensures forall c :: c in cols ==> c < Rank(need, |need|)
  {
    forall c | c in cols ensures c < Rank(need, |need|) {
      assert IsColumn(targets, need, i, c);
      var x :| x in targets && x < |need| && need[x] && x != i && c == Rank(need, x);
      RankMonotone(need, x, |need|);
    }
  }
}
