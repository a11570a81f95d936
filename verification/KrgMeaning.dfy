/** What is kept, saved and loaded, said of the symbols and reference lists that went in. */
module KrgMeaning {
  import opened KrgFile
  import opened KrgIndex
  import opened KrgLoad
  import opened KrgRoundTrip
  import opened KrgSafe
  import opened KrgSave
  import opened Options
  import opened Reachability
  import opened Sorting

  /**
   The functions that keep their edges: defined, without a blacklisted call, and with no reference to writable data but
   that of their own module, which the kernel proper does not have.
   */
  ghost predicate AreKept(b: Built, kept: seq<bool>)
    requires b.Shaped()
  {
    && |kept| == |b.syms|
    && forall u :: 0 <= u < |kept| ==>
         (kept[u] <==>
            && b.syms[u].kind == 0 && b.syms[u].defined && !b.blacklisted[u]
            && forall v :: v in b.dataRefs[u] && v < |b.syms| && b.syms[v].kind == 1 && b.writable[v] ==>
                 b.syms[u].origin != 0 && b.syms[v].origin == b.syms[u].origin)
  }

  /** Saved are kept functions, the defined functions they call, and the defined data they refer to, dot names excepted. */
  ghost predicate AreSaved(b: Built, kept: seq<bool>, need: seq<bool>)
    requires b.Shaped()
  {
    && |kept| == |need| == |b.syms|
    && forall v :: 0 <= v < |need| ==>
         (need[v] <==>
            || kept[v]
            || (b.syms[v].defined && b.syms[v].kind == 0 && exists u :: 0 <= u < |kept| && kept[u] && v in b.adj[u])
            || (b.syms[v].defined && b.syms[v].kind == 1 && !("." <= b.syms[v].name)
                && exists u :: 0 <= u < |kept| && kept[u] && v in b.dataRefs[u]))
  }

  lemma KeptExists(b: Built) returns (kept: seq<bool>)
    requires b.Shaped()
    ensures AreKept(b, kept) && forall u :: 0 <= u < |kept| ==> kept[u] == IsSafe(b, u)
  {
    kept := seq(|b.syms|, u requires 0 <= u < |b.syms| => IsSafe(b, u));
  }

  lemma KeptIsSafe(b: Built, kept: seq<bool>)
    requires b.Shaped() && AreKept(b, kept)
    ensures |kept| == |b.syms| && forall u :: 0 <= u < |kept| ==> kept[u] == IsSafe(b, u)
  {
  }

  /** What pruning and renumbering save. */
  lemma SavedExactly(b: Built, kept: seq<bool>)
    requires b.Shaped() && AreKept(b, kept)
    ensures AreSaved(b, kept, NeedOf(b))
  {
    hide IsSafe, AreKept;
    KeptIsSafe(b, kept);
    forall v | 0 <= v < |b.syms|
      ensures NeedOf(b)[v] <==>
                || kept[v]
                || (b.syms[v].defined && b.syms[v].kind == 0 && exists u :: 0 <= u < |kept| && kept[u] && v in b.adj[u])
                || (b.syms[v].defined && b.syms[v].kind == 1 && !("." <= b.syms[v].name)
                    && exists u :: 0 <= u < |kept| && kept[u] && v in b.dataRefs[u])
    {
      assert StartsWithDot(b.syms[v].name) <==> "." <= b.syms[v].name;
    }
  }

  /** The edges of the saved graph: those of kept functions, among saved symbols, without loops. */
  lemma SavedEdges(b: Built, address: seq<nat>, modules: seq<string>, need: seq<bool>, g: Graph, kept: seq<bool>,
                   u: nat, v: nat)
    requires b.Typed() && |address| == |b.syms| && IsSavedGraph(b, address, modules, need, g) && AreKept(b, kept)
    requires u < |b.syms| && v < |b.syms| && need[u] && need[v]
    ensures Rank(need, u) < |g.nodes| && Rank(need, v) < |g.nodes|
    ensures Rank(need, v) in g.csr.Row(|g.nodes|, Rank(need, u))
       <==> u != v && kept[u] && (v in b.adj[u] || v in b.dataRefs[u])
  {
    hide IsSafe, IsNeeded, Rank, AreKept;
    KeptIsSafe(b, kept);
    assert RowIs(b, need, g.csr, u) && Numbered(b.syms, address, |modules|, need, g, u);
    assert Numbered(b.syms, address, |modules|, need, g, v);
    if x :| x in Out(b, u) && x < |need| && need[x] && x != u && Rank(need, v) == Rank(need, x) {
      RankInjective(need, v, x);
    }
    assert v in Out(b, u) <==> (b.syms[u].kind != 0 || kept[u]) && (v in b.adj[u] || v in b.dataRefs[u]);
    assert IsColumn(Out(b, u), need, u, Rank(need, v)) <==> v in Out(b, u) && v != u;
  }

  /** So no saved function of the kernel proper, and none of another module, leads to writable data. */
  lemma WritableUnreferenced(b: Built, address: seq<nat>, modules: seq<string>, need: seq<bool>, g: Graph, u: nat, v: nat)
    requires b.Typed() && |address| == |b.syms| && IsSavedGraph(b, address, modules, need, g)
    requires u < |b.syms| && v < |b.syms| && need[u] && need[v]
    requires b.syms[u].kind == 0 && b.syms[v].kind == 1 && b.writable[v]
    requires b.syms[u].origin == 0 || b.syms[u].origin != b.syms[v].origin
    ensures Rank(need, u) < |g.nodes| && Rank(need, v) !in g.csr.Row(|g.nodes|, Rank(need, u))
  {
    var kept := KeptExists(b);
    hide IsSafe, IsNeeded, Rank, IsSavedGraph;
    SavedEdges(b, address, modules, need, g, kept, u, v);
    if v in b.adj[u] {
      CalledIsCode(b, u, v);
    }
  }

  lemma CalledIsCode(b: Built, u: nat, v: nat)
    requires b.Typed() && u < |b.syms| && v in b.adj[u]
    ensures v < |b.syms| && b.syms[v].kind == 0
  {
    var k :| 0 <= k < |b.adj[u]| && b.adj[u][k] == v;
    assert b.AllOfKind(b.adj[u], 0);
  }

  /** A step of the closure in the graph as built. */
  lemma StepsExactly(b: Built, stop: set<string>, kept: seq<bool>, u: nat, v: nat)
    requires b.Typed() && AreKept(b, kept)
    ensures v in BuiltStep(b, stop)(u)
       <==> u < |b.syms| && b.syms[u].name !in stop && kept[u] && (v in b.adj[u] || v in b.dataRefs[u])
  {
    hide IsSafe, AreKept;
    KeptIsSafe(b, kept);
  }

  /** A saved symbol as the DSO builder finds it: its own fields, and the name of the file it came from. */
  lemma NodeSurvives(b: Built, address: seq<nat>, modules: seq<string>, need: seq<bool>, g: Graph, l: Loaded, i: nat)
    requires b.Shaped() && |address| == |b.syms| && IsSavedGraph(b, address, modules, need, g)
    requires modules != [] && Storable(g) && Loading(FileOf(TablesOf(g))) == Ok(l)
    requires i < |b.syms| && need[i]
    ensures Rank(need, i) < |l.nodes|
    ensures var n, s := l.nodes[Rank(need, i)], b.syms[i];
            && n.name == s.name && n.addr == address[i] && n.size == s.size && n.kind == s.kind
            && n.moduleId == (if s.origin < |modules| then s.origin else 0)
            && n.moduleName == (if modules[n.moduleId] == "" then "kernel" else modules[n.moduleId])
  {
    hide Loading, FileOf, TablesOf, Storable, Rank, IsSaved, IsNeeded, LastIds;
    LoadBack(g);
    assert Numbered(b.syms, address, |modules|, need, g, i);
  }
}
