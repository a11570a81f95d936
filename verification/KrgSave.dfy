/**
 Saving the SAFE part of the graph, and what the saved graph still tells: the closures of the built graph.
 */
module KrgSave {
  import opened KrgEdges
  import opened KrgIndex
  import opened KrgSafe
  import opened Reachability

  datatype Node = Node(addr: nat, size: nat, moduleId: nat, kind: nat)

  datatype Graph = Graph(nodes: seq<Node>, names: seq<string>, csr: Csr, modules: seq<string>) {
    ghost predicate Valid() { Shaped() && csr.Valid(|nodes|) }

    /** Every node has a name and a row, whatever the row says. */
    predicate Shaped() { |names| == |nodes| && |csr.rowPtr| == |nodes| + 1 }
  }

  const KERNEL_LABEL: string := "kernel"

  /** The module names as they are stored: a nameless module is the kernel. */
  function Labels(modules: seq<string>): seq<string> {
    seq(|modules|, k requires 0 <= k < |modules| => if modules[k] == "" then KERNEL_LABEL else modules[k])
  }

  /** The stored form of symbol `i`, whose address at run time is `addr`. */
  function NodeOf(sym: Symbol, addr: nat, modules: nat): Node {
    Node(addr, sym.size, if sym.origin < modules then sym.origin else 0, sym.kind)
  }

  /** The saved graph: exactly the needed symbols, in their order, with their edges among themselves. */
  ghost predicate IsSavedGraph(b: Built, address: seq<nat>, modules: seq<string>, need: seq<bool>, g: Graph)
    requires b.Shaped() && |address| == |b.syms|
  {
    && |need| == |b.syms| && (forall v :: 0 <= v < |need| ==> need[v] == IsNeeded(b, v))
    && g.Valid() && |g.nodes| == Rank(need, |need|) && g.modules == Labels(modules)
    && IsSaved(b, need, g.csr)
    && (forall i :: 0 <= i < |need| && need[i] ==> Numbered(b.syms, address, |modules|, need, g, i))
  }

  ghost predicate Numbered(syms: seq<Symbol>, address: seq<nat>, modules: nat, need: seq<bool>, g: Graph, i: nat)
    requires |address| == |syms| == |need| && i < |syms| && |g.names| == |g.nodes|
  {
    var r := Rank(need, i);
    r < |g.nodes| && g.names[r] == syms[i].name && g.nodes[r] == NodeOf(syms[i], address[i], modules)
  }

  /** The node and name tables. */
  method SaveNodes(syms: seq<Symbol>, address: seq<nat>, modules: seq<string>, idmap: seq<int>, ghost need: seq<bool>)
    returns (nodes: seq<Node>, names: seq<string>)
    requires |address| == |syms| == |idmap| == |need|
    requires forall j :: 0 <= j < |need| ==> idmap[j] == if need[j] then Rank(need, j) else -1
    ensures |names| == |nodes| == Rank(need, |need|)
    ensures forall c, m, i :: 0 <= i < |need| && need[i] ==>
              Numbered(syms, address, |modules|, need, Graph(nodes, names, c, m), i)
  {
    nodes, names := [], [];
    for i := 0 to |syms|
      invariant |names| == |nodes| == Rank(need, i)
      invariant forall j :: 0 <= j < i && need[j] ==>
                  && Rank(need, j) < |nodes| && names[Rank(need, j)] == syms[j].name
                  && nodes[Rank(need, j)] == NodeOf(syms[j], address[j], |modules|)
    {
      if idmap[i] >= 0 {
        nodes := nodes + [NodeOf(syms[i], address[i], |modules|)];
        names := names + [syms[i].name];
      }
    }
  }

  /** Which symbols are saved. */
  ghost function NeedOf(b: Built): seq<bool>
    requires b.Shaped()
  {
    seq(|b.syms|, v requires 0 <= v < |b.syms| => IsNeeded(b, v))
  }

  /** `save`, up to the writing of the file; `address` is where each symbol is at run time. */
  method Save(e: Edges, writable: seq<bool>, address: seq<nat>, modules: seq<string>) returns (g: Graph)
    requires e.Valid() && |writable| == |e.syms| && StateOf(e, writable).Typed() && |address| == |e.syms|
    modifies e`adj, e`dataRefs
    ensures IsSavedGraph(old(StateOf(e, writable)), address, modules, NeedOf(old(StateOf(e, writable))), g)
  {
    hide IsSafe, IsNeeded, Rank, IsSaved;
    ghost var b := StateOf(e, writable);
    var ok := PruneToSafeSubgraph(e, writable);
    SafeIsCode(b);
    var pruned := Built(e.syms, e.adj, e.dataRefs, writable, e.callsBlacklisted);
    var marks := FindNeeded(b, ok, pruned);
    var idmap, m := Number(marks);
    TargetsExist(b);
    var csr := BuildCsr(b, pruned, marks, idmap);
    var nodes, names := SaveNodes(e.syms, address, modules, idmap, marks);
    g := Graph(nodes, names, csr, Labels(modules));
    assert marks == NeedOf(b);
    SavedIsValid(b, marks, csr);
  }

  lemma TargetsExist(b: Built)
    requires b.Typed()
    ensures forall u, v :: 0 <= u < |b.syms| && v in Out(b, u) ==> v < |b.syms|
  {
    forall u, v | 0 <= u < |b.syms| && v in Out(b, u) ensures v < |b.syms| {
      assert v in b.adj[u] || v in b.dataRefs[u];
    }
  }

  lemma SavedIsValid(b: Built, need: seq<bool>, csr: Csr)
    requires b.Shaped() && |need| == |b.syms| && IsSaved(b, need, csr)
    ensures csr.Valid(Rank(need, |need|))
  {
  }

  // ---------------------------------------------------------------------------------------------
  // Closures

  /** The graph as built and pruned; unsafe functions and stop names are not followed. */
  ghost function BuiltStep(b: Built, stop: set<string>): nat -> set<nat>
    requires b.Shaped()
  {
    (i: nat) => if i < |b.syms| && b.syms[i].name !in stop then set v | v in Out(b, i) else {}
  }

  /** The graph as saved. */
  ghost function SavedStep(g: Graph, stop: set<string>): nat -> set<nat>
    requires g.Shaped()
  {
    (r: nat) => if r < |g.nodes| && g.names[r] !in stop then set v | v in g.csr.Row(|g.nodes|, r) else {}
  }

  /** What can be saved at all: symbols that are defined, except for data whose name begins with a dot. */
  predicate Saveable(sym: Symbol) { sym.defined && !(sym.kind == 1 && StartsWithDot(sym.name)) }

  /** Only safe functions have successors. */
  lemma OutOfSafe(b: Built, u: nat, v: nat)
    requires b.Typed() && u < |b.syms| && v in Out(b, u)
    ensures IsSafe(b, u) && v < |b.syms|
    ensures Saveable(b.syms[v]) ==> IsNeeded(b, v)
  {
    assert v in b.adj[u] || v in b.dataRefs[u];
  }

  /** An edge of the saved graph comes from an edge of the built graph. */
  lemma EdgeLifts(b: Built, address: seq<nat>, modules: seq<string>, need: seq<bool>, g: Graph, stop: set<string>, i: nat,
                  c: nat) returns (x: nat)
    requires b.Typed() && |address| == |b.syms| && IsSavedGraph(b, address, modules, need, g)
    requires i < |b.syms| && need[i] && c in SavedStep(g, stop)(Rank(need, i))
    ensures x < |b.syms| && need[x] && c == Rank(need, x) && x in BuiltStep(b, stop)(i)
  {
    hide Out, IsNeeded, Rank;
    assert RowIs(b, need, g.csr, i) && Numbered(b.syms, address, |modules|, need, g, i);
    assert IsColumn(Out(b, i), need, i, c);
    x :| x in Out(b, i) && x < |need| && need[x] && x != i && c == Rank(need, x);
  }

  /** And every edge between saved symbols is there, except from a symbol to itself. */
  lemma EdgeSaved(b: Built, address: seq<nat>, modules: seq<string>, need: seq<bool>, g: Graph, stop: set<string>, i: nat,
                  x: nat)
    requires b.Typed() && |address| == |b.syms| && IsSavedGraph(b, address, modules, need, g)
    requires i < |b.syms| && x < |b.syms| && need[i] && need[x] && x != i && x in BuiltStep(b, stop)(i)
    ensures Rank(need, x) in SavedStep(g, stop)(Rank(need, i))
  {
    hide Out, IsNeeded, Rank;
    assert RowIs(b, need, g.csr, i) && Numbered(b.syms, address, |modules|, need, g, i);
    assert IsColumn(Out(b, i), need, i, Rank(need, x));
  }

  lemma {:induction false} PathLifts(b: Built, address: seq<nat>, modules: seq<string>, need: seq<bool>, g: Graph,
                                     stop: set<string>, root: nat, q: seq<nat>, k: nat) returns (i: nat)
    requires b.Typed() && |address| == |b.syms| && IsSavedGraph(b, address, modules, need, g)
    requires root < |b.syms| && need[root]
    requires Path(SavedStep(g, stop), q) && q[0] == Rank(need, root) && k < |q|
    ensures i < |b.syms| && need[i] && q[k] == Rank(need, i) && Reaches(BuiltStep(b, stop), root, i)
  {
    hide BuiltStep, SavedStep, Rank, IsSaved, Numbered;
    if k == 0 {
      i := root;
      ReachesSelf(BuiltStep(b, stop), root);
    } else {
      var j := PathLifts(b, address, modules, need, g, stop, root, q, k - 1);
      assert q[k - 1 + 1] in SavedStep(g, stop)(q[k - 1]);
      i := EdgeLifts(b, address, modules, need, g, stop, j, q[k]);
      ReachesNext(BuiltStep(b, stop), root, j, i);
    }
  }

  lemma {:induction false} PathSaved(b: Built, address: seq<nat>, modules: seq<string>, need: seq<bool>, g: Graph,
                                     stop: set<string>, p: seq<nat>, k: nat)
    requires b.Typed() && |address| == |b.syms| && IsSavedGraph(b, address, modules, need, g)
    requires Path(BuiltStep(b, stop), p) && p[0] < |b.syms| && need[p[0]] && k < |p|
    ensures p[k] < |b.syms|
    ensures Saveable(b.syms[p[k]]) ==>
              need[p[k]] && Reaches(SavedStep(g, stop), Rank(need, p[0]), Rank(need, p[k]))
  {
    hide SavedStep, BuiltStep, Rank, Out, Saveable, IsSafe, IsNeeded, IsSaved, Numbered;
    if k == 0 {
      ReachesSelf(SavedStep(g, stop), Rank(need, p[0]));
    } else {
      PathSaved(b, address, modules, need, g, stop, p, k - 1);
      var j, x := p[k - 1], p[k];
      assert p[k - 1 + 1] in BuiltStep(b, stop)(j);
      StepIsOut(b, stop, j, x);
      OutOfSafe(b, j, x);
      SafeIsSaveable(b, j);
      if Saveable(b.syms[x]) && x != j {
        EdgeSaved(b, address, modules, need, g, stop, j, x);
        ReachesNext(SavedStep(g, stop), Rank(need, p[0]), Rank(need, j), Rank(need, x));
      }
    }
  }

  lemma StepIsOut(b: Built, stop: set<string>, u: nat, v: nat)
    requires b.Shaped() && v in BuiltStep(b, stop)(u)
    ensures u < |b.syms| && v in Out(b, u)
  {
  }

  lemma SafeIsSaveable(b: Built, u: nat)
    requires b.Shaped() && IsSafe(b, u)
    ensures u < |b.syms| && Saveable(b.syms[u])
  {
  }

  lemma NeededIsSaveable(b: Built, u: nat)
    requires b.Shaped() && IsNeeded(b, u)
    ensures u < |b.syms| && Saveable(b.syms[u])
  {
  }

  /**
   From a saved root, the closure of the saved graph is that of the built graph, renumbered, without what is not saveable.
   */
  lemma ClosureKept(b: Built, address: seq<nat>, modules: seq<string>, need: seq<bool>, g: Graph, stop: set<string>,
                    root: nat, i: nat)
    requires b.Typed() && |address| == |b.syms| && IsSavedGraph(b, address, modules, need, g)
    requires root < |b.syms| && need[root] && i < |b.syms|
    ensures need[i] && Reaches(SavedStep(g, stop), Rank(need, root), Rank(need, i))
       <==> Saveable(b.syms[i]) && Reaches(BuiltStep(b, stop), root, i)
  {
    hide BuiltStep, SavedStep, Saveable, Rank, IsSaved, Numbered, IsNeeded;
    if need[i] && Reaches(SavedStep(g, stop), Rank(need, root), Rank(need, i)) {
      var q :| Path(SavedStep(g, stop), q) && q[0] == Rank(need, root) && q[|q| - 1] == Rank(need, i);
      var j := PathLifts(b, address, modules, need, g, stop, root, q, |q| - 1);
      RankInjective(need, i, j);
      NeededIsSaveable(b, i);
    }
    if Saveable(b.syms[i]) && Reaches(BuiltStep(b, stop), root, i) {
      var p :| Path(BuiltStep(b, stop), p) && p[0] == root && p[|p| - 1] == i;
      PathSaved(b, address, modules, need, g, stop, p, |p| - 1);
    }
  }

  /** Every node of the saved graph is a saved symbol. */
  lemma {:induction false} RankOnto(need: seq<bool>, n: nat, r: nat) returns (i: nat)
    requires n <= |need| && r < Rank(need, n)
    ensures i < n && need[i] && Rank(need, i) == r
  {
    if need[n - 1] && Rank(need, n - 1) == r {
      i := n - 1;
    } else {
      i := RankOnto(need, n - 1, r);
    }
  }
}
