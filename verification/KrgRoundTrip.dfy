/** A graph that is saved, written, loaded and asked answers as the graph that was built. */
module KrgRoundTrip {
  import opened CStrings
  import opened KrgClosure
  import opened KrgFile
  import opened KrgIndex
  import opened KrgLoad
  import opened KrgSafe
  import opened KrgSave
  import opened Options
  import opened Reachability
  import opened Sorting

  /** Graphs that fit the file format: its counts and fields are 32 bits wide, addresses 64, and names end at a NUL. */
  ghost predicate Storable(g: Graph) {
    && g.Valid() && AllNulFree(g.names) && AllNulFree(g.modules)
    && |g.nodes| < U32 && |g.csr.colIdx| < U32 && |Blob(g.names)| < U32
    && |g.modules| < U32 && |Blob(g.modules)| < U32
    && (forall k :: 0 <= k < |g.nodes| ==> NodeFits(g.nodes[k]))
  }

  lemma StorableFits(g: Graph)
    requires Storable(g)
    ensures Fits(TablesOf(g))
  {
    hide Blob, NodeFits, AllNulFree, Offsets;
    OffsetsInside(g.names);
    OffsetsInside(g.modules);
    forall k | 0 <= k < |g.csr.colIdx| ensures g.csr.colIdx[k] < U32 {
      assert g.csr.colIdx[k] in g.csr.colIdx;
    }
    forall k | 0 <= k < |g.csr.rowPtr| ensures g.csr.rowPtr[k] < U32 {
      assert g.csr.rowPtr[k] <= g.csr.rowPtr[|g.nodes|];
    }
    OffsetsLength(g.names);
    OffsetsLength(g.modules);
  }

  lemma OffsetsLength(names: seq<string>)
    ensures |Offsets(names)| == |names|
  {
  }

  lemma StringTableBack(names: seq<string>)
    requires AllNulFree(names)
    ensures ReadAll(Blob(names), Offsets(names)) == Ok(names)
  {
    StringsBack(names, |names|);
    assert Offsets(names)[..|names|] == Offsets(names) && names[..|names|] == names;
  }

  /** The DSO builder's loader gives back nodes, edges, names and modules, and none of its checks fires. */
  lemma LoadBack(g: Graph)
    requires Storable(g)
    ensures Loading(FileOf(TablesOf(g))) ==
            Ok(Loaded(ResolvedNodes(g.nodes, g.names, OrKernel(g.modules)), g.csr.rowPtr, g.csr.colIdx,
                      OrKernel(g.modules), LastIds(g.names)))
  {
    hide Blob, Offsets, AllNulFree, Parse, FileOf;
    StorableFits(g);
    ParseBack(TablesOf(g));
    StringTableBack(g.names);
    StringTableBack(g.modules);
  }

  // ---------------------------------------------------------------------------------------------
  // The reader of the query command

  datatype QueryGraph = QueryGraph(graph: Graph, ids: map<string, nat>)

  /** C strings in a buffer that ends with a NUL of its own; behind the buffer nothing is modelled. */
  function StringsAt(blob: string, offs: seq<nat>): (r: seq<string>)
    ensures |r| == |offs|
  {
    seq(|offs|, k requires 0 <= k < |offs| => CString(blob, offs[k]))
  }

  /** A name stands for its first node. */
  function FirstIds(names: seq<string>): map<string, nat> {
    if names == [] then map[]
    else
      var ids, last := FirstIds(names[..|names| - 1]), names[|names| - 1];
      if last in ids then ids else ids[last := |names| - 1]
  }

  /** What the query command loads: the same tables, other rules for strings and doubled names. */
  function GraphLoading(file: string): Option<QueryGraph> {
    match Parse(file)
    case Err(_) => None
    case Ok((h, t)) =>
      if exists k :: 0 <= k < |t.moduleOff| && t.moduleOff[k] >= |t.moduleBlob| then None
      else
        var names := StringsAt(t.blob, t.nameOff);
        Some(QueryGraph(Graph(t.nodes, names, Csr(t.rowPtr, t.colIdx), OrKernel(StringsAt(t.moduleBlob, t.moduleOff))),
                        FirstIds(names)))
  }

  /** The module names, unless one of their offsets lies behind the blob. */
  method ModuleNames(blob: string, offs: seq<nat>) returns (r: Option<seq<string>>)
    ensures r == if exists k :: 0 <= k < |offs| && offs[k] >= |blob| then None else Some(StringsAt(blob, offs))
  {
    hide CString;
    var names := [];
    for k := 0 to |offs|
      invariant names == StringsAt(blob, offs[..k]) && forall j :: 0 <= j < k ==> offs[j] < |blob|
    {
      if offs[k] >= |blob| {
        return None;
      }
      names := names + [CString(blob, offs[k])];
    }
    assert offs[..|offs|] == offs;
    r := Some(names);
  }

  method NodeNames(blob: string, offs: seq<nat>) returns (names: seq<string>, ids: map<string, nat>)
    ensures names == StringsAt(blob, offs) && ids == FirstIds(names)
  {
    hide CString;
    names, ids := [], map[];
    for k := 0 to |offs|
      invariant names == StringsAt(blob, offs[..k]) && ids == FirstIds(names)
    {
      var name := CString(blob, offs[k]);
      assert (names + [name])[..k] == names;
      names := names + [name];
      if name !in ids {
        ids := ids[name := k];
      }
    }
    assert offs[..|offs|] == offs;
  }

  /** `Graph::load`. */
  method LoadGraph(file: string) returns (r: Option<QueryGraph>)
    ensures r == GraphLoading(file)
  {
    hide TablesAt, Truncation, StringsAt, FirstIds;
    if |file| < 32 || Word(file, 0) != MAGIC {
      return None;
    }
    var version := Word(file, 4);
    if version >= 2 && |file| < 40 {
      return None;
    }
    if version != 1 && version != 2 {
      return None;
    }
    var moduleCount, moduleBytes := 1, 0;
    if version == 2 {
      moduleCount, moduleBytes := Word(file, 32), Word(file, 36);
    }
    var h := Header(version, Word(file, 8), Word(file, 12), Word(file, 16), moduleCount, moduleBytes);
    var tables := ReadTables(file, h);
    if tables.Err? {
      return None;
    }
    var t := tables.value;
    var modules := ModuleNames(t.moduleBlob, t.moduleOff);
    if modules == None {
      return None;
    }
    var names, ids := NodeNames(t.blob, t.nameOff);
    r := Some(QueryGraph(Graph(t.nodes, names, Csr(t.rowPtr, t.colIdx), OrKernel(modules.value)), ids));
  }

  lemma CStringsBack(names: seq<string>)
    requires AllNulFree(names)
    ensures StringsAt(Blob(names), Offsets(names)) == names
  {
    hide Blob, CString;
    forall k | 0 <= k < |names| ensures CString(Blob(names), Offsets(names)[k]) == names[k] {
      StringHeld(names, k);
      ReadsName(Blob(names), Offsets(names)[k], names[k]);
    }
  }

  /** The query command's loader gives back the graph, too. */
  lemma LoadGraphBack(g: Graph)
    requires Storable(g)
    ensures GraphLoading(FileOf(TablesOf(g))) == Some(QueryGraph(g.(modules := OrKernel(g.modules)), FirstIds(g.names)))
  {
    hide Blob, Offsets, AllNulFree, Parse, FileOf, StringsAt;
    StorableFits(g);
    ParseBack(TablesOf(g));
    CStringsBack(g.names);
    CStringsBack(g.modules);
    OffsetsInside(g.modules);
    OffsetsLength(g.modules);
  }

  /** When names are distinct, both readers know each node by its name. */
  lemma {:induction false} IdsOfDistinct(names: seq<string>, k: nat)
    requires Distinct(names) && k < |names|
    ensures names[k] in LastIds(names) && LastIds(names)[names[k]] == k
    ensures names[k] in FirstIds(names) && FirstIds(names)[names[k]] == k
  {
    var init := names[..|names| - 1];
    if k < |init| {
      IdsOfDistinct(init, k);
    } else {
      NoSuchName(init, names[k]);
    }
  }

  lemma {:induction false} NoSuchName(names: seq<string>, name: string)
    requires name !in names
    ensures name !in FirstIds(names)
  {
    if names != [] { NoSuchName(names[..|names| - 1], name); }
  }

  // ---------------------------------------------------------------------------------------------
  // Asking for a closure

  /** The loaded graph. */
  function Reloaded(l: Loaded): Graph {
    Graph(
      seq(|l.nodes|, k requires 0 <= k < |l.nodes| =>
        Node(l.nodes[k].addr, l.nodes[k].size, l.nodes[k].moduleId, l.nodes[k].kind)),
      seq(|l.nodes|, k requires 0 <= k < |l.nodes| => l.nodes[k].name), Csr(l.rowPtr, l.colIdx), l.modules)
  }

  /** What a loaded file is always like, whatever its rows say. */
  lemma LoadedShape(file: string)
    requires Loading(file).Ok?
    ensures Reloaded(Loading(file).value).Shaped()
    ensures forall name :: name in Loading(file).value.ids ==>
              Loading(file).value.ids[name] < |Loading(file).value.nodes|
              && Loading(file).value.nodes[Loading(file).value.ids[name]].name == name
  {
    hide ReadAll, ResolvedNode, LastIds;
    var t := Parse(file).value.1;
    ReadAllLength(t.blob, t.nameOff);
    LastIdsInRange(ReadAll(t.blob, t.nameOff).value);
    assert forall k :: 0 <= k < |t.nameOff| ==>
        Loading(file).value.nodes[k].name == ReadAll(t.blob, t.nameOff).value[k] by { NamesKept(file); }
  }

  lemma NamesKept(file: string)
    requires Loading(file).Ok?
    ensures Parse(file).Ok?
    ensures var t := Parse(file).value.1;
            ReadAll(t.blob, t.nameOff).Ok? && |ReadAll(t.blob, t.nameOff).value| == |Loading(file).value.nodes|
            && forall k :: 0 <= k < |Loading(file).value.nodes| ==>
                 Loading(file).value.nodes[k].name == ReadAll(t.blob, t.nameOff).value[k]
  {
    hide ReadAll;
  }

  lemma {:induction false} LastIdsInRange(names: seq<string>)
    ensures forall name :: name in LastIds(names) ==>
              LastIds(names)[name] < |names| && names[LastIds(names)[name]] == name
  {
    if names != [] {
      LastIdsInRange(names[..|names| - 1]);
    }
  }

  datatype Answer = Unknown | Damaged | Found(nodes: seq<Resolved>)

  /**
   `closure` of the DSO builder, on any file that was loaded: unknown names are refused, rows that cannot be read are an
   error, and otherwise the nodes behind the name are returned.
   */
  method Query(file: string, l: Loaded, symbol: string, stop: set<string>) returns (r: Answer, ghost listed: seq<nat>)
    requires Loading(file) == Ok(l)
    ensures Reloaded(l).Shaped() && (symbol in l.ids ==> l.ids[symbol] < |l.nodes|)
    ensures r.Unknown? <==> symbol !in l.ids
    ensures r.Damaged? <==> symbol in l.ids && exists u ::
              Reaches(SavedStep(Reloaded(l), stop), l.ids[symbol], u) && Unreadable(Reloaded(l), stop, u)
    ensures r.Found? ==> |r.nodes| == |listed|
    ensures forall j, k :: 0 <= j < k < |listed| ==> listed[j] < listed[k]
    ensures r.Found? ==> forall v :: v in listed <==> Reaches(SavedStep(Reloaded(l), stop), l.ids[symbol], v)
    ensures r.Found? ==> forall k :: 0 <= k < |listed| ==> listed[k] < |l.nodes| && r.nodes[k] == l.nodes[listed[k]]
  {
    hide Reaches, Loading, Unreadable;
    LoadedShape(file);
    listed := [];
    if symbol !in l.ids {
      return Unknown, [];
    }
    var found := Closure(Reloaded(l), l.ids[symbol], stop);
    if found.None? {
      return Damaged, [];
    }
    listed := found.value;
    var nodes := [];
    for k := 0 to |found.value|
      invariant |nodes| == k
      invariant forall j :: 0 <= j < k ==> found.value[j] < |l.nodes| && nodes[j] == l.nodes[found.value[j]]
    {
      ReachedExists(Reloaded(l), stop, l.ids[symbol], found.value[k]);
      nodes := nodes + [l.nodes[found.value[k]]];
    }
    r := Found(nodes);
  }

  lemma ReachedExists(g: Graph, stop: set<string>, root: nat, v: nat)
    requires g.Shaped() && root < |g.nodes| && Reaches(SavedStep(g, stop), root, v)
    ensures v < |g.nodes|
  {
    var p :| Path(SavedStep(g, stop), p) && p[0] == root && p[|p| - 1] == v;
    if |p| > 1 {
      var u := p[|p| - 2];
      assert p[|p| - 2 + 1] in SavedStep(g, stop)(u);
      assert v in g.csr.Row(|g.nodes|, u);
    }
  }

  lemma ReloadedIs(g: Graph)
    requires Storable(g) && g.modules != []
    ensures Loading(FileOf(TablesOf(g))).Ok? && Reloaded(Loading(FileOf(TablesOf(g))).value) == g
    ensures Loading(FileOf(TablesOf(g))).value.ids == LastIds(g.names)
  {
    hide Loading, FileOf, TablesOf;
    LoadBack(g);
  }

  /**
   From building to asking: for every symbol that was saved, the closure in the file as loaded lists exactly the symbols
   that the built and pruned graph reaches, but for those that cannot be saved.
   */
  lemma AnswersSurvive(b: Built, address: seq<nat>, modules: seq<string>, need: seq<bool>, g: Graph, l: Loaded,
                       stop: set<string>, root: nat, i: nat)
    requires b.Typed() && |address| == |b.syms| && IsSavedGraph(b, address, modules, need, g)
    requires modules != [] && Storable(g) && Distinct(g.names) && Loading(FileOf(TablesOf(g))) == Ok(l)
    requires root < |b.syms| && need[root] && i < |b.syms|
    ensures Reloaded(l).Valid() && b.syms[root].name in l.ids && forall u :: !Unreadable(Reloaded(l), stop, u)
    ensures need[i] && Reaches(SavedStep(Reloaded(l), stop), l.ids[b.syms[root].name], Rank(need, i))
       <==> Saveable(b.syms[i]) && Reaches(BuiltStep(b, stop), root, i)
    ensures need[i] ==> Rank(need, i) < |l.nodes| && l.nodes[Rank(need, i)].name == b.syms[i].name
                        && l.nodes[Rank(need, i)].addr == address[i]
  {
    hide Reaches, Loading, FileOf, TablesOf, Storable, Rank, IsSaved, IsNeeded, LastIds, SavedStep, BuiltStep;
    ReloadedIs(g);
    forall u ensures !Unreadable(Reloaded(l), stop, u) {
      AlwaysReadable(Reloaded(l), stop, u);
    }
    assert Numbered(b.syms, address, |modules|, need, g, root);
    IdsOfDistinct(g.names, Rank(need, root));
    ClosureKept(b, address, modules, need, g, stop, root, i);
    if need[i] {
      assert Numbered(b.syms, address, |modules|, need, g, i);
      assert g.names[Rank(need, i)] == l.nodes[Rank(need, i)].name;
      assert g.nodes[Rank(need, i)].addr == l.nodes[Rank(need, i)].addr;
    }
  }
}
