/** Strings of the stored graph, the writer and the two readers, and that a graph survives being stored. */
module KrgLoad {
  import opened CStrings
  import opened Concatenation
  import opened KrgFile
  import opened KrgIndex
  import opened KrgSave
  import opened Options

  // ---------------------------------------------------------------------------------------------
  // String tables

  function Terminated(names: seq<string>): seq<string> { seq(|names|, k requires 0 <= k < |names| => names[k] + [NUL]) }

  ghost function Blob(names: seq<string>): string { Flatten(Terminated(names)) }

  ghost function Offsets(names: seq<string>): seq<nat> {
    seq(|names|, k requires 0 <= k < |names| => |Flatten(Terminated(names)[..k])|)
  }

  method AppendNames(names: seq<string>) returns (offs: seq<nat>, blob: string)
    ensures offs == Offsets(names) && blob == Blob(names)
  {
    offs, blob := [], "";
    ghost var parts := Terminated(names);
    for k := 0 to |names|
      invariant |offs| == k && blob == Flatten(parts[..k])
      invariant forall j :: 0 <= j < k ==> offs[j] == |Flatten(parts[..j])|
    {
      FlattenStep(parts, k);
      offs := offs + [|blob|];
      blob := blob + names[k] + [NUL];
    }
    assert parts[..|names|] == parts;
  }

  datatype StringError = InvalidOffset(off: nat) | Unterminated(off: nat)

  function ReadString(blob: string, off: nat): Result<string, StringError> {
    if off >= |blob| then Err(InvalidOffset(off))
    else
      var end := FindNul(blob, off);
      if end == -1 then Err(Unterminated(off)) else Ok(blob[off..end])
  }

  /** A string is read if and only if it stands at its offset with a NUL behind it; both failures are told apart. */
  lemma ReadExactly(blob: string, off: nat, name: string)
    ensures ReadString(blob, off) == Ok(name) <==>
              off + |name| < |blob| && blob[off..off + |name|] == name && NUL !in name && blob[off + |name|] == NUL
    ensures ReadString(blob, off) == Err(InvalidOffset(off)) <==> off >= |blob|
    ensures ReadString(blob, off) == Err(Unterminated(off)) <==> off < |blob| && NUL !in blob[off..]
  {
    if off < |blob| {
      var end := FindNul(blob, off);
      if end == -1 {
        assert forall k :: 0 <= k < |blob[off..]| ==> blob[off..][k] == blob[off + k];
      } else {
        assert blob[off..][end - off] == NUL;
        assert forall k :: 0 <= k < |blob[off..end]| ==> blob[off..end][k] == blob[off + k];
      }
      if off + |name| < |blob| && blob[off..off + |name|] == name && NUL !in name && blob[off + |name|] == NUL {
        assert forall k :: 0 <= k < |name| ==> blob[off + k] == name[k];
        assert end == off + |name|;
      }
    }
  }

  /** The strings at the given offsets, or the first offset that names none. */
  function ReadAll(blob: string, offs: seq<nat>): Result<seq<string>, StringError> {
    if offs == [] then Ok([])
    else
      match ReadAll(blob, offs[..|offs| - 1])
      case Err(e) => Err(e)
      case Ok(names) =>
        match ReadString(blob, offs[|offs| - 1])
        case Err(e) => Err(e)
        case Ok(name) => Ok(names + [name])
  }

  ghost predicate AllNulFree(names: seq<string>) { forall k :: 0 <= k < |names| ==> NulFree(names[k]) }

  lemma StringHeld(names: seq<string>, k: nat)
    requires k < |names|
    ensures Holds(Blob(names), Offsets(names)[k], names[k])
  {
    hide Flatten;
    var parts, off := Terminated(names), Offsets(names)[k];
    PartPlaced(parts, k);
    PlacedAt(Blob(names), off, parts[k], |names[k]|);
    PlacedInside(Blob(names), off, parts[k], 0, names[k]);
  }

  lemma StringAt(names: seq<string>, k: nat)
    requires AllNulFree(names) && k < |names|
    ensures ReadString(Blob(names), Offsets(names)[k]) == Ok(names[k])
  {
    hide Blob;
    StringHeld(names, k);
    var blob, off, name := Blob(names), Offsets(names)[k], names[k];
    assert forall j :: 0 <= j < |name| ==> blob[off..off + |name|][j] == name[j];
    assert FindNul(blob, off) == off + |name|;
  }

  lemma {:induction false} StringsBack(names: seq<string>, k: nat)
    requires AllNulFree(names) && k <= |names|
    ensures ReadAll(Blob(names), Offsets(names)[..k]) == Ok(names[..k])
  {
    hide ReadString, Blob, NulFree;
    if k > 0 {
      StringsBack(names, k - 1);
      StringAt(names, k - 1);
      assert Offsets(names)[..k][..k - 1] == Offsets(names)[..k - 1];
      assert names[..k] == names[..k - 1] + [names[k - 1]];
    }
  }

  lemma OffsetsInside(names: seq<string>)
    ensures forall k :: 0 <= k < |names| ==> Offsets(names)[k] < |Blob(names)|
  {
    forall k | 0 <= k < |names| ensures Offsets(names)[k] < |Blob(names)| {
      PartPlaced(Terminated(names), k);
    }
  }

  // ---------------------------------------------------------------------------------------------
  // The writer

  ghost function TablesOf(g: Graph): Tables {
    Tables(g.nodes, g.csr.rowPtr, g.csr.colIdx, Offsets(g.names), Blob(g.names), Offsets(g.modules), Blob(g.modules))
  }

  method WriteWords(file: string, xs: seq<nat>) returns (r: string)
    ensures r == file + Words(xs)
  {
    r := file;
    ghost var parts := WordParts(xs);
    for k := 0 to |xs|
      invariant r == file + Flatten(parts[..k])
    {
      FlattenStep(parts, k);
      assert file + Flatten(parts[..k]) + parts[k] == file + (Flatten(parts[..k]) + parts[k]);
      r := r + Le(xs[k], 4);
    }
    assert parts[..|xs|] == parts;
  }

  method WriteNodes(file: string, nodes: seq<Node>) returns (r: string)
    ensures r == file + NodeTable(nodes)
  {
    hide NodeBytes;
    r := file;
    ghost var parts := NodeBlocks(nodes);
    for k := 0 to |nodes|
      invariant r == file + Flatten(parts[..k])
    {
      FlattenStep(parts, k);
      assert file + Flatten(parts[..k]) + parts[k] == file + (Flatten(parts[..k]) + parts[k]);
      var block := WriteNode(nodes[k]);
      r := r + block;
    }
    assert parts[..|nodes|] == parts;
  }

  method WriteNode(n: Node) returns (r: string)
    ensures r == NodeBytes(n)
  {
    r := Le(n.addr, 8) + Le(n.size, 4) + Le(n.moduleId, 2) + Le(n.kind, 1) + Le(0, 1);
  }

  /** The file as `save` writes it. */
  method Write(g: Graph) returns (file: string)
    ensures file == FileOf(TablesOf(g))
  {
    hide Words, NodeTable, Offsets, Blob;
    var moduleOff, moduleBlob := AppendNames(g.modules);
    var nameOff, blob := AppendNames(g.names);
    var header := [MAGIC, 2, |g.nodes|, |g.csr.colIdx|, |blob|, 0, 0, 0, |moduleOff|, |moduleBlob|];
    file := WriteWords("", header);
    file := WriteNodes(file, g.nodes);
    file := WriteWords(file, g.csr.rowPtr);
    file := WriteWords(file, g.csr.colIdx);
    file := WriteWords(file, nameOff);
    file := file + blob;
    file := WriteWords(file, moduleOff);
    file := file + moduleBlob;
    EightParts(FileParts(TablesOf(g)));
  }

  lemma EightParts(p: seq<string>)
    requires |p| == 8
    ensures Flatten(p) == p[0] + p[1] + p[2] + p[3] + p[4] + p[5] + p[6] + p[7]
  {
    hide Flatten;
    NothingFlat(p);
    assert Flatten(p[..4]) == p[0] + p[1] + p[2] + p[3] by {
      FlattenStep(p, 0);
      FlattenStep(p, 1);
      FlattenStep(p, 2);
      FlattenStep(p, 3);
    }
    FlattenStep(p, 4);
    FlattenStep(p, 5);
    FlattenStep(p, 6);
    FlattenStep(p, 7);
    assert p[..8] == p;
  }

  // ---------------------------------------------------------------------------------------------
  // The reader of the DSO builder

  datatype Resolved = Resolved(name: string, addr: nat, size: nat, kind: nat, moduleId: nat, moduleName: string)

  datatype Loaded = Loaded(nodes: seq<Resolved>, rowPtr: seq<nat>, colIdx: seq<nat>, modules: seq<string>,
                           ids: map<string, nat>)

  datatype LoadFailure = BadTables(tables: LoadError) | BadModule(which: StringError) | BadName(name: StringError)

  function ResolvedNode(n: Node, name: string, modules: seq<string>): Resolved {
    Resolved(name, n.addr, n.size, n.kind, n.moduleId,
             if n.moduleId < |modules| then modules[n.moduleId] else KERNEL_LABEL)
  }

  function ResolvedNodes(nodes: seq<Node>, names: seq<string>, modules: seq<string>): seq<Resolved>
    requires |nodes| == |names|
  {
    seq(|names|, k requires 0 <= k < |names| => ResolvedNode(nodes[k], names[k], modules))
  }

  /** A name stands for its last node. */
  function LastIds(names: seq<string>): map<string, nat> {
    if names == [] then map[] else LastIds(names[..|names| - 1])[names[|names| - 1] := |names| - 1]
  }

  function OrKernel(modules: seq<string>): seq<string> { if modules == [] then [KERNEL_LABEL] else modules }

  /** What loading a file gives. */
  function Loading(file: string): Result<Loaded, LoadFailure> {
    match Parse(file)
    case Err(e) => Err(BadTables(e))
    case Ok((h, t)) =>
      match (if h.version >= 2 then ReadAll(t.moduleBlob, t.moduleOff) else Ok([]))
      case Err(e) => Err(BadModule(e))
      case Ok(found) =>
        match ReadAll(t.blob, t.nameOff)
        case Err(e) => Err(BadName(e))
        case Ok(names) =>
          var modules := OrKernel(found);
          ReadAllLength(t.blob, t.nameOff);
          Ok(Loaded(ResolvedNodes(t.nodes, names, modules), t.rowPtr, t.colIdx, modules, LastIds(names)))
  }

  /** What was loaded has modules, and each node the name of its module, "kernel" where there is none. */
  lemma LoadedModules(file: string)
    requires Loading(file).Ok?
    ensures var l := Loading(file).value;
            && l.modules != []
            && (FromLe(file[4..8]) == 1 || FromLe(file[32..36]) == 0 ==> l.modules == ["kernel"])
            && forall k :: 0 <= k < |l.nodes| ==>
                 l.nodes[k].moduleName ==
                   if l.nodes[k].moduleId < |l.modules| then l.modules[l.nodes[k].moduleId] else "kernel"
  {
    hide Truncation, ReadNodes, FromLe;
    HeaderExactly(file);
    var (h, t) := Parse(file).value;
    if h.version >= 2 {
      ReadAllLength(t.moduleBlob, t.moduleOff);
    }
  }

  /** A name stands for the last node that has it. */
  lemma {:induction false} LastOfName(names: seq<string>, name: string)
    ensures name in LastIds(names) <==> name in names
    ensures name in names ==>
              LastIds(names)[name] < |names| && names[LastIds(names)[name]] == name
              && forall k :: LastIds(names)[name] < k < |names| ==> names[k] != name
  {
    if names != [] {
      LastOfName(names[..|names| - 1], name);
      assert names == names[..|names| - 1] + [names[|names| - 1]];
    }
  }

  lemma {:induction false} ReadAllLength(blob: string, offs: seq<nat>)
    ensures ReadAll(blob, offs).Ok? ==> |ReadAll(blob, offs).value| == |offs|
  {
    if offs != [] { ReadAllLength(blob, offs[..|offs| - 1]); }
  }

  /** The table part of the loader, reading on from a cursor. */
  method ReadTables(file: string, h: Header) returns (r: Result<Tables, LoadError>)
    requires (h.version == 1 || h.version == 2) && h.NodesAt() <= |file|
    ensures r == match Truncation(h, |file|) case Some(e) => Err(e) case None => Ok(TablesAt(file, h))
  {
    hide ReadNode, Word;
    var cursor := h.NodesAt();
    var nodes := [];
    for i := 0 to h.nodes
      invariant cursor == h.NodesAt() + 16 * i <= |file| && |nodes| == i
      invariant forall k :: 0 <= k < i ==> nodes[k] == ReadNode(file, h.NodesAt() + 16 * k, h.version)
    {
      if cursor + 16 > |file| {
        return Err(TruncatedNodes);
      }
      nodes := nodes + [ReadNode(file, cursor, h.version)];
      cursor := cursor + 16;
    }
    if cursor + 4 * (h.nodes + 1) > |file| {
      return Err(TruncatedRows);
    }
    var rowPtr := ReadWords(file, cursor, h.nodes + 1);
    cursor := cursor + 4 * (h.nodes + 1);
    if cursor + 4 * h.edges > |file| {
      return Err(TruncatedColumns);
    }
    var colIdx := ReadWords(file, cursor, h.edges);
    cursor := cursor + 4 * h.edges;
    if cursor + 4 * h.nodes > |file| {
      return Err(TruncatedOffsets);
    }
    var nameOff := ReadWords(file, cursor, h.nodes);
    cursor := cursor + 4 * h.nodes;
    if cursor + h.nameBytes > |file| {
      return Err(TruncatedBlob);
    }
    var blob := file[cursor..cursor + h.nameBytes];
    cursor := cursor + h.nameBytes;
    var moduleOff, moduleBlob := [], "";
    if h.version >= 2 {
      if cursor + 4 * h.modules > |file| {
        return Err(TruncatedModules);
      }
      moduleOff := ReadWords(file, cursor, h.modules);
      cursor := cursor + 4 * h.modules;
      if cursor + h.moduleBytes > |file| {
        return Err(TruncatedModuleBlob);
      }
      moduleBlob := file[cursor..cursor + h.moduleBytes];
    }
    assert nodes == ReadNodes(file, h.NodesAt(), h.nodes, h.version);
    r := Ok(Tables(nodes, rowPtr, colIdx, nameOff, blob, moduleOff, moduleBlob));
  }

  method ReadStrings(blob: string, offs: seq<nat>) returns (r: Result<seq<string>, StringError>)
    ensures r == ReadAll(blob, offs)
  {
    var names := [];
    for k := 0 to |offs|
      invariant ReadAll(blob, offs[..k]) == Ok(names)
    {
      assert offs[..k + 1][..k] == offs[..k];
      match ReadString(blob, offs[k]) {
        case Err(e) =>
          FirstFailure(blob, offs, k, e);
          return Err(e);
        case Ok(name) =>
          names := names + [name];
      }
    }
    assert offs[..|offs|] == offs;
    r := Ok(names);
  }

  lemma {:induction false} FirstFailure(blob: string, offs: seq<nat>, k: nat, e: StringError)
    requires k < |offs| && ReadAll(blob, offs[..k]).Ok? && ReadString(blob, offs[k]) == Err(e)
    ensures ReadAll(blob, offs) == Err(e)
  {
    hide ReadString;
    var init := offs[..|offs| - 1];
    if k == |init| {
      assert init == offs[..k];
    } else {
      assert init[..k] == offs[..k];
      FirstFailure(blob, init, k, e);
    }
  }

  /** `_load` of the DSO builder. */
  method Load(file: string) returns (r: Result<Loaded, LoadFailure>)
    ensures r == Loading(file)
  {
    hide ReadAll, Truncation, TablesAt, ParseHeader, ResolvedNode;
    var header := ParseHeader(file);
    if header.Err? {
      return Err(BadTables(header.error));
    }
    var h := header.value;
    HeaderVersion(file);
    var tables := ReadTables(file, h);
    if tables.Err? {
      return Err(BadTables(tables.error));
    }
    var t := tables.value;
    var found := Ok([]);
    if h.version >= 2 {
      found := ReadStrings(t.moduleBlob, t.moduleOff);
    }
    if found.Err? {
      return Err(BadModule(found.error));
    }
    var modules := OrKernel(found.value);
    var names := ReadStrings(t.blob, t.nameOff);
    if names.Err? {
      return Err(BadName(names.error));
    }
    ReadAllLength(t.blob, t.nameOff);
    var nodes, ids := [], map[];
    for k := 0 to |names.value|
      invariant |nodes| == k && ids == LastIds(names.value[..k])
      invariant forall j :: 0 <= j < k ==> nodes[j] == ResolvedNode(t.nodes[j], names.value[j], modules)
    {
      assert names.value[..k + 1][..k] == names.value[..k];
      nodes := nodes + [ResolvedNode(t.nodes[k], names.value[k], modules)];
      ids := ids[names.value[k] := k];
    }
    assert names.value[..|names.value|] == names.value;
    assert nodes == ResolvedNodes(t.nodes, names.value, modules);
    r := Ok(Loaded(nodes, t.rowPtr, t.colIdx, modules, ids));
  }

  lemma HeaderVersion(file: string)
    requires ParseHeader(file).Ok?
    ensures ParseHeader(file).value.version == 1 || ParseHeader(file).value.version == 2
    ensures ParseHeader(file).value.NodesAt() <= |file|
  {
  }
}
