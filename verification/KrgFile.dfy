/** The stored form of a graph, version 2: its writer, the two readers' table level, and that they invert the writer. */
module KrgFile {
  import opened Concatenation
  import opened KrgSave
  import opened Options
  import opened Powers

  // ---------------------------------------------------------------------------------------------
  // Little-endian numbers; a byte is a char below 256

  function Le(v: nat, k: nat): (s: string)
    ensures |s| == k
  {
    if k == 0 then "" else [(v % 256) as char] + Le(v / 256, k - 1)
  }

  function FromLe(s: string): nat {
    if s == "" then 0 else s[0] as nat + 256 * FromLe(s[1..])
  }

  /** Reading back gives the number, cut to the bytes there are. */
  lemma {:induction false} LeReadBack(v: nat, k: nat)
    ensures v < Pow(256, k) ==> FromLe(Le(v, k)) == v
  {
    if k > 0 && v < Pow(256, k) { LeReadBack(v / 256, k - 1); }
  }

  lemma Widths()
    ensures Pow(256, 1) == 0x100 && Pow(256, 2) == 0x1_0000 && Pow(256, 4) == 0x1_0000_0000
    ensures Pow(256, 8) == 0x1_0000_0000_0000_0000
  {
    assert Pow(256, 3) == 0x100_0000;
    assert Pow(256, 4) == 0x1_0000_0000;
    assert Pow(256, 5) == 256 * Pow(256, 4);
    assert Pow(256, 6) == 256 * Pow(256, 5);
    assert Pow(256, 7) == 256 * Pow(256, 6);
  }

  const U32: nat := 0x1_0000_0000
  const U64: nat := 0x1_0000_0000_0000_0000

  function Word(file: string, at: nat): nat
    requires at + 4 <= |file|
  {
    FromLe(file[at..at + 4])
  }

  lemma WordBack(file: string, at: nat, v: nat)
    requires Placed(file, at, Le(v, 4)) && v < U32
    ensures Word(file, at) == v
  {
    Widths();
    LeReadBack(v, 4);
  }

  // ---------------------------------------------------------------------------------------------
  // Tables

  ghost function WordParts(xs: seq<nat>): seq<string> { seq(|xs|, k requires 0 <= k < |xs| => Le(xs[k], 4)) }

  ghost function Words(xs: seq<nat>): string { Flatten(WordParts(xs)) }

  function ReadWords(file: string, at: nat, n: nat): seq<nat>
    requires at + 4 * n <= |file|
  {
    seq(n, k requires 0 <= k < n => Word(file, at + 4 * k))
  }

  ghost predicate AllU32(xs: seq<nat>) { forall k :: 0 <= k < |xs| ==> xs[k] < U32 }

  lemma WordsLength(xs: seq<nat>)
    ensures |Words(xs)| == 4 * |xs|
  {
    FlattenUniform(WordParts(xs), 4);
  }

  lemma WordsBack(file: string, at: nat, xs: seq<nat>)
    requires Placed(file, at, Words(xs)) && AllU32(xs)
    ensures at + 4 * |xs| <= |file| && ReadWords(file, at, |xs|) == xs
  {
    WordsLength(xs);
    forall k | 0 <= k < |xs| ensures Word(file, at + 4 * k) == xs[k] {
      UniformPlaced(WordParts(xs), 4, k);
      PlacedInside(file, at, Words(xs), 4 * k, Le(xs[k], 4));
      WordBack(file, at + 4 * k, xs[k]);
    }
  }

  /** A node takes 16 bytes; the last one is padding. */
  ghost function NodeBytes(n: Node): (s: string)
    ensures |s| == 16
  {
    Le(n.addr, 8) + Le(n.size, 4) + Le(n.moduleId, 2) + Le(n.kind, 1) + Le(0, 1)
  }

  /** In version 1 nodes have no module, and the kind is where the module is now. */
  function ReadNode(file: string, at: nat, version: nat): Node
    requires at + 16 <= |file|
  {
    var addr, size := FromLe(file[at..at + 8]), FromLe(file[at + 8..at + 12]);
    if version >= 2 then Node(addr, size, FromLe(file[at + 12..at + 14]), FromLe(file[at + 14..at + 15]))
    else Node(addr, size, 0, FromLe(file[at + 12..at + 13]))
  }

  predicate NodeFits(n: Node) { n.addr < U64 && n.size < U32 && n.moduleId < 0x1_0000 && n.kind < 0x100 }

  lemma NodeBack(file: string, at: nat, n: Node)
    requires Placed(file, at, NodeBytes(n)) && NodeFits(n)
    ensures ReadNode(file, at, 2) == n
  {
    hide Le, FromLe, Pow;
    Widths();
    LeReadBack(n.addr, 8);
    LeReadBack(n.size, 4);
    LeReadBack(n.moduleId, 2);
    LeReadBack(n.kind, 1);
    var s := NodeBytes(n);
    assert s[0..8] == Le(n.addr, 8) && s[8..12] == Le(n.size, 4);
    assert s[12..14] == Le(n.moduleId, 2) && s[14..15] == Le(n.kind, 1);
    PlacedInside(file, at, s, 0, Le(n.addr, 8));
    PlacedInside(file, at, s, 8, Le(n.size, 4));
    PlacedInside(file, at, s, 12, Le(n.moduleId, 2));
    PlacedInside(file, at, s, 14, Le(n.kind, 1));
  }

  ghost function NodeBlocks(nodes: seq<Node>): seq<string> {
    seq(|nodes|, k requires 0 <= k < |nodes| => NodeBytes(nodes[k]))
  }

  ghost function NodeTable(nodes: seq<Node>): string { Flatten(NodeBlocks(nodes)) }

  function ReadNodes(file: string, at: nat, n: nat, version: nat): seq<Node>
    requires at + 16 * n <= |file|
  {
    seq(n, k requires 0 <= k < n => ReadNode(file, at + 16 * k, version))
  }

  lemma NodesBack(file: string, at: nat, nodes: seq<Node>)
    requires Placed(file, at, NodeTable(nodes)) && forall k :: 0 <= k < |nodes| ==> NodeFits(nodes[k])
    ensures |NodeTable(nodes)| == 16 * |nodes| && at + 16 * |nodes| <= |file| && ReadNodes(file, at, |nodes|, 2) == nodes
  {
    hide NodeBytes, ReadNode, Flatten;
    var parts := NodeBlocks(nodes);
    FlattenUniform(parts, 16);
    forall k | 0 <= k < |nodes| ensures ReadNode(file, at + 16 * k, 2) == nodes[k] {
      UniformPlaced(parts, 16, k);
      PlacedInside(file, at, NodeTable(nodes), 16 * k, NodeBytes(nodes[k]));
      NodeBack(file, at + 16 * k, nodes[k]);
    }
  }

  // ---------------------------------------------------------------------------------------------
  // The file

  datatype Tables = Tables(nodes: seq<Node>, rowPtr: seq<nat>, colIdx: seq<nat>, nameOff: seq<nat>, blob: string,
                           moduleOff: seq<nat>, moduleBlob: string)

  /** What the fields of the file have room for. */
  ghost predicate Fits(t: Tables) {
    && |t.rowPtr| == |t.nodes| + 1 && |t.nameOff| == |t.nodes|
    && |t.nodes| < U32 && |t.colIdx| < U32 && |t.blob| < U32 && |t.moduleOff| < U32 && |t.moduleBlob| < U32
    && AllU32(t.rowPtr) && AllU32(t.colIdx) && AllU32(t.nameOff) && AllU32(t.moduleOff)
    && (forall k :: 0 <= k < |t.nodes| ==> NodeFits(t.nodes[k]))
  }

  const MAGIC: nat := 0x3147_524b

  ghost function HeaderWords(t: Tables): seq<nat> {
    [MAGIC, 2, |t.nodes|, |t.colIdx|, |t.blob|, 0, 0, 0, |t.moduleOff|, |t.moduleBlob|]
  }

  ghost function FileParts(t: Tables): seq<string> {
    [Words(HeaderWords(t)), NodeTable(t.nodes), Words(t.rowPtr), Words(t.colIdx), Words(t.nameOff), t.blob,
     Words(t.moduleOff), t.moduleBlob]
  }

  ghost function FileOf(t: Tables): string { Flatten(FileParts(t)) }

  datatype Header = Header(version: nat, nodes: nat, edges: nat, nameBytes: nat, modules: nat, moduleBytes: nat) {
    function NodesAt(): nat { if version >= 2 then 40 else 32 }
    function RowsAt(): nat { NodesAt() + 16 * nodes }
    function ColumnsAt(): nat { RowsAt() + 4 * (nodes + 1) }
    function OffsetsAt(): nat { ColumnsAt() + 4 * edges }
    function BlobAt(): nat { OffsetsAt() + 4 * nodes }
    function ModulesAt(): nat { BlobAt() + nameBytes }
    function ModuleBlobAt(): nat { ModulesAt() + 4 * modules }
    function End(): nat { if version >= 2 then ModuleBlobAt() + moduleBytes else ModulesAt() }
  }

  datatype LoadError = HeaderTooSmall | UnsupportedHeader | TruncatedNodes | TruncatedRows | TruncatedColumns
    | TruncatedOffsets | TruncatedBlob | TruncatedModules | TruncatedModuleBlob

  function ParseHeader(file: string): Result<Header, LoadError> {
    if |file| < 32 then Err(HeaderTooSmall)
    else
      var version := Word(file, 4);
      if version >= 2 && |file| < 40 then Err(HeaderTooSmall)
      else if Word(file, 0) != MAGIC || version == 0 || version > 2 then Err(UnsupportedHeader)
      else
        var modules, bytes := if version == 2 then Word(file, 32) else 1, if version == 2 then Word(file, 36) else 0;
        Ok(Header(version, Word(file, 8), Word(file, 12), Word(file, 16), modules, bytes))
  }

  /** The first table that does not lie within the file. */
  function Truncation(h: Header, size: nat): Option<LoadError> {
    if h.RowsAt() > size then Some(TruncatedNodes)
    else if h.ColumnsAt() > size then Some(TruncatedRows)
    else if h.OffsetsAt() > size then Some(TruncatedColumns)
    else if h.BlobAt() > size then Some(TruncatedOffsets)
    else if h.ModulesAt() > size then Some(TruncatedBlob)
    else if h.version >= 2 && h.ModuleBlobAt() > size then Some(TruncatedModules)
    else if h.End() > size then Some(TruncatedModuleBlob)
    else None
  }

  function TablesAt(file: string, h: Header): (t: Tables)
    requires Truncation(h, |file|) == None
    ensures |t.nameOff| == |t.nodes| && |t.rowPtr| == |t.nodes| + 1
  {
    Tables(
      ReadNodes(file, h.NodesAt(), h.nodes, h.version),
      ReadWords(file, h.RowsAt(), h.nodes + 1),
      ReadWords(file, h.ColumnsAt(), h.edges),
      ReadWords(file, h.OffsetsAt(), h.nodes),
      file[h.BlobAt()..h.ModulesAt()],
      if h.version >= 2 then ReadWords(file, h.ModulesAt(), h.modules) else [],
      if h.version >= 2 then file[h.ModuleBlobAt()..h.End()] else "")
  }

  /** The tables of a file, or what is wrong with it. */
  function Parse(file: string): Result<(Header, Tables), LoadError> {
    match ParseHeader(file)
    case Err(e) => Err(e)
    case Ok(h) =>
      match Truncation(h, |file|)
      case Some(e) => Err(e)
      case None => Ok((h, TablesAt(file, h)))
  }

  // ---------------------------------------------------------------------------------------------
  // Writing and parsing are inverse

  lemma FileLayout(t: Tables, h: Header)
    requires Fits(t)
    requires h == Header(2, |t.nodes|, |t.colIdx|, |t.blob|, |t.moduleOff|, |t.moduleBlob|)
    ensures |FileOf(t)| == h.End() && Placed(FileOf(t), 0, Words(HeaderWords(t)))
    ensures Placed(FileOf(t), 40, NodeTable(t.nodes)) && Placed(FileOf(t), h.RowsAt(), Words(t.rowPtr))
    ensures Placed(FileOf(t), h.ColumnsAt(), Words(t.colIdx)) && Placed(FileOf(t), h.OffsetsAt(), Words(t.nameOff))
    ensures Placed(FileOf(t), h.BlobAt(), t.blob) && Placed(FileOf(t), h.ModulesAt(), Words(t.moduleOff))
    ensures Placed(FileOf(t), h.ModuleBlobAt(), t.moduleBlob)
  {
    hide Placed, Flatten, Words, NodeTable;
    var parts := FileParts(t);
    forall k | 0 <= k < 8
      ensures Placed(FileOf(t), |Flatten(parts[..k])|, parts[k])
      ensures |Flatten(parts[..k + 1])| == |Flatten(parts[..k])| + |parts[k]|
    {
      PartPlaced(parts, k);
    }
    NothingFlat(parts);
    Lengths(t);
    assert parts[..8] == parts;
    assert |Flatten(parts[..1])| == 40;
    assert |Flatten(parts[..1 + 1])| == h.RowsAt();
    assert |Flatten(parts[..2 + 1])| == h.ColumnsAt();
    assert |Flatten(parts[..3 + 1])| == h.OffsetsAt();
    assert |Flatten(parts[..4 + 1])| == h.BlobAt();
    assert |Flatten(parts[..5 + 1])| == h.ModulesAt();
    assert |Flatten(parts[..6 + 1])| == h.ModuleBlobAt();
    assert |Flatten(parts[..7 + 1])| == h.End();
  }

  lemma NothingFlat(parts: seq<string>)
    ensures Flatten(parts[..0]) == ""
  {
  }

  lemma Lengths(t: Tables)
    ensures |Words(HeaderWords(t))| == 40 && |NodeTable(t.nodes)| == 16 * |t.nodes|
    ensures |Words(t.rowPtr)| == 4 * |t.rowPtr| && |Words(t.colIdx)| == 4 * |t.colIdx|
    ensures |Words(t.nameOff)| == 4 * |t.nameOff| && |Words(t.moduleOff)| == 4 * |t.moduleOff|
  {
    hide Words;
    WordsLength(HeaderWords(t));
    WordsLength(t.rowPtr);
    WordsLength(t.colIdx);
    WordsLength(t.nameOff);
    WordsLength(t.moduleOff);
    FlattenUniform(NodeBlocks(t.nodes), 16);
  }

  lemma HeaderBack(file: string, t: Tables)
    requires Fits(t) && Placed(file, 0, Words(HeaderWords(t)))
    ensures ParseHeader(file) == Ok(Header(2, |t.nodes|, |t.colIdx|, |t.blob|, |t.moduleOff|, |t.moduleBlob|))
  {
    hide Word, Placed, Words;
    var ws := HeaderWords(t);
    WordsBack(file, 0, ws);
    forall k | 0 <= k < 10 ensures Word(file, 4 * k) == ws[k] {
      assert ReadWords(file, 0, 10)[k] == Word(file, 0 + 4 * k);
    }
    assert Word(file, 4 * 0) == MAGIC && Word(file, 4 * 1) == 2 && Word(file, 4 * 2) == |t.nodes|;
    assert Word(file, 4 * 3) == |t.colIdx| && Word(file, 4 * 4) == |t.blob|;
    assert Word(file, 4 * 8) == |t.moduleOff| && Word(file, 4 * 9) == |t.moduleBlob|;
  }

  // ---------------------------------------------------------------------------------------------
  // What a file says

  /** A file of bytes has the first word of a graph if and only if it begins with these four characters. */
  lemma MagicText(s: string)
    requires |s| == 4 && forall k :: 0 <= k < 4 ==> s[k] as nat < 0x100
    ensures FromLe(s) == 0x3147_524b <==> s == "KRG1"
  {
    assert s[1..][1..] == s[2..] && s[2..][1..] == s[3..] && s[3..][1..] == "";
    assert FromLe(s[3..]) == s[3] as nat && FromLe(s[2..]) == s[2] as nat + 0x100 * FromLe(s[3..]);
    assert FromLe(s[1..]) == s[1] as nat + 0x100 * FromLe(s[2..]);
    assert FromLe(s) == s[0] as nat + 0x100 * (s[1] as nat + 0x100 * (s[2] as nat + 0x100 * (s[3] as nat)));
    if FromLe(s) == 0x3147_524b {
      assert s[0] == 'K' && s[1] == 'R' && s[2] == 'G' && s[3] == '1';
    }
  }

  /** Which files have a header, and what it says. */
  lemma HeaderExactly(file: string)
    ensures ParseHeader(file).Ok? <==>
              && |file| >= 32 && FromLe(file[..4]) == 0x3147_524b
              && (FromLe(file[4..8]) == 1 || (FromLe(file[4..8]) == 2 && |file| >= 40))
    ensures ParseHeader(file) == Err(HeaderTooSmall) <==> |file| < 32 || (|file| < 40 && FromLe(file[4..8]) >= 2)
    ensures ParseHeader(file).Ok? ==>
              var h := ParseHeader(file).value;
              && h.version == FromLe(file[4..8]) && h.nodes == FromLe(file[8..12]) && h.edges == FromLe(file[12..16])
              && h.nameBytes == FromLe(file[16..20])
              && (h.version == 2 ==> h.modules == FromLe(file[32..36]) && h.moduleBytes == FromLe(file[36..40]))
  {
    hide FromLe;
    assert |file| >= 4 ==> file[0..4] == file[..4];
  }

  /** A file of version 1 has nodes without modules at byte 32, with their kinds at byte 12, and no module tables. */
  lemma VersionOne(file: string)
    requires Parse(file).Ok? && FromLe(file[4..8]) == 1
    ensures var (h, t) := Parse(file).value;
            var n, e := FromLe(file[8..12]), FromLe(file[12..16]);
            && |t.nodes| == |t.nameOff| == n && |t.rowPtr| == n + 1 && |t.colIdx| == e && |t.moduleOff| == 0
            && 36 + 24 * n + 4 * e + FromLe(file[16..20]) <= |file|
            && t.blob == file[36 + 24 * n + 4 * e..36 + 24 * n + 4 * e + FromLe(file[16..20])]
            && (forall k :: 0 <= k < n ==>
                  t.nodes[k] == Node(FromLe(file[32 + 16 * k..40 + 16 * k]), FromLe(file[40 + 16 * k..44 + 16 * k]), 0,
                                     file[44 + 16 * k] as nat))
            && (forall k :: 0 <= k <= n ==> t.rowPtr[k] == FromLe(file[32 + 16 * n + 4 * k..36 + 16 * n + 4 * k]))
            && (forall k :: 0 <= k < e ==> t.colIdx[k] == FromLe(file[36 + 20 * n + 4 * k..40 + 20 * n + 4 * k]))
  {
    hide FromLe;
    var n := FromLe(file[8..12]);
    forall k | 0 <= k < n ensures FromLe(file[44 + 16 * k..45 + 16 * k]) == file[44 + 16 * k] as nat {
      OneByteNumber(file[44 + 16 * k..45 + 16 * k]);
    }
  }

  lemma OneByteNumber(s: string)
    requires |s| == 1
    ensures FromLe(s) == s[0] as nat
  {
    assert s[1..] == "";
  }

  /** A written file parses, and parses to the tables that were written. */
  lemma ParseBack(t: Tables)
    requires Fits(t)
    ensures Parse(FileOf(t)).Ok? && Parse(FileOf(t)).value.1 == t
    ensures Parse(FileOf(t)).value.0.version == 2
  {
    hide ReadWords, ReadNodes, Flatten, Words, NodeTable, FileOf, ParseHeader;
    var file := FileOf(t);
    var h := Header(2, |t.nodes|, |t.colIdx|, |t.blob|, |t.moduleOff|, |t.moduleBlob|);
    FileLayout(t, h);
    HeaderBack(file, t);
    NodesBack(file, 40, t.nodes);
    WordsBack(file, h.RowsAt(), t.rowPtr);
    WordsBack(file, h.ColumnsAt(), t.colIdx);
    WordsBack(file, h.OffsetsAt(), t.nameOff);
    WordsBack(file, h.ModulesAt(), t.moduleOff);
  }
}
