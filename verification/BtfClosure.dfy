/**
 The BTF type closure: a recursive walk over the type graph of a module and of the kernel it is split from, which marks
 each type in the source that owns it.
 */
module BtfClosure {
  import opened Reachability

  /** A BTF record; type id 0 stands for `void` and for an absent field. */
  datatype BtfType =
    | Modifier(typeId: nat)   // TYPEDEF, CONST, VOLATILE, RESTRICT
    | Ptr(typeId: nat)
    | Array(elemTypeId: nat)
    | Composite(members: seq<nat>)   // STRUCT, UNION
    | Enum
    | FuncProto(retTypeId: nat, params: seq<nat>)
    | Func(typeId: nat)
    | Other

  /** The type ids a record refers to, in the order they are followed. */
  function Children(t: BtfType): seq<nat> {
    match t
    case Modifier(c) => [c]
    case Ptr(c) => [c]
    case Array(c) => [c]
    case Composite(ms) => ms
    case Enum => []
    case FuncProto(r, ps) => [r] + ps
    case Func(c) => [c]
    case Other => []
  }

  /** A type of the module or of its base. */
  datatype Node = Node(inBase: bool, id: nat)

  datatype Graph = Graph(own: map<nat, BtfType>, hasBase: bool, base: map<nat, BtfType>) {
    /** Where a type id seen in one of the two sources is looked up and marked. */
    function Owner(inBase: bool, id: nat): Node {
      if !inBase && id !in own && hasBase && id in base then Node(true, id) else Node(inBase, id)
    }

    function Successors(n: Node): set<Node> {
      var types := if n.inBase then base else own;
      if n.id in types then set c | c in Children(types[n.id]) && c != 0 :: Owner(n.inBase, c) else {}
    }

    ghost function Succ(): Node -> set<Node> { n => Successors(n) }

    /** The same graph without the nodes of `met`. */
    ghost function Avoiding(met: set<Node>): Node -> set<Node> { n => Successors(n) - met }
  }

  class BtfSource {
    const byId: map<nat, BtfType>
    const base: BtfSource?
    var marked: set<nat>

    constructor (byId: map<nat, BtfType>, base: BtfSource?)
      ensures this.byId == byId && this.base == base && marked == {}
    {
      this.byId, this.base, this.marked := byId, base, {};
    }

    /** Split BTF has two levels. */
    ghost predicate TwoLevel() { base != null ==> base != this && base.base == null }

    ghost function TypeGraph(): Graph { Graph(byId, base != null, if base == null then map[] else base.byId) }

    /** Every mark sits in the source that owns the type, and a type that no source has stays with the one that names it. */
    ghost predicate MarksOwned()
      reads this
    {
      forall id :: id in marked ==> TypeGraph().Owner(false, id) == Node(false, id)
    }

    ghost function Marks(): set<Node>
      reads this, base
    {
      (set id | id in marked :: Node(false, id)) +
      (if base == null then {} else set id | id in base.marked :: Node(true, id))
    }
  }

  /**
   The walk below `rootId`, seen from `src`, which is `top` or its base. What it adds is reachable from the root along
   types that were not marked before, and closed but for those that were; `all` bounds the walk.
   */
  method AddTypeClosure(src: BtfSource, rootId: nat, ghost top: BtfSource, ghost all: set<Node>)
    requires top.TwoLevel() && (src == top || src == top.base)
    requires top.MarksOwned()
    requires rootId != 0 ==> top.TypeGraph().Owner(src != top, rootId) in all
    requires Closed(top.TypeGraph().Succ(), all)
    modifies top, top.base
    ensures top.MarksOwned() && old(top.Marks()) <= top.Marks()
    ensures rootId != 0 ==> top.TypeGraph().Owner(src != top, rootId) in top.Marks()
    ensures rootId == 0 ==> top.Marks() == old(top.Marks())
    ensures forall n :: n in top.Marks() - old(top.Marks()) ==>
              && top.TypeGraph().Successors(n) <= top.Marks()
              && Reaches(top.TypeGraph().Avoiding(old(top.Marks())), top.TypeGraph().Owner(src != top, rootId), n)
    ensures top.TypeGraph().Owner(src != top, rootId) in old(top.Marks()) ==> top.Marks() == old(top.Marks())
    decreases all - top.Marks(), src == top
  {
    hide Reaches, Children;
    if rootId == 0 {
      return;
    }
    ghost var g, inBase := top.TypeGraph(), src != top;
    ghost var root := g.Owner(inBase, rootId);
    ghost var before := top.Marks();
    if rootId in src.marked {
      return;
    }
    if rootId !in src.byId && src.base != null && rootId in src.base.byId {
      AddTypeClosure(src.base, rootId, top, all);
      return;
    }
    src.marked := src.marked + {rootId};
    assert top.Marks() == before + {root};
    ReachesSelf(g.Avoiding(before), root);
    if rootId !in src.byId {
      return;
    }
    var children := Children(src.byId[rootId]);
    for i := 0 to |children|
      invariant top.MarksOwned() && before + {root} <= top.Marks()
      invariant forall j :: 0 <= j < i && children[j] != 0 ==> g.Owner(inBase, children[j]) in top.Marks()
      invariant forall n :: n in top.Marks() - before ==>
                  Reaches(g.Avoiding(before), root, n) && (n == root || g.Successors(n) <= top.Marks())
    {
      ghost var marks := top.Marks();
      ghost var child := g.Owner(inBase, children[i]);
      assert children[i] != 0 ==> child in g.Successors(root);
      AddTypeClosure(src, children[i], top, all);
      forall n | n in top.Marks() - marks ensures Reaches(g.Avoiding(before), root, n) {
        ThroughChild(g, before, marks, root, child, n);
      }
    }
  }

  lemma ThroughChild(g: Graph, met: set<Node>, more: set<Node>, root: Node, child: Node, n: Node)
    requires met <= more && child in g.Successors(root) - met && Reaches(g.Avoiding(more), child, n)
    ensures Reaches(g.Avoiding(met), root, n)
  {
    hide Reaches;
    ReachesSelf(g.Avoiding(met), root);
    ReachesNext(g.Avoiding(met), root, root, child);
    FewerAvoided(g, met, more, child, n);
    ReachesThrough(g.Avoiding(met), root, child, n);
  }

  lemma FewerAvoided(g: Graph, met: set<Node>, more: set<Node>, a: Node, b: Node)
    requires met <= more && Reaches(g.Avoiding(more), a, b)
    ensures Reaches(g.Avoiding(met), a, b)
  {
    var p :| Path(g.Avoiding(more), p) && p[0] == a && p[|p| - 1] == b;
    forall i | 0 <= i < |p| - 1 ensures p[i + 1] in g.Avoiding(met)(p[i]) {
      assert p[i + 1] in g.Avoiding(more)(p[i]);
    }
    assert Path(g.Avoiding(met), p);
  }

  /** Everything a walk from `rootId` can meet. */
  ghost function Universe(g: Graph, rootId: nat): (all: set<Node>)
    ensures Closed(g.Succ(), all)
    ensures g.Owner(false, rootId) in all
  {
    var own := set id, c | id in g.own && c in Children(g.own[id]) :: g.Owner(false, c);
    var base := set id, c | id in g.base && c in Children(g.base[id]) :: g.Owner(true, c);
    {g.Owner(false, rootId)} + own + base
  }

  /**
   A request for one type, whatever was marked before: exactly what the root reaches along unmarked types is added, each
   type in the source that owns it. Where the marks were closed, as they are after every request, that is all it reaches,
   whatever cycles the types form, and the marks are closed again.
   */
  method MarkType(src: BtfSource, rootId: nat)
    requires src.TwoLevel() && src.MarksOwned()
    modifies src, src.base
    ensures src.MarksOwned()
    ensures forall n :: n in src.Marks() <==>
              n in old(src.Marks())
              || (rootId != 0 && src.TypeGraph().Owner(false, rootId) !in old(src.Marks())
                  && Reaches(src.TypeGraph().Avoiding(old(src.Marks())), src.TypeGraph().Owner(false, rootId), n))
    ensures Closed(src.TypeGraph().Succ(), old(src.Marks())) ==>
              && Closed(src.TypeGraph().Succ(), src.Marks())
              && forall n :: n in src.Marks() <==>
                   n in old(src.Marks())
                   || (rootId != 0 && Reaches(src.TypeGraph().Succ(), src.TypeGraph().Owner(false, rootId), n))
  {
    hide Reaches, Universe;
    ghost var g, before := src.TypeGraph(), src.Marks();
    AddTypeClosure(src, rootId, src, Universe(g, rootId));
    forall n | n in src.Marks() && n !in before
      ensures rootId != 0 && g.Owner(false, rootId) !in before && Reaches(g.Avoiding(before), g.Owner(false, rootId), n)
    {
      assert n in src.Marks() - before;
    }
    if rootId != 0 {
      AllUnmarked(g, before, src.Marks(), g.Owner(false, rootId));
      if Closed(g.Succ(), before) {
        AllReached(g, before, src.Marks(), g.Owner(false, rootId));
      }
    }
  }

  /** What a walk has added is all that the root reaches along unmarked types. */
  lemma AllUnmarked(g: Graph, before: set<Node>, after: set<Node>, root: Node)
    requires before <= after && root in after && forall n :: n in after - before ==> g.Successors(n) <= after
    ensures root !in before ==> forall n :: Reaches(g.Avoiding(before), root, n) ==> n in after
  {
    hide Reaches;
    if root !in before {
      assert Closed(g.Avoiding(before), after - before);
      forall n | Reaches(g.Avoiding(before), root, n) ensures n in after {
        ClosedContains(g.Avoiding(before), after - before, root, n);
      }
    }
  }

  lemma AllReached(g: Graph, before: set<Node>, after: set<Node>, root: Node)
    requires before <= after && root in after && forall n :: n in after - before ==> g.Successors(n) <= after
    requires forall n :: n in after - before ==> Reaches(g.Avoiding(before), root, n)
    requires Closed(g.Succ(), before)
    ensures Closed(g.Succ(), after)
    ensures forall n :: n in after <==> n in before || Reaches(g.Succ(), root, n)
  {
    hide Reaches;
    assert Closed(g.Succ(), after);
    forall n | Reaches(g.Succ(), root, n) ensures n in after {
      ClosedContains(g.Succ(), after, root, n);
    }
    forall n | n in after - before ensures Reaches(g.Succ(), root, n) {
      NothingAvoided(g, before, root, n);
    }
  }

  lemma NothingAvoided(g: Graph, met: set<Node>, a: Node, b: Node)
    requires Reaches(g.Avoiding(met), a, b)
    ensures Reaches(g.Succ(), a, b)
  {
    var p :| Path(g.Avoiding(met), p) && p[0] == a && p[|p| - 1] == b;
    forall i | 0 <= i < |p| - 1 ensures p[i + 1] in g.Succ()(p[i]) {
      assert p[i + 1] in g.Avoiding(met)(p[i]);
    }
    assert Path(g.Succ(), p);
  }

  // ---------------------------------------------------------------------------------------------
  // Sessions

  /** A type requested from one of the loaded sources. */
  datatype Request = Request(src: BtfSource, rootId: nat) {
    /** The request reaches type `id` of source `s`. */
    ghost predicate Asks(s: BtfSource, id: nat) {
      && rootId != 0 && (s == src || s == src.base)
      && Reaches(src.TypeGraph().Succ(), src.TypeGraph().Owner(false, rootId), Node(s != src, id))
    }
  }

  /** Module sources over their base, which is a source itself. */
  ghost predicate Loaded(sources: set<BtfSource>) {
    forall s :: s in sources && s.base != null ==> s.base in sources && s.base != s && s.base.base == null
  }

  /** The marks of a source are closed, seen from that source. */
  ghost predicate OwnClosed(s: BtfSource)
    reads s, s.base
  {
    forall id, c :: id in s.marked && id in s.byId && c in Children(s.byId[id]) && c != 0 ==>
      s.TypeGraph().Owner(false, c) in s.Marks()
  }

  ghost predicate AllClosed(sources: set<BtfSource>)
    reads sources, set s | s in sources && s.base != null :: s.base
  {
    forall s :: s in sources ==> s.MarksOwned() && OwnClosed(s)
  }

  lemma ClosedFromBoth(s: BtfSource)
    requires s.TwoLevel() && OwnClosed(s) && (s.base != null ==> OwnClosed(s.base))
    ensures Closed(s.TypeGraph().Succ(), s.Marks())
  {
    hide Children;
    var g := s.TypeGraph();
    forall n, m | n in s.Marks() && m in g.Successors(n) ensures m in s.Marks() {
      var types := if n.inBase then g.base else g.own;
      var c :| c in Children(types[n.id]) && c != 0 && m == g.Owner(n.inBase, c);
      if n.inBase {
        assert s.base.TypeGraph().Owner(false, c) in s.base.Marks();
      }
    }
  }

  lemma BothClosed(s: BtfSource)
    requires s.TwoLevel() && Closed(s.TypeGraph().Succ(), s.Marks())
    ensures OwnClosed(s) && (s.base != null ==> OwnClosed(s.base))
  {
    hide Children;
    var g := s.TypeGraph();
    forall id, c | id in s.marked && id in s.byId && c in Children(s.byId[id]) && c != 0
      ensures g.Owner(false, c) in s.Marks()
    {
      assert Node(false, id) in s.Marks();
      assert g.Owner(false, c) in g.Successors(Node(false, id));
    }
    if s.base != null {
      forall id, c | id in s.base.marked && id in s.base.byId && c in Children(s.base.byId[id]) && c != 0
        ensures c in s.base.marked
      {
        assert Node(true, id) in s.Marks();
        assert g.Owner(true, c) in g.Successors(Node(true, id));
      }
    }
  }

  /** A type id that a record of its kind names; 0 names nothing. */
  ghost predicate IsField(t: BtfType, c: nat) {
    c != 0 &&
    match t
    case Modifier(typeId) => c == typeId
    case Ptr(typeId) => c == typeId
    case Array(elemTypeId) => c == elemTypeId
    case Composite(members) => exists k :: 0 <= k < |members| && c == members[k]
    case Enum => false
    case FuncProto(retTypeId, params) => c == retTypeId || exists k :: 0 <= k < |params| && c == params[k]
    case Func(typeId) => c == typeId
    case Other => false
  }

  lemma ChildrenAreFields(t: BtfType, c: nat)
    ensures c != 0 && c in Children(t) <==> IsField(t, c)
  {
    match t {
      case Composite(members) => assert c in members <==> exists k :: 0 <= k < |members| && c == members[k];
      case FuncProto(r, params) =>
        assert c in params <==> exists k :: 0 <= k < |params| && c == params[k];
        assert c in [r] + params <==> c == r || c in params;
      case _ =>
    }
  }

  /** The source that a type id belongs to when `s` names it. */
  ghost function SourceOf(s: BtfSource, id: nat): BtfSource {
    if id !in s.byId && s.base != null && id in s.base.byId then s.base else s
  }

  /** All that a marked record names is marked, where it belongs. */
  ghost predicate FieldsMarked(sources: set<BtfSource>)
    reads sources, set s | s in sources && s.base != null :: s.base
  {
    forall s, id, c :: s in sources && id in s.marked && id in s.byId && IsField(s.byId[id], c) ==>
      c in SourceOf(s, c).marked
  }

  ghost predicate IsRequested(requests: seq<Request>, s: BtfSource, id: nat) {
    exists i :: 0 <= i < |requests| && requests[i].rootId == id != 0 && SourceOf(requests[i].src, id) == s
  }

  ghost predicate IsNamed(sources: set<BtfSource>, s: BtfSource, id: nat)
    reads sources
  {
    exists t, p :: t in sources && p in t.marked && p in t.byId && IsField(t.byId[p], id) && SourceOf(t, id) == s
  }

  lemma ClosedMarksFields(sources: set<BtfSource>)
    requires Loaded(sources) && AllClosed(sources)
    ensures FieldsMarked(sources)
  {
    hide Children, IsField;
    forall s, id, c | s in sources && id in s.marked && id in s.byId && IsField(s.byId[id], c)
      ensures c in SourceOf(s, c).marked
    {
      ChildrenAreFields(s.byId[id], c);
      assert s.TypeGraph().Owner(false, c) in s.Marks();
    }
  }

  lemma LastStep<N(!new)>(succ: N -> set<N>, a: N, b: N) returns (m: N)
    requires Reaches(succ, a, b) && a != b
    ensures Reaches(succ, a, m) && b in succ(m)
  {
    var p :| Path(succ, p) && p[0] == a && p[|p| - 1] == b;
    var q := p[..|p| - 1];
    m := q[|q| - 1];
    assert p[|p| - 2 + 1] in succ(p[|p| - 2]);
    assert Path(succ, q) by {
      forall i | 0 <= i < |q| - 1 ensures q[i + 1] in succ(q[i]) {
        assert p[i + 1] in succ(p[i]);
      }
    }
  }

  /** What a request reaches is the request itself or named by something else that it reaches. */
  lemma AskedBy(r: Request, s: BtfSource, id: nat)
    requires r.src.TwoLevel() && r.Asks(s, id)
    ensures (r.rootId == id && SourceOf(r.src, id) == s)
         || exists t, p :: (t == r.src || t == r.src.base) && r.Asks(t, p) && p in t.byId && IsField(t.byId[p], id)
                           && SourceOf(t, id) == s
  {
    hide Reaches, Children, IsField;
    var g := r.src.TypeGraph();
    var root, node := g.Owner(false, r.rootId), Node(s != r.src, id);
    if root != node {
      var m := LastStep(g.Succ(), root, node);
      var types := if m.inBase then g.base else g.own;
      assert m.id in types;
      var c :| c in Children(types[m.id]) && c != 0 && node == g.Owner(m.inBase, c);
      ChildrenAreFields(types[m.id], c);
      var t: BtfSource := if m.inBase then r.src.base else r.src;
      assert r.Asks(t, m.id) && IsField(t.byId[m.id], id);
    }
  }

  lemma ComeFrom(sources: set<BtfSource>, requests: seq<Request>)
    requires Loaded(sources) && forall i :: 0 <= i < |requests| ==> requests[i].src in sources
    requires forall s, id :: s in sources ==>
               (id in s.marked <==> exists i :: 0 <= i < |requests| && requests[i].Asks(s, id))
    ensures forall s, id :: s in sources && id in s.marked ==>
              IsRequested(requests, s, id) || IsNamed(sources, s, id)
  {
    forall s, id | s in sources && id in s.marked ensures IsRequested(requests, s, id) || IsNamed(sources, s, id) {
      hide Reaches, IsField;
      var i :| 0 <= i < |requests| && requests[i].Asks(s, id);
      AskedBy(requests[i], s, id);
    }
  }

  /** One request: each source gains the types that the request reaches in it. */
  method MarkRequest(sources: set<BtfSource>, request: Request)
    requires Loaded(sources) && request.src in sources && AllClosed(sources)
    modifies sources
    ensures AllClosed(sources)
    ensures forall s, id :: s in sources ==> (id in s.marked <==> id in old(s.marked) || request.Asks(s, id))
  {
    hide Reaches, Children;
    var src := request.src;
    ClosedFromBoth(src);
    MarkType(src, request.rootId);
    BothClosed(src);
    hide OwnClosed;
    forall s, id | s in sources ensures id in s.marked <==> id in old(s.marked) || request.Asks(s, id) {
      assert s == src ==> (id in s.marked <==> Node(false, id) in src.Marks());
      assert s == src.base ==> (id in s.marked <==> Node(true, id) in src.Marks());
    }
  }

  /**
   A whole session, from fresh sources that may share their base: in each source exactly those types are marked that some
   request reaches, from whichever source it was made.
   */
  method MarkTypes(sources: set<BtfSource>, requests: seq<Request>)
    requires Loaded(sources) && forall s :: s in sources ==> s.marked == {}
    requires forall i :: 0 <= i < |requests| ==> requests[i].src in sources
    modifies sources
    ensures AllClosed(sources)
    ensures forall s, id :: s in sources ==> (id in s.marked <==> exists i :: 0 <= i < |requests| && requests[i].Asks(s, id))
    ensures FieldsMarked(sources)
    ensures forall s, id :: s in sources && id in s.marked ==>
              IsRequested(requests, s, id) || IsNamed(sources, s, id)
    ensures forall i :: 0 <= i < |requests| && requests[i].rootId != 0 ==>
              requests[i].rootId in SourceOf(requests[i].src, requests[i].rootId).marked
  {
    hide Reaches;
    for k := 0 to |requests|
      invariant AllClosed(sources)
      invariant forall s, id :: s in sources ==> (id in s.marked <==> exists i :: 0 <= i < k && requests[i].Asks(s, id))
    {
      hide *;
      MarkRequest(sources, requests[k]);
    }
    hide IsField, IsRequested, IsNamed;
    ClosedMarksFields(sources);
    ComeFrom(sources, requests);
    forall i | 0 <= i < |requests| && requests[i].rootId != 0
      ensures requests[i].rootId in SourceOf(requests[i].src, requests[i].rootId).marked
    {
      RootAsked(requests[i]);
    }
  }

  lemma RootAsked(r: Request)
    requires r.src.TwoLevel() && r.rootId != 0
    ensures r.Asks(SourceOf(r.src, r.rootId), r.rootId)
  {
    ReachesSelf(r.src.TypeGraph().Succ(), r.src.TypeGraph().Owner(false, r.rootId));
  }
}
