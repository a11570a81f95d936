/**
 The edge lists of the dependency-graph builder. An edge of one alias is an edge of all: the lists of functions that start
 at the same address never drift apart.
 */
module KrgEdges {
  import opened KrgIndex

  /** Two lists name the same targets, apart from the aliases themselves. */
  ghost predicate SameTargets(x: seq<nat>, y: seq<nat>, a: nat, b: nat) {
    forall v :: v != a && v != b ==> (v in x <==> v in y)
  }

  /** What is found for `u` is recorded for `w`: `w` is in the group of aliases at the address of `u`, or is `u` itself. */
  ghost predicate RecordedFor(syms: seq<Symbol>, groups: map<nat, seq<nat>>, u: nat, w: nat) {
    u < |syms| && if syms[u].addr in groups then w in groups[syms[u].addr] else w == u
  }

  class Edges {
    const syms: seq<Symbol>
    const groups: map<nat, seq<nat>>
    var adj: seq<seq<nat>>
    var dataRefs: seq<seq<nat>>
    var callsBlacklisted: seq<bool>

    ghost predicate Valid()
      reads this
    {
      |adj| == |dataRefs| == |callsBlacklisted| == |syms| && Listed(syms, groups)
    }

    /** Aliases agree on every callee and data reference but one another, and on the blacklist mark. */
    ghost predicate Agree()
      requires Valid()
      reads this
    {
      forall cur, a: nat, b: nat :: InGroup(groups, cur, a) && InGroup(groups, cur, b) ==>
        && SameTargets(adj[a], adj[b], a, b) && SameTargets(dataRefs[a], dataRefs[b], a, b)
        && callsBlacklisted[a] == callsBlacklisted[b]
    }

    constructor (syms: seq<Symbol>, groups: map<nat, seq<nat>>)
      requires Listed(syms, groups)
      ensures Valid() && Agree() && this.syms == syms && this.groups == groups
      ensures forall w :: 0 <= w < |syms| ==> adj[w] == [] && dataRefs[w] == [] && !callsBlacklisted[w]
    {
      this.syms, this.groups := syms, groups;
      adj := seq(|syms|, i => []);
      dataRefs := seq(|syms|, i => []);
      callsBlacklisted := seq(|syms|, i => false);
    }

    /** The symbols an edge of `u` is recorded for. */
    function Members(u: nat): (g: seq<nat>)
      requires u < |syms|
    {
      if syms[u].addr in groups then groups[syms[u].addr] else [u]
    }

    /** The lists after `v` was added to those of all members, without repetition and never to its own. */
    static method AddToAll(lists: seq<seq<nat>>, members: seq<nat>, v: nat) returns (r: seq<seq<nat>>)
      requires forall u :: u in members ==> u < |lists|
      ensures |r| == |lists|
      ensures forall u :: 0 <= u < |lists| ==>
                r[u] == if u in members && u != v && v !in lists[u] then lists[u] + [v] else lists[u]
    {
      r := lists;
      for i := 0 to |members|
        invariant |r| == |lists|
        invariant forall u :: 0 <= u < |lists| ==>
                    r[u] == if u in members[..i] && u != v && v !in lists[u] then lists[u] + [v] else lists[u]
      {
        var uu := members[i];
        assert members[..i + 1] == members[..i] + [uu];
        assert uu in members;
        if uu != v && v !in r[uu] {
          r := r[uu := r[uu] + [v]];
        }
      }
      assert members[..|members|] == members;
    }

    /** Adding one target to all members of every group, or to none, keeps the members' lists in agreement. */
    lemma StillSame(before: seq<seq<nat>>, after: seq<seq<nat>>, u: nat, v: nat, cur: nat, a: nat, b: nat)
      requires u < |syms| && |before| == |after| == |syms|
      requires Listed(syms, groups) && InGroup(groups, cur, a) && InGroup(groups, cur, b)
      requires SameTargets(before[a], before[b], a, b)
      requires forall w :: 0 <= w < |syms| ==>
                 after[w] == if w in Members(u) && w != v && v !in before[w] then before[w] + [v] else before[w]
      ensures SameTargets(after[a], after[b], a, b)
    {
      BothMembers(u, cur, a, b);
    }

    /** Whatever has one alias among its members has them all. */
    lemma BothMembers(u: nat, cur: nat, a: nat, b: nat)
      requires u < |syms| && Listed(syms, groups) && InGroup(groups, cur, a) && InGroup(groups, cur, b)
      ensures a in Members(u) <==> b in Members(u)
    {
      var start := syms[u].addr;
      assert start in groups && a in groups[start] ==> InGroup(groups, start, a);
      assert start in groups && b in groups[start] ==> InGroup(groups, start, b);
      assert syms[a].addr == cur && syms[b].addr == cur;
    }

    method AddEdge(u: nat, v: nat)
      requires Valid() && Agree() && u < |syms|
      modifies this`adj
      ensures Valid() && Agree()
      ensures forall w :: 0 <= w < |syms| ==>
                adj[w] == if u != v && RecordedFor(syms, groups, u, w) && w != v && v !in old(adj)[w] then old(adj)[w] + [v]
                          else old(adj)[w]
    {
      if u == v {
        return;
      }
      MembersInRange(u);
      ghost var before := adj;
      adj := AddToAll(adj, Members(u), v);
      forall cur, a: nat, b: nat | InGroup(groups, cur, a) && InGroup(groups, cur, b)
        ensures SameTargets(adj[a], adj[b], a, b)
      {
        StillSame(before, adj, u, v, cur, a, b);
      }
    }

    method AddDataRef(u: nat, v: nat)
      requires Valid() && Agree() && u < |syms|
      modifies this`dataRefs
      ensures Valid() && Agree()
      ensures forall w :: 0 <= w < |syms| ==>
                dataRefs[w] == if u != v && RecordedFor(syms, groups, u, w) && w != v && v !in old(dataRefs)[w] then
                                 old(dataRefs)[w] + [v]
                               else old(dataRefs)[w]
    {
      if u == v {
        return;
      }
      MembersInRange(u);
      ghost var before := dataRefs;
      dataRefs := AddToAll(dataRefs, Members(u), v);
      forall cur, a: nat, b: nat | InGroup(groups, cur, a) && InGroup(groups, cur, b)
        ensures SameTargets(dataRefs[a], dataRefs[b], a, b)
      {
        StillSame(before, dataRefs, u, v, cur, a, b);
      }
    }

    method MarkCallsBlacklisted(u: nat)
      requires Valid() && Agree() && u < |syms|
      modifies this`callsBlacklisted
      ensures Valid() && Agree()
      ensures forall w :: 0 <= w < |syms| ==>
                callsBlacklisted[w] == (old(callsBlacklisted)[w] || RecordedFor(syms, groups, u, w))
    {
      MembersInRange(u);
      var members := Members(u);
      for i := 0 to |members|
        invariant |callsBlacklisted| == |syms|
        invariant forall w :: 0 <= w < |syms| ==> callsBlacklisted[w] == (old(callsBlacklisted)[w] || w in members[..i])
      {
        assert members[..i + 1] == members[..i] + [members[i]];
        assert members[i] in members;
        callsBlacklisted := callsBlacklisted[members[i] := true];
      }
      assert members[..|members|] == members;
      forall cur, a: nat, b: nat | InGroup(groups, cur, a) && InGroup(groups, cur, b)
        ensures a < |syms| && b < |syms| && callsBlacklisted[a] == callsBlacklisted[b]
      {
        BothMembers(u, cur, a, b);
      }
    }

    lemma MembersInRange(u: nat)
      requires Valid() && u < |syms|
      ensures forall w :: w in Members(u) ==> w < |syms|
    {
      forall w | w in Members(u) ensures w < |syms| {
        assert syms[u].addr in groups ==> InGroup(groups, syms[u].addr, w);
      }
    }
  }

  /** One call of the edge-collecting passes. */
  datatype Call = Edge(u: nat, v: nat) | DataRef(u: nat, v: nat) | Blacklist(u: nat)

  /** One of the first `n` calls records an edge from `w` to `v`. */
  ghost predicate EdgeMade(syms: seq<Symbol>, groups: map<nat, seq<nat>>, calls: seq<Call>, n: nat, w: nat, v: nat) {
    exists i :: 0 <= i < n <= |calls| && calls[i].Edge? && calls[i].v == v && calls[i].u != v && w != v
                && RecordedFor(syms, groups, calls[i].u, w)
  }

  ghost predicate RefMade(syms: seq<Symbol>, groups: map<nat, seq<nat>>, calls: seq<Call>, n: nat, w: nat, v: nat) {
    exists i :: 0 <= i < n <= |calls| && calls[i].DataRef? && calls[i].v == v && calls[i].u != v && w != v
                && RecordedFor(syms, groups, calls[i].u, w)
  }

  ghost predicate MarkMade(syms: seq<Symbol>, groups: map<nat, seq<nat>>, calls: seq<Call>, n: nat, w: nat) {
    exists i :: 0 <= i < n <= |calls| && calls[i].Blacklist? && RecordedFor(syms, groups, calls[i].u, w)
  }

  /** The lists and the mark of `w` are those of the first `n` calls. */
  ghost predicate MadeFor(syms: seq<Symbol>, groups: map<nat, seq<nat>>, calls: seq<Call>, n: nat, w: nat,
                          edges: seq<nat>, refs: seq<nat>, mark: bool) {
    && (forall v :: v in edges <==> EdgeMade(syms, groups, calls, n, w, v))
    && (forall v :: v in refs <==> RefMade(syms, groups, calls, n, w, v))
    && (mark <==> MarkMade(syms, groups, calls, n, w))
  }

  /** What call `n` adds to what the calls before it made. */
  lemma NextCall(syms: seq<Symbol>, groups: map<nat, seq<nat>>, calls: seq<Call>, n: nat, next: nat, w: nat)
    requires n < |calls| && next == n + 1
    ensures var c := calls[n];
            && (forall v :: EdgeMade(syms, groups, calls, next, w, v) <==>
                  EdgeMade(syms, groups, calls, n, w, v)
                  || (c.Edge? && c.v == v && c.u != v && w != v && RecordedFor(syms, groups, c.u, w)))
            && (forall v :: RefMade(syms, groups, calls, next, w, v) <==>
                  RefMade(syms, groups, calls, n, w, v)
                  || (c.DataRef? && c.v == v && c.u != v && w != v && RecordedFor(syms, groups, c.u, w)))
            && (MarkMade(syms, groups, calls, next, w) <==>
                  MarkMade(syms, groups, calls, n, w) || (c.Blacklist? && RecordedFor(syms, groups, c.u, w)))
  {
    hide RecordedFor;
  }

  lemma NothingMade(syms: seq<Symbol>, groups: map<nat, seq<nat>>, calls: seq<Call>, w: nat)
    ensures forall v :: !EdgeMade(syms, groups, calls, 0, w, v) && !RefMade(syms, groups, calls, 0, w, v)
    ensures !MarkMade(syms, groups, calls, 0, w)
  {
  }

  /** Any sequence of calls leaves aliases in agreement, and each list with exactly what the calls asked for. */
  method Collect(syms: seq<Symbol>, groups: map<nat, seq<nat>>, calls: seq<Call>) returns (e: Edges)
    requires Listed(syms, groups)
    requires forall i :: 0 <= i < |calls| ==> calls[i].u < |syms|
    ensures fresh(e) && e.Valid() && e.Agree() && e.syms == syms && e.groups == groups
    ensures forall w: nat :: w < |syms| ==>
              MadeFor(syms, groups, calls, |calls|, w, e.adj[w], e.dataRefs[w], e.callsBlacklisted[w])
  {
    hide RecordedFor, EdgeMade, RefMade, MarkMade, Listed;
    e := new Edges(syms, groups);
    forall w: nat | w < |syms|
      ensures MadeFor(syms, groups, calls, 0, w, e.adj[w], e.dataRefs[w], e.callsBlacklisted[w])
    {
      NothingMade(syms, groups, calls, w);
    }
    for n := 0 to |calls|
      invariant fresh(e) && e.Valid() && e.Agree() && e.syms == syms && e.groups == groups
      invariant forall w: nat :: w < |syms| ==>
                  MadeFor(syms, groups, calls, n, w, e.adj[w], e.dataRefs[w], e.callsBlacklisted[w])
    {
      ghost var edges, refs, marks := e.adj, e.dataRefs, e.callsBlacklisted;
      match calls[n] {
        case Edge(u, v) => e.AddEdge(u, v);
        case DataRef(u, v) => e.AddDataRef(u, v);
        case Blacklist(u) => e.MarkCallsBlacklisted(u);
      }
      ghost var next := n + 1;
      forall w: nat | w < |syms|
        ensures MadeFor(syms, groups, calls, next, w, e.adj[w], e.dataRefs[w], e.callsBlacklisted[w])
      {
        assert MadeFor(syms, groups, calls, n, w, edges[w], refs[w], marks[w]);
        NextCall(syms, groups, calls, n, next, w);
      }
    }
  }
}
