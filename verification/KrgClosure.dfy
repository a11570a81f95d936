/** The dependency closure of a symbol in a saved graph: a depth-first search that does not go on behind stop names. */
module KrgClosure {
  import opened KrgIndex
  import opened KrgSafe
  import opened KrgSave
  import opened Options
  import opened Reachability

  /** The nodes marked so far. */
  ghost function Marked(seen: seq<bool>): set<nat> {
    set v: nat | v < |seen| && seen[v]
  }

  ghost function Elements(s: seq<nat>): set<nat> {
    set v | v in s
  }

  ghost function Nodes(n: nat): (s: set<nat>)
    ensures forall v: nat :: v in s <==> v < n
  {
    if n == 0 then {} else Nodes(n - 1) + {n - 1}
  }

  /** Every marked node was reached, and what is not on the stack has its successors marked. */
  ghost predicate Explored(step: nat -> set<nat>, root: nat, seen: seq<bool>, stack: seq<nat>) {
    && root in Marked(seen)
    && (forall v :: v in Marked(seen) ==> Reaches(step, root, v))
    && (forall v :: v in stack ==> v in Marked(seen))
    && (forall v :: v in Marked(seen) && v !in stack ==> step(v) <= Marked(seen))
  }

  /** Exploration is over when the stack is empty. */
  lemma AllExplored(step: nat -> set<nat>, root: nat, seen: seq<bool>)
    requires Explored(step, root, seen, [])
    ensures forall v :: v in Marked(seen) <==> Reaches(step, root, v)
  {
    hide Reaches;
    forall v | v in Marked(seen) ensures step(v) <= Marked(seen) {
      assert v !in [];
    }
    ReachableSet(step, root, Marked(seen));
  }

  lemma StartExploring(step: nat -> set<nat>, root: nat, seen: seq<bool>)
    requires root < |seen| && forall v :: 0 <= v < |seen| ==> seen[v] == (v == root)
    ensures Explored(step, root, seen, [root])
  {
    ReachesSelf(step, root);
  }

  /** One node taken from the stack, its unmarked successors put there. */
  lemma NodeExplored(step: nat -> set<nat>, root: nat, seen: seq<bool>, rest: seq<nat>, u: nat, more: seq<bool>,
                     stack: seq<nat>)
    requires Explored(step, root, seen, rest + [u])
    requires Marked(more) == Marked(seen) + step(u)
    requires forall v :: v in stack <==> v in rest || (v in Marked(more) && v !in Marked(seen))
    ensures Explored(step, root, more, stack)
  {
    hide Reaches, Marked;
    assert u in rest + [u];
    forall v | v in Marked(more) ensures Reaches(step, root, v) {
      if v !in Marked(seen) {
        ReachesNext(step, root, u, v);
      }
    }
    forall v | v in stack ensures v in Marked(more) {
      if v in rest {
        assert v in rest + [u];
      }
    }
    forall v | v in Marked(more) && v !in stack ensures step(v) <= Marked(more) {
      if v != u {
        assert v !in rest + [u];
      }
    }
  }

  lemma MarkOne(seen: seq<bool>, v: nat)
    requires v < |seen|
    ensures Marked(seen[v := true]) == Marked(seen) + {v}
  {
  }

  /** The row of `u`, its targets marked and pushed where they were not marked before; or a row that cannot be read. */
  method PushRow(g: Graph, u: nat, seen: array<bool>, rest: seq<nat>) returns (ok: bool, stack: seq<nat>)
    requires g.Shaped() && u < |g.nodes| == seen.Length
    modifies seen
    ensures ok <==> g.csr.Readable(|g.nodes|, u)
    ensures ok ==> Marked(seen[..]) == old(Marked(seen[..])) + Elements(g.csr.Row(|g.nodes|, u))
    ensures ok ==> forall v :: v in stack <==> v in rest || (v in Marked(seen[..]) && v !in old(Marked(seen[..])))
    ensures ok && old(Marked(seen[..])) == Marked(seen[..]) ==> stack == rest
  {
    hide Marked;
    stack := rest;
    ghost var n, before := |g.nodes|, seen[..];
    var start, end := g.csr.rowPtr[u], g.csr.rowPtr[u + 1];
    var e := start;
    while e < end
      invariant start <= e && (if start <= end then e <= end else e == start) && (start < e ==> e <= |g.csr.colIdx|)
      invariant forall d :: start <= d < e ==> g.csr.colIdx[d] < n
      invariant Marked(seen[..]) == Marked(before) + Elements(Stretch(g.csr.colIdx, start, e))
      invariant forall v :: v in stack <==> v in rest || (v in Marked(seen[..]) && v !in Marked(before))
      invariant Marked(before) == Marked(seen[..]) ==> stack == rest
      decreases end - e
    {
      if e >= |g.csr.colIdx| || g.csr.colIdx[e] >= seen.Length {
        return false, [];
      }
      var v := g.csr.colIdx[e];
      StretchMore(g.csr.colIdx, start, e);
      ghost var now := seen[..];
      InMarked(now, v);
      if !seen[v] {
        seen[v] := true;
        stack := stack + [v];
        assert seen[..] == now[v := true];
        MarkOne(now, v);
      }
      e := e + 1;
    }
    RowRead(g.csr, n, u, e);
    ok := true;
  }

  /** What has been read up to the end of a row is the row. */
  lemma RowRead(c: Csr, n: nat, u: nat, e: nat)
    requires u + 1 < |c.rowPtr| && c.rowPtr[u] <= e
    requires if c.rowPtr[u] < c.rowPtr[u + 1] then e == c.rowPtr[u + 1] <= |c.colIdx| else e == c.rowPtr[u]
    requires forall d :: c.rowPtr[u] <= d < e ==> d < |c.colIdx| && c.colIdx[d] < n
    ensures c.Readable(n, u) && Stretch(c.colIdx, c.rowPtr[u], e) == c.Row(n, u)
  {
  }

  /** `xs[from..to]`, as far as it exists. */
  ghost function Stretch(xs: seq<nat>, from: nat, to: nat): seq<nat> { if from <= to <= |xs| then xs[from..to] else [] }

  lemma StretchMore(xs: seq<nat>, from: nat, to: nat)
    requires from <= to < |xs|
    ensures Elements(Stretch(xs, from, to + 1)) == Elements(Stretch(xs, from, to)) + {xs[to]}
  {
    assert Stretch(xs, from, to + 1) == Stretch(xs, from, to) + [xs[to]];
  }

  lemma InMarked(seen: seq<bool>, v: nat)
    requires v < |seen|
    ensures v in Marked(seen) <==> seen[v]
  {
  }

  lemma MarkedInRange(seen: seq<bool>)
    ensures forall v :: v in Marked(seen) ==> v < |seen|
    ensures Marked(seen) <= Nodes(|seen|)
  {
  }

  method ListMarked(seen: array<bool>) returns (listed: seq<nat>)
    ensures forall j, k :: 0 <= j < k < |listed| ==> listed[j] < listed[k]
    ensures forall v: nat :: v in listed <==> v in Marked(seen[..])
  {
    hide Marked;
    listed := [];
    for v: nat := 0 to seen.Length
      invariant forall j, k :: 0 <= j < k < |listed| ==> listed[j] < listed[k]
      invariant forall w: nat :: w in listed <==> w in Marked(seen[..]) && w < v
    {
      InMarked(seen[..], v);
      ghost var before := listed;
      if seen[v] {
        listed := listed + [v];
      }
      assert forall j :: 0 <= j < |before| ==> before[j] in before;
    }
    MarkedInRange(seen[..]);
  }

  /** A node whose row is needed and cannot be read. */
  ghost predicate Unreadable(g: Graph, stop: set<string>, u: nat)
    requires g.Shaped()
  {
    u < |g.nodes| && g.names[u] !in stop && !g.csr.Readable(|g.nodes|, u)
  }

  /**
   `closure`: the nodes reachable from `root` when stop names are not followed, each once, in ascending order; or nothing,
   if and only if the rows lead to one that cannot be read.
   */
  method Closure(g: Graph, root: nat, stop: set<string>) returns (r: Option<seq<nat>>)
    requires g.Shaped() && root < |g.nodes|
    ensures r.None? <==> exists u :: Reaches(SavedStep(g, stop), root, u) && Unreadable(g, stop, u)
    ensures r.Some? ==> forall j, k :: 0 <= j < k < |r.value| ==> r.value[j] < r.value[k]
    ensures r.Some? ==> forall v :: v in r.value <==> Reaches(SavedStep(g, stop), root, v)
  {
    hide Reaches, Explored, Marked, Unreadable;
    ghost var step := SavedStep(g, stop);
    var n := |g.nodes|;
    var seen := new bool[n](_ => false);
    seen[root] := true;
    var stack: seq<nat> := [root];
    StartExploring(step, root, seen[..]);
    OnlyMarked(seen[..], root);
    ghost var all := Nodes(n);
    while stack != []
      invariant Explored(step, root, seen[..], stack)
      invariant forall v :: v in Marked(seen[..]) && v !in stack ==> !Unreadable(g, stop, v)
      decreases all - Marked(seen[..]), |stack|
    {
      var u, rest := stack[|stack| - 1], stack[..|stack| - 1];
      ghost var before := seen[..];
      assert stack == rest + [u];
      OnStack(step, root, before, stack, u);
      MarkedInRange(before);
      ghost var was := stack;
      if g.names[u] in stop {
        stack := rest;
        StopIsFine(g, stop, u);
      } else {
        var ok;
        ok, stack := PushRow(g, u, seen, rest);
        RowOfNode(g, stop, u);
        if !ok {
          assert Reaches(step, root, u) && Unreadable(g, stop, u);
          return None;
        }
        MarkedInRange(seen[..]);
      }
      assert Marked(seen[..]) == Marked(before) + step(u);
      NodeExplored(step, root, before, rest, u, seen[..], stack);
      forall v | v in Marked(seen[..]) && v !in stack ensures !Unreadable(g, stop, v) {
        assert v != u ==> v !in was;
      }
      if Marked(seen[..]) != Marked(before) {
        var v :| v in Marked(seen[..]) && v !in Marked(before);
        assert v in all - Marked(before);
        assert all - Marked(seen[..]) < all - Marked(before);
      }
    }
    AllExplored(step, root, seen[..]);
    var listed := ListMarked(seen);
    r := Some(listed);
  }

  lemma OnlyMarked(seen: seq<bool>, root: nat)
    requires root < |seen| && forall v :: 0 <= v < |seen| ==> seen[v] == (v == root)
    ensures Marked(seen) == {root}
  {
  }

  lemma StopIsFine(g: Graph, stop: set<string>, u: nat)
    requires g.Shaped() && u < |g.nodes| && g.names[u] in stop
    ensures !Unreadable(g, stop, u) && SavedStep(g, stop)(u) == {}
  {
  }

  lemma RowOfNode(g: Graph, stop: set<string>, u: nat)
    requires g.Shaped() && u < |g.nodes| && g.names[u] !in stop
    ensures Unreadable(g, stop, u) <==> !g.csr.Readable(|g.nodes|, u)
    ensures SavedStep(g, stop)(u) == Elements(g.csr.Row(|g.nodes|, u))
  {
  }

  /** In a graph as it is saved every row can be read. */
  lemma AlwaysReadable(g: Graph, stop: set<string>, u: nat)
    requires g.Valid()
    ensures !Unreadable(g, stop, u)
  {
    if u < |g.nodes| {
      g.csr.AllReadable(|g.nodes|, u);
    }
  }

  lemma OnStack(step: nat -> set<nat>, root: nat, seen: seq<bool>, stack: seq<nat>, u: nat)
    requires Explored(step, root, seen, stack) && u in stack
    ensures u in Marked(seen) && Reaches(step, root, u)
  {
  }
}
