/** Reachability in a graph given by its successor function. */
module Reachability {
  ghost predicate Path<N(!new)>(succ: N -> set<N>, p: seq<N>) {
    p != [] && forall i :: 0 <= i < |p| - 1 ==> p[i + 1] in succ(p[i])
  }

  ghost predicate Reaches<N(!new)>(succ: N -> set<N>, a: N, b: N) {
    exists p :: Path(succ, p) && p[0] == a && p[|p| - 1] == b
  }

  ghost predicate Closed<N(!new)>(succ: N -> set<N>, s: set<N>) {
    forall n :: n in s ==> succ(n) <= s
  }

  lemma ReachesSelf<N(!new)>(succ: N -> set<N>, a: N)
    ensures Reaches(succ, a, a)
  {
    assert Path(succ, [a]);
  }

  lemma ReachesNext<N(!new)>(succ: N -> set<N>, a: N, b: N, c: N)
    requires Reaches(succ, a, b) && c in succ(b)
    ensures Reaches(succ, a, c)
  {
    var p :| Path(succ, p) && p[0] == a && p[|p| - 1] == b;
    assert Path(succ, p + [c]);
  }

  lemma ReachesThrough<N(!new)>(succ: N -> set<N>, a: N, b: N, c: N)
    requires Reaches(succ, a, b) && Reaches(succ, b, c)
    ensures Reaches(succ, a, c)
  {
    var p :| Path(succ, p) && p[0] == a && p[|p| - 1] == b;
    var q :| Path(succ, q) && q[0] == b && q[|q| - 1] == c;
    var r := p + q[1..];
    forall i | 0 <= i < |r| - 1 ensures r[i + 1] in succ(r[i]) {
      if i >= |p| - 1 {
        assert r[i] == q[i - (|p| - 1)] && r[i + 1] == q[i + 1 - (|p| - 1)];
      }
    }
    assert Path(succ, r);
  }

  /** A closed set is never left. */
  lemma ClosedContains<N(!new)>(succ: N -> set<N>, s: set<N>, a: N, b: N)
    requires Closed(succ, s) && a in s && Reaches(succ, a, b)
    ensures b in s
  {
    var p :| Path(succ, p) && p[0] == a && p[|p| - 1] == b;
    PathStays(succ, s, p, |p| - 1);
  }

  lemma {:induction false} PathStays<N(!new)>(succ: N -> set<N>, s: set<N>, p: seq<N>, i: nat)
    requires Closed(succ, s) && Path(succ, p) && p[0] in s && i < |p|
    ensures p[i] in s
  {
    if i > 0 {
      PathStays(succ, s, p, i - 1);
      assert p[i - 1 + 1] in succ(p[i - 1]);
    }
  }

  /** What a traversal from `root` has found when it is done: a closed set of reachable nodes is the reachable set. */
  lemma ReachableSet<N(!new)>(succ: N -> set<N>, root: N, s: set<N>)
    requires root in s && Closed(succ, s) && forall n :: n in s ==> Reaches(succ, root, n)
    ensures forall n :: n in s <==> Reaches(succ, root, n)
  {
    forall n | Reaches(succ, root, n) ensures n in s {
      ClosedContains(succ, s, root, n);
    }
  }
}
