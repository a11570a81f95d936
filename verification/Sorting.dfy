/** Sorting by a key, where keys are compared from the front, as Python compares tuples. */
module Sorting {
  ghost predicate Distinct<T>(s: seq<T>) { forall j, k :: 0 <= j < k < |s| ==> s[j] != s[k] }

  predicate KeyLe(a: seq<nat>, b: seq<nat>) {
    a == [] || (b != [] && (a[0] < b[0] || (a[0] == b[0] && KeyLe(a[1..], b[1..]))))
  }

  lemma {:induction false} KeyLeTotal(a: seq<nat>, b: seq<nat>)
    ensures KeyLe(a, b) || KeyLe(b, a)
  {
    if a != [] && b != [] { KeyLeTotal(a[1..], b[1..]); }
  }

  lemma {:induction false} KeyLeTransitive(a: seq<nat>, b: seq<nat>, c: seq<nat>)
    requires KeyLe(a, b) && KeyLe(b, c)
    ensures KeyLe(a, c)
  {
    if a != [] && a[0] == b[0] == c[0] { KeyLeTransitive(a[1..], b[1..], c[1..]); }
  }

  ghost predicate SortedBy<T>(xs: seq<T>, key: T -> seq<nat>) {
    forall j, k :: 0 <= j < k < |xs| ==> KeyLe(key(xs[j]), key(xs[k]))
  }

  /** Inserting an element behind all those whose key is not larger. */
  method Insert<T>(sorted: seq<T>, x: T, key: T -> seq<nat>) returns (r: seq<T>)
    requires SortedBy(sorted, key)
    ensures SortedBy(r, key) && multiset(r) == multiset(sorted) + multiset{x}
  {
    hide KeyLe, SortedBy;
    var i := |sorted|;
    while i > 0 && !KeyLe(key(sorted[i - 1]), key(x))
      invariant 0 <= i <= |sorted|
      invariant forall j :: i <= j < |sorted| ==> KeyLe(key(x), key(sorted[j]))
    {
      KeyLeTotal(key(sorted[i - 1]), key(x));
      i := i - 1;
    }
    r := sorted[..i] + [x] + sorted[i..];
    InsertedInOrder(sorted, x, key, i);
    InsertedOnce(sorted, x, i);
  }

  lemma InsertedInOrder<T>(sorted: seq<T>, x: T, key: T -> seq<nat>, i: nat)
    requires SortedBy(sorted, key) && i <= |sorted|
    requires i > 0 ==> KeyLe(key(sorted[i - 1]), key(x))
    requires forall j :: i <= j < |sorted| ==> KeyLe(key(x), key(sorted[j]))
    ensures SortedBy(sorted[..i] + [x] + sorted[i..], key)
  {
    hide KeyLe;
    forall j | 0 <= j < i ensures KeyLe(key(sorted[j]), key(x)) {
      if j < i - 1 {
        KeyLeTransitive(key(sorted[j]), key(sorted[i - 1]), key(x));
      }
    }
  }

  lemma InsertedOnce<T>(s: seq<T>, x: T, i: nat)
    requires i <= |s|
    ensures multiset(s[..i] + [x] + s[i..]) == multiset(s) + multiset{x}
  {
    assert s == s[..i] + s[i..];
  }

  /** The elements in key order. */
  method SortBy<T>(xs: seq<T>, key: T -> seq<nat>) returns (r: seq<T>)
    ensures SortedBy(r, key) && multiset(r) == multiset(xs)
  {
    r := [];
    for i := 0 to |xs|
      invariant SortedBy(r, key) && multiset(r) == multiset(xs[..i])
    {
      r := Insert(r, xs[i], key);
      assert xs[..i + 1] == xs[..i] + [xs[i]];
    }
    assert xs[..|xs|] == xs;
  }

  lemma SameElements<T>(r: seq<T>, s: seq<T>)
    requires multiset(r) == multiset(s)
    ensures |r| == |s| && (forall x :: x in r <==> x in s) && (Distinct(s) ==> Distinct(r))
  {
    assert |multiset(r)| == |multiset(s)|;
    forall x ensures x in r <==> x in s {
      assert x in r <==> x in multiset(r);
      assert x in s <==> x in multiset(s);
    }
    if Distinct(s) {
      forall j, k | 0 <= j < k < |r| ensures r[j] != r[k] {
        if r[j] == r[k] {
          TwiceInMultiset(r, j, k);
          OnceInMultiset(s, r[j]);
          assert false;
        }
      }
    }
  }

  lemma TwiceInMultiset<T>(r: seq<T>, j: nat, k: nat)
    requires j < k < |r| && r[j] == r[k]
    ensures multiset(r)[r[j]] >= 2
  {
    assert r == r[..k] + [r[k]] + r[k + 1..];
    assert r[j] in r[..k];
    assert multiset(r) == multiset(r[..k]) + multiset{r[k]} + multiset(r[k + 1..]);
  }

  lemma {:induction false} OnceInMultiset<T>(s: seq<T>, x: T)
    requires Distinct(s)
    ensures multiset(s)[x] <= 1
  {
    if s != [] {
      var init := s[..|s| - 1];
      assert s == init + [s[|s| - 1]];
      OnceInMultiset(init, x);
      if x == s[|s| - 1] {
        assert x !in init;
        assert x !in multiset(init);
      }
    }
  }
}
