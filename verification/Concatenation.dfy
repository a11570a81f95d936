/** Sequences laid end to end, and where each of them then is. */
module Concatenation {
  ghost function Flatten<T>(parts: seq<seq<T>>): seq<T> {
    if parts == [] then [] else Flatten(parts[..|parts| - 1]) + parts[|parts| - 1]
  }

  lemma {:induction false} FlattenPrefix<T>(parts: seq<seq<T>>, k: nat)
    requires k < |parts|
    ensures |Flatten(parts[..k])| + |parts[k]| == |Flatten(parts[..k + 1])| <= |Flatten(parts)|
    ensures Flatten(parts)[|Flatten(parts[..k])|..|Flatten(parts[..k + 1])|] == parts[k]
  {
    assert parts[..k + 1][..k] == parts[..k];
    if k + 1 == |parts| {
      assert parts[..k + 1] == parts;
    } else {
      var init := parts[..|parts| - 1];
      FlattenPrefix(init, k);
      assert init[..k] == parts[..k] && init[..k + 1] == parts[..k + 1];
    }
  }

  lemma {:induction false} FlattenGrows<T>(parts: seq<seq<T>>, j: nat, k: nat)
    requires j <= k <= |parts|
    ensures |Flatten(parts[..j])| <= |Flatten(parts[..k])|
  {
    if j < k {
      FlattenGrows(parts, j, k - 1);
      assert parts[..k][..k - 1] == parts[..k - 1];
    }
  }

  /** Parts of equal length. */
  lemma {:induction false} FlattenUniform<T>(parts: seq<seq<T>>, w: nat)
    requires forall k :: 0 <= k < |parts| ==> |parts[k]| == w
    ensures |Flatten(parts)| == w * |parts|
  {
    if parts != [] {
      var init := parts[..|parts| - 1];
      FlattenUniform(init, w);
      assert w * |parts| == w * |init| + w;
    }
  }

  lemma FlattenPush<T>(parts: seq<seq<T>>, x: seq<T>)
    ensures Flatten(parts + [x]) == Flatten(parts) + x
  {
    assert (parts + [x])[..|parts|] == parts;
  }

  lemma FlattenStep<T>(parts: seq<seq<T>>, k: nat)
    requires k < |parts|
    ensures Flatten(parts[..k + 1]) == Flatten(parts[..k]) + parts[k]
  {
    assert parts[..k + 1] == parts[..k] + [parts[k]];
    FlattenPush(parts[..k], parts[k]);
  }

  /** Every element comes from one of the parts. */
  lemma {:induction false} FlattenMember<T>(parts: seq<seq<T>>, x: T)
    requires x in Flatten(parts)
    ensures exists k :: 0 <= k < |parts| && x in parts[k]
  {
    if parts != [] && x !in parts[|parts| - 1] { FlattenMember(parts[..|parts| - 1], x); }
  }

  /** `bytes` is found at `at`. */
  ghost predicate Placed<T>(file: seq<T>, at: nat, bytes: seq<T>) {
    at + |bytes| <= |file| && file[at..at + |bytes|] == bytes
  }

  lemma PlacedAt<T>(file: seq<T>, at: nat, bytes: seq<T>, k: nat)
    requires Placed(file, at, bytes) && k < |bytes|
    ensures at + k < |file| && file[at + k] == bytes[k]
  {
    assert file[at..at + |bytes|][k] == bytes[k];
  }

  lemma PlacedInside<T>(file: seq<T>, at: nat, outer: seq<T>, off: nat, inner: seq<T>)
    requires Placed(file, at, outer) && Placed(outer, off, inner)
    ensures Placed(file, at + off, inner)
  {
    var end := off + |inner|;
    forall j | 0 <= j < |inner| ensures file[at + off + j] == inner[j] {
      assert file[at..at + |outer|][off + j] == outer[off + j] == outer[off..end][j];
    }
    assert file[at + off..at + off + |inner|] == inner;
  }

  lemma PartPlaced<T>(parts: seq<seq<T>>, k: nat)
    requires k < |parts|
    ensures Placed(Flatten(parts), |Flatten(parts[..k])|, parts[k])
    ensures |Flatten(parts[..k + 1])| == |Flatten(parts[..k])| + |parts[k]|
  {
    FlattenPrefix(parts, k);
  }

  lemma UniformPlaced<T>(parts: seq<seq<T>>, w: nat, k: nat)
    requires k < |parts| && forall j :: 0 <= j < |parts| ==> |parts[j]| == w
    ensures Placed(Flatten(parts), w * k, parts[k])
  {
    PartPlaced(parts, k);
    FlattenUniform(parts[..k], w);
  }
}
