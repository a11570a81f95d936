/** Strings that end at a NUL, inside a larger string. */
module CStrings {
  const NUL: char := '\0'

  predicate NulFree(name: string) { NUL !in name }

  /** The string the loader reads: up to the next NUL. */
  function CString(data: string, offset: nat): string
    decreases |data| - offset
  {
    if offset >= |data| || data[offset] == NUL then "" else [data[offset]] + CString(data, offset + 1)
  }

  ghost predicate Holds(data: string, offset: nat, name: string) {
    offset + |name| < |data| && data[offset..offset + |name|] == name && data[offset + |name|] == NUL
  }

  lemma {:induction false} ReadsName(data: string, offset: nat, name: string)
    requires Holds(data, offset, name) && NulFree(name)
    ensures CString(data, offset) == name
    decreases |name|
  {
    if name != "" {
      assert data[offset] == data[offset..offset + |name|][0] == name[0];
      assert data[offset + 1..offset + 1 + |name[1..]|] == data[offset..offset + |name|][1..];
      ReadsName(data, offset + 1, name[1..]);
    }
  }

  /** Where the first NUL at or behind `off` is, or -1. */
  function FindNul(s: string, off: nat): (r: int)
    ensures r == -1 ==> forall k :: off <= k < |s| ==> s[k] != NUL
    ensures r != -1 ==> off <= r < |s| && s[r] == NUL && forall k :: off <= k < r ==> s[k] != NUL
    decreases |s| - off
  {
    if off >= |s| then -1 else if s[off] == NUL then off else FindNul(s, off + 1)
  }
}
