/** Bytes, and what is said of sequences of any kind. */
module Sequences {

  newtype Byte = b: int | 0 <= b < 256

  predicate Distinct<T(==)>(s: seq<T>) {
    forall i, j :: 0 <= i < j < |s| ==> s[i] != s[j]
  }

  function FirstOnes<T>(s: seq<T>, n: nat): (r: seq<T>)
    ensures |r| == (if n < |s| then n else |s|) && forall k :: 0 <= k < |r| ==> r[k] == s[k]
  {
    if n < |s| then s[..n] else s
  }

  /** The sequences one after the other. */
  function Flattened<T>(parts: seq<seq<T>>): seq<T> {
    if parts == [] then [] else Flattened(parts[..|parts| - 1]) + parts[|parts| - 1]
  }

  lemma {:induction false} FlattenedBoth<T>(a: seq<seq<T>>, b: seq<seq<T>>)
    ensures Flattened(a + b) == Flattened(a) + Flattened(b)
  {
    if b == [] {
      assert a + b == a;
    } else {
      var all, n := a + b, |b| - 1;
      assert all[..|all| - 1] == a + b[..n] && all[|all| - 1] == b[n];
      FlattenedBoth(a, b[..n]);
      assert Flattened(a) + Flattened(b[..n]) + b[n] == Flattened(a) + (Flattened(b[..n]) + b[n]);
    }
  }
}
