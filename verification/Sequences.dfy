/** Notions on sequences that several models share. */
module Sequences {

  /** The first n elements, or all of them if there are fewer. */
  function Take<T>(s: seq<T>, n: nat): seq<T> {
    if |s| <= n then s else s[..n]
  }

  ghost predicate Distinct<T>(s: seq<T>) {
    forall i, j :: 0 <= i < j < |s| ==> s[i] != s[j]
  }

  lemma SliceOf<T>(before: seq<T>, mid: seq<T>, all: seq<T>)
    requires before + mid <= all
    ensures all[|before|..|before| + |mid|] == mid
  {
    assert all[..|before| + |mid|] == before + mid;
  }
}
