/** Sizes of finite sets and of sequences without repetition. */
module Finite {
  predicate Distinct<T(==)>(s: seq<T>) {
    forall i, j :: 0 <= i < j < |s| ==> s[i] != s[j]
  }

  lemma {:induction false} SubsetSize<T>(a: set<T>, b: set<T>)
    requires a <= b
    ensures |a| <= |b|
    decreases a
  {
    if a != {} {
      var x :| x in a;
      SubsetSize(a - {x}, b - {x});
    }
  }

  lemma {:induction false} DistinctSize<T>(s: seq<T>)
    requires Distinct(s)
    ensures |set x | x in s| == |s|
  {
    if s != [] {
      var last := |s| - 1;
      DistinctSize(s[..last]);
      assert (set x | x in s) == (set x | x in s[..last]) + {s[last]};
    }
  }

  /** A sequence without repetition is no longer than a set that holds its elements. */
  lemma DistinctFits<T>(s: seq<T>, b: set<T>)
    requires Distinct(s) && forall x :: x in s ==> x in b
    ensures |s| <= |b|
  {
    DistinctSize(s);
    SubsetSize((set x | x in s), b);
  }
}
