/**
 * Counting arguments shared by the erasure code: a list of distinct numbers below n that has n
 * entries is a permutation of 0..n-1.
 */
module Counting {

  ghost predicate Distinct<T>(s: seq<T>) {
    forall i, j | 0 <= i < j < |s| :: s[i] != s[j]
  }

  ghost function Below(n: nat): (r: set<int>)
    ensures |r| == n
    ensures forall x :: x in r <==> 0 <= x < n
  {
    if n == 0 then {} else Below(n - 1) + {n - 1}
  }

  ghost function Elements<T>(s: seq<T>): set<T> {
    set x | x in s
  }

  lemma DistinctSize<T>(s: seq<T>)
    requires Distinct(s)
    ensures |Elements(s)| == |s|
  {
    if s != [] {
      var front, last := s[..|s| - 1], s[|s| - 1];
      DistinctSize(front);
      assert last !in front;
      assert s == front + [last];
      assert Elements(s) == Elements(front) + {last};
    }
  }

  lemma SubsetOfSameSize<T>(a: set<T>, b: set<T>)
    requires a <= b && |a| == |b|
    ensures a == b
  {
    assert b == a + (b - a);
    assert |b - a| == 0;
  }

  /** The pigeonhole principle: n distinct numbers below n leave no number out. */
  lemma Pigeonhole(s: seq<int>, n: nat, v: int)
    requires Distinct(s) && |s| == n
    requires forall x | x in s :: 0 <= x < n
    requires 0 <= v < n
    ensures v in s
  {
    DistinctSize(s);
    SubsetOfSameSize(Elements(s), Below(n));
    assert v in Below(n);
  }
}
