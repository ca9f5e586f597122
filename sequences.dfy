/**
 * The LINQ sequence operations the indexer relies on: `Distinct` keeps the
 * first occurrence of every element, `Intersect(a, b)` keeps the first
 * occurrence of every element of `a` that also occurs in `b`.
 */
module Sequences {

  /** No element occurs twice. */
  ghost predicate NoDups<T>(s: seq<T>) {
    forall i, j | 0 <= i < j < |s| :: s[i] != s[j]
  }

  /** The elements of a sequence, as a set. */
  ghost function Elems<T>(s: seq<T>): set<T> {
    set x | x in s
  }

  /** `Enumerable.Distinct`: the first occurrence of each element, in order. */
  function Distinct<T(==,!new)>(s: seq<T>): (r: seq<T>)
    ensures NoDups(r)
    ensures forall x :: x in r <==> x in s
    ensures |r| <= |s|
    decreases |s|
  {
    if |s| == 0 then []
    else
      var prefix := Distinct(s[..|s| - 1]);
      if s[|s| - 1] in prefix then prefix else prefix + [s[|s| - 1]]
  }

  /** The elements of `a` that occur in `b`, in the order of `a`, duplicates kept. */
  function Filter<T(==,!new)>(a: seq<T>, b: seq<T>): (r: seq<T>)
    ensures forall x :: x in r <==> x in a && x in b
    ensures NoDups(a) ==> NoDups(r)
    ensures |r| <= |a|
    decreases |a|
  {
    if |a| == 0 then []
    else
      var prefix := Filter(a[..|a| - 1], b);
      if a[|a| - 1] in b then prefix + [a[|a| - 1]] else prefix
  }

  /** `Enumerable.Intersect`: the distinct elements of `a` that occur in `b`, in the order of `a`. */
  function Intersect<T(==,!new)>(a: seq<T>, b: seq<T>): (r: seq<T>)
    ensures NoDups(r)
    ensures forall x :: x in r <==> x in a && x in b
    ensures |r| <= |a|
  {
    Distinct(Filter(a, b))
  }

  /** A sequence without duplicates is left as it is by `Distinct`. */
  lemma {:induction false} DistinctOfNoDups<T(!new)>(s: seq<T>)
    requires NoDups(s)
    ensures Distinct(s) == s
    decreases |s|
  {
    if |s| > 0 {
      DistinctOfNoDups(s[..|s| - 1]);
    }
  }

  /** Every element of `a` is kept by `Filter(a, a)`. */
  lemma {:induction false} FilterSelf<T(!new)>(a: seq<T>, b: seq<T>)
    requires forall x :: x in a ==> x in b
    ensures Filter(a, b) == a
    decreases |a|
  {
    if |a| > 0 {
      FilterSelf(a[..|a| - 1], b);
    }
  }

  /** Intersecting a duplicate-free sequence with itself gives it back. */
  lemma IntersectSelf<T(!new)>(a: seq<T>)
    requires NoDups(a)
    ensures Intersect(a, a) == a
  {
    FilterSelf(a, a);
    DistinctOfNoDups(a);
  }

  /** A duplicate-free sequence has as many elements as its set of elements. */
  lemma {:induction false} NoDupsCard<T(!new)>(s: seq<T>)
    requires NoDups(s)
    ensures |Elems(s)| == |s|
    decreases |s|
  {
    if |s| > 0 {
      var prefix := s[..|s| - 1];
      NoDupsCard(prefix);
      assert Elems(s) == Elems(prefix) + {s[|s| - 1]};
      assert s[|s| - 1] !in Elems(prefix);
    }
  }

  /** The length of an intersection is the size of the intersection of the element sets. */
  lemma IntersectCard<T(!new)>(a: seq<T>, b: seq<T>)
    ensures |Intersect(a, b)| == |Elems(a) * Elems(b)|
  {
    var r := Intersect(a, b);
    NoDupsCard(r);
    assert Elems(r) == Elems(a) * Elems(b);
  }
}
