/**
 * A stable sort by a key, as `java.util.Collections.sort` with a comparator
 * performs it. The comparators of the modelled code compare integers
 * lexicographically, so every sort key is a pair of integers. Stability
 * makes the result unique: it is the only sorted permutation that keeps
 * the input order among elements with equal keys, so insertion sort is a
 * faithful model of Java's merge sort.
 */
module StableSort {

  /** A sort key: compared on `major` first, then on `minor`. */
  datatype Rank = Rank(major: int, minor: int)

  predicate RankLe(a: Rank, b: Rank) {
    a.major < b.major || (a.major == b.major && a.minor <= b.minor)
  }

  /** `xs` is in non-decreasing order of rank. */
  predicate Sorted<T>(xs: seq<T>, rank: T -> Rank) {
    forall i, j :: 0 <= i < j < |xs| ==> RankLe(rank(xs[i]), rank(xs[j]))
  }

  /** The elements of `xs` whose rank is `c`, in their order in `xs`. */
  function Filter<T>(xs: seq<T>, rank: T -> Rank, c: Rank): (r: seq<T>)
    ensures |r| <= |xs|
    ensures forall k :: 0 <= k < |r| ==> rank(r[k]) == c
  {
    if xs == [] then []
    else if rank(xs[0]) == c then [xs[0]] + Filter(xs[1..], rank, c)
    else Filter(xs[1..], rank, c)
  }

  /** Puts `x` in front of the first element whose rank is not below `x`'s,
      so `x` stays ahead of every element of equal rank. */
  function Insert<T>(x: T, xs: seq<T>, rank: T -> Rank): (r: seq<T>)
    ensures multiset(r) == multiset(xs) + multiset{x}
    ensures |r| == |xs| + 1
  {
    if xs == [] || RankLe(rank(x), rank(xs[0])) then [x] + xs
    else
      assert xs == [xs[0]] + xs[1..];
      [xs[0]] + Insert(x, xs[1..], rank)
  }

  /** Stable insertion sort. */
  function Sort<T>(xs: seq<T>, rank: T -> Rank): (r: seq<T>)
    ensures multiset(r) == multiset(xs)
    ensures |r| == |xs|
  {
    if xs == [] then []
    else
      assert xs == [xs[0]] + xs[1..];
      Insert(xs[0], Sort(xs[1..], rank), rank)
  }

  /** Inserting into a sorted sequence keeps it sorted. */
  lemma {:induction false} InsertSorted<T>(x: T, xs: seq<T>, rank: T -> Rank)
    requires Sorted(xs, rank)
    ensures Sorted(Insert(x, xs, rank), rank)
  {
    if xs != [] && !RankLe(rank(x), rank(xs[0])) {
      var tail := Insert(x, xs[1..], rank);
      InsertSorted(x, xs[1..], rank);
      forall k | 0 <= k < |tail|
        ensures RankLe(rank(xs[0]), rank(tail[k]))
      {
        assert tail[k] in multiset(xs[1..]) + multiset{x};
        if tail[k] != x {
          assert tail[k] in xs[1..];
        }
      }
    }
  }

  /** The sort returns a sorted permutation of its input. */
  lemma {:induction false} SortSorted<T>(xs: seq<T>, rank: T -> Rank)
    ensures Sorted(Sort(xs, rank), rank)
  {
    if xs != [] {
      SortSorted(xs[1..], rank);
      InsertSorted(xs[0], Sort(xs[1..], rank), rank);
    }
  }

  /** Inserting `x` changes only the filter for `x`'s own rank, at its front. */
  lemma {:induction false} FilterInsert<T>(x: T, xs: seq<T>, rank: T -> Rank, c: Rank)
    ensures Filter(Insert(x, xs, rank), rank, c)
         == (if rank(x) == c then [x] + Filter(xs, rank, c) else Filter(xs, rank, c))
  {
    if xs != [] && !RankLe(rank(x), rank(xs[0])) {
      FilterInsert(x, xs[1..], rank, c);
      assert rank(xs[0]) != rank(x);
      assert Insert(x, xs, rank)[1..] == Insert(x, xs[1..], rank);
    }
  }

  /** Stability: among elements of equal rank the sort keeps input order. */
  lemma {:induction false} SortStable<T>(xs: seq<T>, rank: T -> Rank, c: Rank)
    ensures Filter(Sort(xs, rank), rank, c) == Filter(xs, rank, c)
  {
    if xs != [] {
      SortStable(xs[1..], rank, c);
      FilterInsert(xs[0], Sort(xs[1..], rank), rank, c);
    }
  }

  /** A sequence already sorted is left as it is. */
  lemma {:induction false} SortOfSorted<T>(xs: seq<T>, rank: T -> Rank)
    requires Sorted(xs, rank)
    ensures Sort(xs, rank) == xs
  {
    if xs != [] {
      assert Sorted(xs[1..], rank);
      SortOfSorted(xs[1..], rank);
      if |xs| > 1 {
        assert RankLe(rank(xs[0]), rank(xs[1]));
      }
    }
  }

  /** Sorting two elements swaps them exactly when the second ranks strictly
      below the first. */
  lemma SortTwo<T>(a: T, b: T, rank: T -> Rank)
    ensures Sort([a, b], rank) == if RankLe(rank(a), rank(b)) then [a, b] else [b, a]
  {
    assert [a, b][1..] == [b];
    assert [b][1..] == [];
    assert Sort([b], rank) == [b];
  }
}
