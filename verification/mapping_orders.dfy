/**
 * The three key orders of `JavaStringUtils` (the `MappingOrder` class and
 * its two subclasses). Each reorders the de-duplicated key list before the
 * keys are matched against the text.
 */
module MappingOrders {
  import opened Wrappers
  import opened JavaText
  import opened StableSort
  import opened StringMappings

  datatype MappingOrder =
    | Dictionary           // keeps the keys as they are
    | LongestStringFirst   // stable sort by descending key length
    | EarliestOccurrence   // stable sort by first index in the text, then by descending length

  /** Every key is non-empty: an empty key would be matched by a regular
      expression that matches the empty string everywhere. */
  predicate NonEmptyKeys(keys: seq<string>) {
    forall i :: 0 <= i < |keys| ==> keys[i] != ""
  }

  /** The sort key of the longest-first comparator `compare(|t|, |s|)`. */
  function LongestFirstRank(k: string): Rank {
    Rank(-|k|, 0)
  }

  /** The `occurrenceIndices` map: each key is mapped to its first index in
      `text`, or, when it does not occur, to `|text|` plus the number of keys
      mapped before it. */
  function OccurrenceIndices(keys: seq<string>, text: string): (m: map<string, nat>)
    requires NonEmptyKeys(keys)
    ensures forall k :: k in m <==> k in keys
  {
    if keys == [] then map[]
    else
      var m := OccurrenceIndices(keys[..|keys| - 1], text);
      var key := keys[|keys| - 1];
      m[key := IndexOrElse(text, key, |text| + |m|)]
  }

  /** The first index of `key` in `text`, or `other` when it does not occur. */
  function IndexOrElse(text: string, key: string, other: nat): nat
    requires key != ""
  {
    match IndexOf(text, key)
    case Some(i) => i
    case None => other
  }

  /** The sort key of the earliest-occurrence comparator: the index first,
      then the length, longer first. */
  function EarliestRank(m: map<string, nat>): string -> Rank {
    k => Rank(if k in m then m[k] else 0, -|k|)
  }

  /** `order.changeOrder(keys, text)`. */
  function ChangeOrder(order: MappingOrder, keys: seq<string>, text: string): (r: seq<string>)
    requires NonEmptyKeys(keys)
    ensures multiset(r) == multiset(keys)
    ensures NonEmptyKeys(r)
  {
    var r := match order
      case Dictionary => keys
      case LongestStringFirst => Sort(keys, LongestFirstRank)
      case EarliestOccurrence => Sort(keys, EarliestRank(OccurrenceIndices(keys, text)));
    PermutationKeepsNonEmpty(keys, r);
    r
  }

  lemma PermutationKeepsNonEmpty(keys: seq<string>, r: seq<string>)
    requires NonEmptyKeys(keys) && multiset(r) == multiset(keys)
    ensures NonEmptyKeys(r)
  {
    forall i | 0 <= i < |r|
      ensures r[i] != ""
    {
      assert r[i] in multiset(keys);
    }
  }

  /** A permutation of a sequence without repeats has no repeats. */
  lemma PermutationKeepsDistinct<T>(xs: seq<T>, r: seq<T>)
    requires Distinct(xs) && multiset(r) == multiset(xs)
    ensures Distinct(r)
  {
    forall i, j | 0 <= i < j < |r|
      ensures r[i] != r[j]
    {
      if r[i] == r[j] {
        assert r == r[..j] + r[j..];
        assert r[i] in multiset(r[..j]);
        assert multiset(r)[r[i]] >= 2;
        DistinctCount(xs, r[i]);
        assert false;
      }
    }
  }

  /** In a sequence without repeats every element occurs once. */
  lemma {:induction false} DistinctCount<T>(xs: seq<T>, x: T)
    requires Distinct(xs)
    ensures multiset(xs)[x] <= 1
  {
    if xs != [] {
      assert xs == [xs[0]] + xs[1..];
      assert Distinct(xs[1..]);
      DistinctCount(xs[1..], x);
      if x == xs[0] {
        assert x !in xs[1..];
      }
    }
  }

  /** The index of the first occurrence of `x` in `xs`. */
  function Position<T(==)>(xs: seq<T>, x: T): (p: nat)
    requires x in xs
    ensures p < |xs| && xs[p] == x && x !in xs[..p]
  {
    if xs[0] == x then 0
    else
      var p := 1 + Position(xs[1..], x);
      assert xs[..p] == [xs[0]] + xs[1..][..p - 1];
      p
  }

  /** For distinct keys the map has one entry per key. */
  lemma {:induction false} OccurrenceIndicesSize(keys: seq<string>, text: string)
    requires NonEmptyKeys(keys) && Distinct(keys)
    ensures |OccurrenceIndices(keys, text)| == |keys|
  {
    if keys != [] {
      var init := keys[..|keys| - 1];
      OccurrenceIndicesSize(init, text);
      assert keys[|keys| - 1] !in init;
    }
  }

  /** For distinct keys, a key that occurs in the text is mapped to its first
      index, and the `i`-th key of the list that does not occur is mapped to
      `|text| + i`: absent keys get distinct indices, all at least `|text|`. */
  lemma {:induction false} OccurrenceIndicesValue(keys: seq<string>, text: string)
    requires NonEmptyKeys(keys) && Distinct(keys)
    ensures forall i :: 0 <= i < |keys| ==>
              OccurrenceIndices(keys, text)[keys[i]] == IndexOrElse(text, keys[i], |text| + i)
  {
    if keys != [] {
      var init := keys[..|keys| - 1];
      OccurrenceIndicesValue(init, text);
      OccurrenceIndicesSize(init, text);
      forall i | 0 <= i < |keys| - 1
        ensures keys[i] != keys[|keys| - 1]
      {
      }
    }
  }

  /** The keys of length `n`, in their order in `keys`. */
  function KeysOfLength(keys: seq<string>, n: nat): (r: seq<string>)
    ensures forall k :: 0 <= k < |r| ==> |r[k]| == n
  {
    Filter(keys, LongestFirstRank, Rank(-(n as int), 0))
  }

  /** Longest-first gives the keys by non-increasing length, and keys of one
      length in their input order (the sort is stable). */
  lemma LongestFirstOrder(keys: seq<string>, text: string)
    requires NonEmptyKeys(keys)
    ensures var r := ChangeOrder(LongestStringFirst, keys, text);
      && multiset(r) == multiset(keys)
      && (forall i, j :: 0 <= i < j < |r| ==> |r[i]| >= |r[j]|)
      && (forall n: nat :: KeysOfLength(r, n) == KeysOfLength(keys, n))
  {
    var r := Sort(keys, LongestFirstRank);
    assert ChangeOrder(LongestStringFirst, keys, text) == r;
    SortSorted(keys, LongestFirstRank);
    forall i, j | 0 <= i < j < |r|
      ensures |r[i]| >= |r[j]|
    {
      assert RankLe(LongestFirstRank(r[i]), LongestFirstRank(r[j]));
    }
    forall n: nat
      ensures KeysOfLength(r, n) == KeysOfLength(keys, n)
    {
      SortStable(keys, LongestFirstRank, Rank(-(n as int), 0));
    }
  }

  /** The dictionary order leaves the key list as it is. */
  lemma DictionaryOrder(keys: seq<string>, text: string)
    requires NonEmptyKeys(keys)
    ensures ChangeOrder(Dictionary, keys, text) == keys
  {
  }

  /** `key` occurs in `text`. */
  predicate Occurs(text: string, key: string)
    requires key != ""
  {
    IndexOf(text, key).Some?
  }

  /** The earliest-occurrence order of `r`: every key that occurs comes
      before every key that does not; the occurring keys go by first index,
      the longer first when two start at the same index; and the keys that
      do not occur keep their order in `keys`. */
  predicate EarliestOrdered(keys: seq<string>, text: string, r: seq<string>)
    requires forall i :: 0 <= i < |r| ==> r[i] != "" && r[i] in keys
  {
    && (forall i, j :: 0 <= i < j < |r| && Occurs(text, r[j]) ==> Occurs(text, r[i]))
    && (forall i, j :: 0 <= i < j < |r| && Occurs(text, r[j]) ==>
          IndexOf(text, r[i]).value < IndexOf(text, r[j]).value
          || (IndexOf(text, r[i]).value == IndexOf(text, r[j]).value && |r[i]| > |r[j]|))
    && (forall i, j :: 0 <= i < j < |r| && !Occurs(text, r[i]) ==>
          !Occurs(text, r[j]) && Position(keys, r[i]) < Position(keys, r[j]))
  }

  /** Earliest-occurrence reorders the keys into the earliest-occurrence
      order. */
  lemma EarliestOccurrenceOrder(keys: seq<string>, text: string)
    requires NonEmptyKeys(keys) && Distinct(keys)
    ensures var r := ChangeOrder(EarliestOccurrence, keys, text);
      && multiset(r) == multiset(keys)
      && (forall i :: 0 <= i < |r| ==> r[i] != "" && r[i] in keys)
      && EarliestOrdered(keys, text, r)
  {
    var rank := EarliestRank(OccurrenceIndices(keys, text));
    var r := Sort(keys, rank);
    assert ChangeOrder(EarliestOccurrence, keys, text) == r;
    SortSorted(keys, rank);
    PermutationKeepsDistinct(keys, r);
    forall i | 0 <= i < |r|
      ensures r[i] in keys
    {
      assert r[i] in multiset(keys);
    }
    EarliestSortedPairs(keys, text, r);
  }

  /** A sequence of distinct keys sorted by the earliest-occurrence rank is
      in the earliest-occurrence order. */
  lemma EarliestSortedPairs(keys: seq<string>, text: string, r: seq<string>)
    requires NonEmptyKeys(keys) && Distinct(keys) && Distinct(r)
    requires forall i :: 0 <= i < |r| ==> r[i] != "" && r[i] in keys
    requires Sorted(r, EarliestRank(OccurrenceIndices(keys, text)))
    ensures EarliestOrdered(keys, text, r)
  {
    var m := OccurrenceIndices(keys, text);
    forall i, j | 0 <= i < j < |r|
      ensures Occurs(text, r[j]) ==> Occurs(text, r[i])
      ensures Occurs(text, r[j]) ==>
            IndexOf(text, r[i]).value < IndexOf(text, r[j]).value
            || (IndexOf(text, r[i]).value == IndexOf(text, r[j]).value && |r[i]| > |r[j]|)
      ensures !Occurs(text, r[i]) ==> !Occurs(text, r[j]) && Position(keys, r[i]) < Position(keys, r[j])
    {
      assert RankLe(EarliestRank(m)(r[i]), EarliestRank(m)(r[j]));
      EarliestPair(keys, text, r[i], r[j]);
    }
  }

  /** The index a key of the list is mapped to, in terms of its position. */
  lemma OccurrenceIndexOfKey(keys: seq<string>, text: string, k: string)
    requires NonEmptyKeys(keys) && Distinct(keys) && k in keys
    ensures k != ""
    ensures Occurs(text, k) ==> OccurrenceIndices(keys, text)[k] == IndexOf(text, k).value < |text|
    ensures !Occurs(text, k) ==> OccurrenceIndices(keys, text)[k] == |text| + Position(keys, k)
  {
    OccurrenceIndicesValue(keys, text);
    assert keys[Position(keys, k)] == k;
  }

  /** Two distinct keys in earliest-occurrence order. */
  lemma EarliestPair(keys: seq<string>, text: string, a: string, b: string)
    requires NonEmptyKeys(keys) && Distinct(keys)
    requires a in keys && b in keys && a != b
    requires RankLe(Rank(OccurrenceIndices(keys, text)[a], -|a|), Rank(OccurrenceIndices(keys, text)[b], -|b|))
    ensures Occurs(text, b) ==> Occurs(text, a)
    ensures Occurs(text, b) ==>
            IndexOf(text, a).value < IndexOf(text, b).value
            || (IndexOf(text, a).value == IndexOf(text, b).value && |a| > |b|)
    ensures !Occurs(text, a) ==> !Occurs(text, b) && Position(keys, a) < Position(keys, b)
  {
    OccurrenceIndexOfKey(keys, text, a);
    OccurrenceIndexOfKey(keys, text, b);
    if Occurs(text, a) && Occurs(text, b) {
      SameStartDiffer(text, a, b);
    } else if !Occurs(text, a) && !Occurs(text, b) {
      assert keys[Position(keys, a)] == a && keys[Position(keys, b)] == b;
    }
  }

  /** Two different keys found at the same index differ in length. */
  lemma SameStartDiffer(text: string, a: string, b: string)
    requires a != "" && b != "" && a != b
    requires Occurs(text, a) && Occurs(text, b)
    ensures IndexOf(text, a).value == IndexOf(text, b).value ==> |a| != |b|
  {
    var x, y := IndexOf(text, a).value, IndexOf(text, b).value;
    if x == y {
      assert a == text[x..x + |a|];
      assert b == text[x..x + |b|];
    }
  }
}
