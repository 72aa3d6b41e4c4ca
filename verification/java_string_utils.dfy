/**
 * `JavaStringUtils.replaceAllMappings` / `applyMappings`: every key of a
 * mapping is replaced in a text by its value. All matching is done on the
 * original text: each key's occurrences are found left to right, an
 * occurrence is accepted unless it clashes with an accepted range, and the
 * accepted ranges are spliced in by descending range end.
 *
 * Guava's `TreeRangeSet` is only asked `contains(i)`, so it is modelled by
 * the sequence of accepted ranges and the membership test `Covered`. The
 * `TreeMap` of replacements compares ranges by their end only; accepted ends
 * are always distinct (`AcceptedEndsDistinct`), so its iteration order is
 * the accepted ranges sorted by descending end.
 */
module JavaStringUtils {
  import opened Wrappers
  import opened JavaText
  import opened StableSort
  import opened StringMappings
  import opened MappingOrders

  /** `Matcher.find` over the quoted key: the start of every occurrence of
      `key` at or after `from`, leftmost first, each search resuming at the
      end of the previous match. */
  function Occurrences(text: string, key: string, from: nat): (r: seq<nat>)
    requires key != ""
    ensures forall k :: 0 <= k < |r| ==> from <= r[k] && OccursAt(text, key, r[k])
    ensures forall i, j :: 0 <= i < j < |r| ==> r[i] + |key| <= r[j]
    decreases |text| - from
  {
    match IndexOfFrom(text, key, from)
    case None => []
    case Some(i) =>
      var rest := Occurrences(text, key, i + |key|);
      var r := [i] + rest;
      assert forall k :: 0 < k < |r| ==> r[k] == rest[k - 1];
      r
  }

  /** Some start in `occ` begins a stretch of `len` indices holding `j`. */
  predicate Overlaps(occ: seq<nat>, len: nat, j: nat) {
    exists k :: 0 <= k < |occ| && occ[k] <= j < occ[k] + len
  }

  /** No occurrence at or after `from` is skipped: each one is found or
      overlaps a found one. */
  lemma {:induction false} OccurrencesComplete(text: string, key: string, from: nat, j: nat)
    requires key != "" && from <= j && OccursAt(text, key, j)
    ensures Overlaps(Occurrences(text, key, from), |key|, j)
    decreases |text| - from
  {
    var i := FirstOccurrence(text, key, from, j);
    OccurrencesUnfold(text, key, from, i);
    if i + |key| <= j {
      OccurrencesComplete(text, key, i + |key|, j);
    }
    OverlapsCons(i, Occurrences(text, key, i + |key|), |key|, j);
  }

  lemma OverlapsCons(i: nat, rest: seq<nat>, len: nat, j: nat)
    requires Overlaps(rest, len, j) || i <= j < i + len
    ensures Overlaps([i] + rest, len, j)
  {
    var occ := [i] + rest;
    if i <= j < i + len {
      assert occ[0] == i;
    } else {
      var k :| 0 <= k < |rest| && rest[k] <= j < rest[k] + len;
      assert occ[k + 1] == rest[k];
    }
  }

  /** An occurrence at `j` is found by a search from any `from <= j`, at
      `j` or before. */
  lemma FirstOccurrence(text: string, key: string, from: nat, j: nat) returns (i: nat)
    requires key != "" && from <= j && OccursAt(text, key, j)
    ensures IndexOfFrom(text, key, from) == Some(i) && from <= i <= j
  {
    i := IndexOfFrom(text, key, from).value;
  }

  /** A search that finds `key` at `i` continues at `i + |key|`. */
  lemma OccurrencesUnfold(text: string, key: string, from: nat, i: nat)
    requires key != "" && IndexOfFrom(text, key, from) == Some(i)
    ensures Occurrences(text, key, from) == [i] + Occurrences(text, key, i + |key|)
  {
  }

  /** The range `[start, end)` of the original text, to be replaced by `replacement`. */
  datatype Range = Range(start: nat, end: nat, replacement: string)

  /** `ranges.contains(i)`: some accepted range holds index `i`. */
  predicate Covered(acc: seq<Range>, i: int) {
    exists x :: x in acc && x.start <= i < x.end
  }

  /** Some accepted range shares an index with `[s, e)`. */
  predicate Intersects(acc: seq<Range>, s: int, e: int) {
    exists x :: x in acc && x.start < e && s < x.end
  }

  /** When an occurrence clashes with the accepted ranges. */
  datatype AcceptRule =
    | EndpointTest       // as written: its first or its last index is already covered
    | IntersectionTest   // corrected: any of its indices is already covered

  predicate Conflicts(rule: AcceptRule, acc: seq<Range>, s: int, e: int) {
    match rule
    case EndpointTest => Covered(acc, s) || Covered(acc, e - 1)
    case IntersectionTest => Intersects(acc, s, e)
  }

  /** The `while (matcher.find())` loop for one key: each occurrence start
      in turn is accepted unless it conflicts with the ranges accepted so far. */
  function AcceptKey(rule: AcceptRule, starts: seq<nat>, len: nat, rep: string, acc: seq<Range>): (r: seq<Range>)
    ensures acc <= r
    ensures forall x :: x in r ==> x in acc || (x.end == x.start + len && x.replacement == rep && x.start in starts)
  {
    if starts == [] then acc
    else AcceptKey(rule, starts[1..], len, rep, AcceptStart(rule, acc, starts[0], len, rep))
  }

  /** One pass of the loop: the occurrence at `s` is added unless it conflicts. */
  function AcceptStart(rule: AcceptRule, acc: seq<Range>, s: nat, len: nat, rep: string): seq<Range> {
    if Conflicts(rule, acc, s, s + len) then acc else acc + [Range(s, s + len, rep)]
  }

  /** The range construction step over every key, in order. */
  function AcceptAll(rule: AcceptRule, text: string, lookup: map<string, string>, keys: seq<string>, acc: seq<Range>): (r: seq<Range>)
    requires NonEmptyKeys(keys)
    requires forall i :: 0 <= i < |keys| ==> keys[i] in lookup
  {
    if keys == [] then acc
    else
      var key := keys[0];
      AcceptAll(rule, text, lookup, keys[1..], AcceptKey(rule, Occurrences(text, key, 0), |key|, lookup[key], acc))
  }

  /** The sort key for the `TreeMap` order: descending range end. */
  function EndRank(x: Range): Rank {
    Rank(-(x.end as int), 0)
  }

  /** The splice loop: each range in turn is cut out of the current text with
      `substring`, which throws unless its bounds lie within that text. */
  function Splice(text: string, rs: seq<Range>): Result<string>
    decreases |rs|
  {
    if rs == [] then Ok(text)
    else
      var left :- Substring(text, 0, rs[0].start);
      var right :- Substring(text, rs[0].end, |text|);
      Splice(left + rs[0].replacement + right, rs[1..])
  }

  /** The entries of the `TreeMap` of replacements, in iteration order. */
  function AcceptedRanges(rule: AcceptRule, text: string, lookup: map<string, string>, keys: seq<string>): seq<Range>
    requires NonEmptyKeys(keys)
    requires forall i :: 0 <= i < |keys| ==> keys[i] in lookup
  {
    Sort(AcceptAll(rule, text, lookup, keys, []), EndRank)
  }

  /** `applyMappings(text, lookup, keys)` as written: the endpoint test,
      then the splice, which may throw. */
  function ApplyMappingsAsWritten(text: string, lookup: map<string, string>, keys: seq<string>): Result<string>
    requires NonEmptyKeys(keys)
    requires forall i :: 0 <= i < |keys| ==> keys[i] in lookup
  {
    Splice(text, AcceptedRanges(EndpointTest, text, lookup, keys))
  }

  // ---------------------------------------------------------------------
  // What the range construction step keeps invariant

  /** Each range is a non-empty slice of `text` holding a key of `lookup`,
      to be replaced by that key's value. */
  predicate MatchesText(acc: seq<Range>, text: string, lookup: map<string, string>) {
    forall x :: x in acc ==>
      && x.start < x.end <= |text|
      && text[x.start..x.end] in lookup
      && x.replacement == lookup[text[x.start..x.end]]
  }

  /** No range is listed twice and no two ranges end at the same index. */
  predicate EndsDistinct(acc: seq<Range>) {
    && Distinct(acc)
    && (forall x, y :: x in acc && y in acc && x != y ==> x.end != y.end)
  }

  /** No two ranges share an index. */
  predicate PairwiseDisjoint(acc: seq<Range>) {
    forall x, y :: x in acc && y in acc && x != y ==> x.end <= y.start || y.end <= x.start
  }

  /** Every range is at least `len` long. */
  predicate MinLength(acc: seq<Range>, len: nat) {
    forall x :: x in acc ==> x.end - x.start >= len
  }

  /** Each accepted range of a key is an occurrence of that key, replaced by
      the key's value. */
  lemma AcceptKeyMatches(rule: AcceptRule, text: string, key: string, lookup: map<string, string>,
                         starts: seq<nat>, acc: seq<Range>)
    requires key != "" && key in lookup
    requires forall k :: 0 <= k < |starts| ==> OccursAt(text, key, starts[k])
    requires MatchesText(acc, text, lookup)
    ensures MatchesText(AcceptKey(rule, starts, |key|, lookup[key], acc), text, lookup)
  {
    var r := AcceptKey(rule, starts, |key|, lookup[key], acc);
    forall x | x in r && x !in acc
      ensures x.start < x.end <= |text| && text[x.start..x.end] == key
    {
      var k :| 0 <= k < |starts| && starts[k] == x.start;
      assert OccursAt(text, key, starts[k]);
    }
  }

  /** Under either rule an accepted range is new and ends where no accepted
      range ends: its last index would otherwise be covered already. So the
      `TreeMap` keyed by range end never overwrites an entry. */
  lemma {:induction false} AcceptKeyEndsDistinct(rule: AcceptRule, starts: seq<nat>, len: nat, rep: string, acc: seq<Range>)
    requires len > 0
    requires forall x :: x in acc ==> x.start < x.end
    requires EndsDistinct(acc)
    ensures EndsDistinct(AcceptKey(rule, starts, len, rep, acc))
    decreases |starts|
  {
    if starts != [] {
      AcceptStartEndsDistinct(rule, acc, starts[0], len, rep);
      AcceptKeyEndsDistinct(rule, starts[1..], len, rep, AcceptStart(rule, acc, starts[0], len, rep));
    }
  }

  /** One pass keeps the ranges non-empty with distinct ends. */
  lemma AcceptStartEndsDistinct(rule: AcceptRule, acc: seq<Range>, s: nat, len: nat, rep: string)
    requires len > 0
    requires forall x :: x in acc ==> x.start < x.end
    requires EndsDistinct(acc)
    ensures var r := AcceptStart(rule, acc, s, len, rep);
      EndsDistinct(r) && forall x :: x in r ==> x.start < x.end
  {
    var x := Range(s, s + len, rep);
    if !Conflicts(rule, acc, s, s + len) {
      assert !Covered(acc, s + len - 1);
      assert x !in acc;
      var acc' := acc + [x];
      forall y | y in acc' && y != x
        ensures y.end != x.end
      {
        assert y in acc;
      }
      assert Distinct(acc');
    }
  }

  /** A range that meets no range of a disjoint list keeps it disjoint. */
  lemma DisjointAppend(acc: seq<Range>, x: Range)
    requires PairwiseDisjoint(acc) && !Intersects(acc, x.start, x.end)
    ensures PairwiseDisjoint(acc + [x])
  {
    forall y, z | y in acc + [x] && z in acc + [x] && y != z
      ensures y.end <= z.start || z.end <= y.start
    {
      if y == x {
        assert z in acc;
      } else if z == x {
        assert y in acc;
      } else {
        assert y in acc && z in acc;
      }
    }
  }

  /** The corrected rule keeps the accepted ranges pairwise disjoint. */
  lemma {:induction false} AcceptKeyDisjoint(starts: seq<nat>, len: nat, rep: string, acc: seq<Range>)
    requires PairwiseDisjoint(acc)
    ensures PairwiseDisjoint(AcceptKey(IntersectionTest, starts, len, rep, acc))
    decreases |starts|
  {
    if starts != [] {
      var s := starts[0];
      if !Intersects(acc, s, s + len) {
        DisjointAppend(acc, Range(s, s + len, rep));
      }
      AcceptKeyDisjoint(starts[1..], len, rep, AcceptStart(IntersectionTest, acc, s, len, rep));
    }
  }

  /** Against ranges at least as long as the occurrence, its first or last
      index is covered exactly when any of its indices is. */
  lemma EndpointTestExact(acc: seq<Range>, s: int, len: nat)
    requires len > 0 && MinLength(acc, len)
    ensures Conflicts(EndpointTest, acc, s, s + len) <==> Conflicts(IntersectionTest, acc, s, s + len)
  {
    if Intersects(acc, s, s + len) {
      var x :| x in acc && x.start < s + len && s < x.end;
      if x.start > s {
        assert x.start <= s + len - 1 < x.end;
      }
    }
  }

  /** With ranges at least as long as the key, the two rules accept the same
      occurrences. */
  lemma {:induction false} AcceptKeyRulesAgree(starts: seq<nat>, len: nat, rep: string, acc: seq<Range>)
    requires len > 0 && MinLength(acc, len)
    ensures AcceptKey(EndpointTest, starts, len, rep, acc) == AcceptKey(IntersectionTest, starts, len, rep, acc)
    ensures MinLength(AcceptKey(IntersectionTest, starts, len, rep, acc), len)
    decreases |starts|
  {
    if starts != [] {
      AcceptStartRulesAgree(acc, starts[0], len, rep);
      AcceptKeyRulesAgree(starts[1..], len, rep, AcceptStart(IntersectionTest, acc, starts[0], len, rep));
    }
  }

  /** One pass under either rule, against ranges at least as long as the
      key: the same ranges, still at least as long. */
  lemma AcceptStartRulesAgree(acc: seq<Range>, s: nat, len: nat, rep: string)
    requires len > 0 && MinLength(acc, len)
    ensures AcceptStart(EndpointTest, acc, s, len, rep) == AcceptStart(IntersectionTest, acc, s, len, rep)
    ensures MinLength(AcceptStart(IntersectionTest, acc, s, len, rep), len)
  {
    EndpointTestExact(acc, s, len);
    var r := AcceptStart(IntersectionTest, acc, s, len, rep);
    assert forall y :: y in r ==> y in acc || y == Range(s, s + len, rep);
  }

  /** Every accepted range is an occurrence in the original text of the key
      it is replaced for, no range is accepted twice, and no two accepted
      ranges end at the same index (under either rule, in any key order). */
  lemma {:induction false} AcceptAllInvariants(rule: AcceptRule, text: string, lookup: map<string, string>,
                                               keys: seq<string>, acc: seq<Range>)
    requires NonEmptyKeys(keys)
    requires forall i :: 0 <= i < |keys| ==> keys[i] in lookup
    requires MatchesText(acc, text, lookup) && EndsDistinct(acc)
    ensures MatchesText(AcceptAll(rule, text, lookup, keys, acc), text, lookup)
    ensures EndsDistinct(AcceptAll(rule, text, lookup, keys, acc))
  {
    if keys != [] {
      var key := keys[0];
      var starts := Occurrences(text, key, 0);
      AcceptKeyMatches(rule, text, key, lookup, starts, acc);
      AcceptKeyEndsDistinct(rule, starts, |key|, lookup[key], acc);
      AcceptAllInvariants(rule, text, lookup, keys[1..], AcceptKey(rule, starts, |key|, lookup[key], acc));
    }
  }

  /** Under the corrected rule the accepted ranges are pairwise disjoint,
      whatever the key order. */
  lemma {:induction false} AcceptAllDisjoint(text: string, lookup: map<string, string>, keys: seq<string>, acc: seq<Range>)
    requires NonEmptyKeys(keys)
    requires forall i :: 0 <= i < |keys| ==> keys[i] in lookup
    requires PairwiseDisjoint(acc)
    ensures PairwiseDisjoint(AcceptAll(IntersectionTest, text, lookup, keys, acc))
  {
    if keys != [] {
      var key := keys[0];
      var starts := Occurrences(text, key, 0);
      AcceptKeyDisjoint(starts, |key|, lookup[key], acc);
      AcceptAllDisjoint(text, lookup, keys[1..], AcceptKey(IntersectionTest, starts, |key|, lookup[key], acc));
    }
  }

  /** Keys ordered by non-increasing length. */
  predicate LongestFirst(keys: seq<string>) {
    forall i, j :: 0 <= i < j < |keys| ==> |keys[i]| >= |keys[j]|
  }

  /** When the keys come longest first, the endpoint test accepts exactly
      what the intersection test accepts. */
  lemma {:induction false} AcceptAllRulesAgree(text: string, lookup: map<string, string>, keys: seq<string>, acc: seq<Range>)
    requires NonEmptyKeys(keys)
    requires forall i :: 0 <= i < |keys| ==> keys[i] in lookup
    requires LongestFirst(keys)
    requires keys != [] ==> MinLength(acc, |keys[0]|)
    ensures AcceptAll(EndpointTest, text, lookup, keys, acc) == AcceptAll(IntersectionTest, text, lookup, keys, acc)
  {
    if keys != [] {
      var key := keys[0];
      var starts := Occurrences(text, key, 0);
      AcceptKeyRulesAgree(starts, |key|, lookup[key], acc);
      var acc' := AcceptKey(IntersectionTest, starts, |key|, lookup[key], acc);
      assert LongestFirst(keys[1..]);
      if |keys| > 1 {
        assert |keys[1]| <= |key|;
      }
      AcceptAllRulesAgree(text, lookup, keys[1..], acc');
    }
  }

  // ---------------------------------------------------------------------
  // The splice step

  /** Ranges within `[0, n)`, each one lying wholly before the one listed
      ahead of it. */
  predicate Descending(rs: seq<Range>, n: nat) {
    && (forall i :: 0 <= i < |rs| ==> rs[i].start <= rs[i].end <= n)
    && (forall i, j :: 0 <= i < j < |rs| ==> rs[j].end <= rs[i].start)
  }

  /** The text with every range replaced, built from slices of the original
      text only: what lies before the last range, rebuilt, then that range's
      replacement, then the untouched rest. */
  function Rebuild(text: string, rs: seq<Range>): string
    requires Descending(rs, |text|)
    decreases |rs|
  {
    if rs == [] then text
    else Rebuild(text[..rs[0].start], rs[1..]) + rs[0].replacement + text[rs[0].end..]
  }

  /** Text after the last range plays no part in the splice. */
  lemma {:induction false} SpliceAppend(prefix: string, suffix: string, rs: seq<Range>)
    requires Descending(rs, |prefix|)
    ensures Splice(prefix + suffix, rs) == Ok(Rebuild(prefix, rs) + suffix)
    decreases |rs|
  {
    if rs != [] {
      var r := rs[0];
      var t := prefix + suffix;
      assert t[0..r.start] == prefix[..r.start];
      assert Substring(t, 0, r.start) == Ok(prefix[..r.start]);
      assert t[r.end..|t|] == prefix[r.end..] + suffix;
      assert Substring(t, r.end, |t|) == Ok(prefix[r.end..] + suffix);
      var next := prefix[..r.start] + r.replacement + (prefix[r.end..] + suffix);
      assert Splice(t, rs) == Splice(next, rs[1..]);
      assert next == prefix[..r.start] + (r.replacement + prefix[r.end..] + suffix);
      SpliceAppend(prefix[..r.start], r.replacement + prefix[r.end..] + suffix, rs[1..]);
      assert Rebuild(prefix, rs) + suffix
          == Rebuild(prefix[..r.start], rs[1..]) + (r.replacement + prefix[r.end..] + suffix);
    }
  }

  /** Splicing in ranges of descending end that do not overlap never fails,
      and every range replaces exactly its slice of the original text. */
  lemma SpliceDescending(text: string, rs: seq<Range>)
    requires Descending(rs, |text|)
    ensures Splice(text, rs) == Ok(Rebuild(text, rs))
  {
    SpliceAppend(text, "", rs);
    assert text + "" == text;
    assert Rebuild(text, rs) + "" == Rebuild(text, rs);
  }

  /** The total length of the replaced slices. */
  function MatchedLength(rs: seq<Range>): int {
    if rs == [] then 0 else rs[0].end - rs[0].start + MatchedLength(rs[1..])
  }

  /** The total length of the replacements. */
  function ReplacementLength(rs: seq<Range>): nat {
    if rs == [] then 0 else |rs[0].replacement| + ReplacementLength(rs[1..])
  }

  /** Length accounting: the output is the text less the replaced slices
      plus the replacements. */
  lemma {:induction false} RebuildLength(text: string, rs: seq<Range>)
    requires Descending(rs, |text|)
    ensures |Rebuild(text, rs)| == |text| - MatchedLength(rs) + ReplacementLength(rs)
    decreases |rs|
  {
    if rs != [] {
      RebuildLength(text[..rs[0].start], rs[1..]);
    }
  }

  /** Disjoint ranges with distinct ends, sorted by descending end, each lie
      wholly before the one ahead of them. */
  lemma SortByEndDescending(acc: seq<Range>, n: nat)
    requires EndsDistinct(acc) && PairwiseDisjoint(acc)
    requires forall x :: x in acc ==> x.start < x.end <= n
    ensures Descending(Sort(acc, EndRank), n)
  {
    var r := Sort(acc, EndRank);
    SortSorted(acc, EndRank);
    PermutationKeepsDistinct(acc, r);
    forall i | 0 <= i < |r|
      ensures r[i] in acc
    {
      assert r[i] in multiset(acc);
    }
    forall i, j | 0 <= i < j < |r|
      ensures r[j].end <= r[i].start
    {
      assert RankLe(EndRank(r[i]), EndRank(r[j]));
      BeforeByEnd(acc, r[i], r[j]);
    }
  }

  /** Of two disjoint ranges with distinct ends, the one ending earlier lies
      wholly before the other. */
  lemma BeforeByEnd(acc: seq<Range>, x: Range, y: Range)
    requires EndsDistinct(acc) && PairwiseDisjoint(acc)
    requires forall z :: z in acc ==> z.start < z.end
    requires x in acc && y in acc && x != y && y.end <= x.end
    ensures y.end <= x.start
  {
  }

  // ---------------------------------------------------------------------
  // applyMappings and replaceAllMappings

  /** What the corrected range construction step hands to the splice. */
  lemma CorrectedRanges(text: string, lookup: map<string, string>, keys: seq<string>)
    requires NonEmptyKeys(keys)
    requires forall i :: 0 <= i < |keys| ==> keys[i] in lookup
    ensures var rs := AcceptedRanges(IntersectionTest, text, lookup, keys);
      Descending(rs, |text|) && MatchesText(rs, text, lookup)
  {
    var acc := AcceptAll(IntersectionTest, text, lookup, keys, []);
    AcceptAllInvariants(IntersectionTest, text, lookup, keys, []);
    AcceptAllDisjoint(text, lookup, keys, []);
    SortByEndDescending(acc, |text|);
    var rs := Sort(acc, EndRank);
    assert forall x :: x in rs ==> x in multiset(acc);
  }

  /** `applyMappings` with the corrected acceptance rule. The splice cannot
      fail; the result replaces every accepted range, each an occurrence of
      a key in the original text, by that key's value, and nothing else. */
  function ApplyMappings(text: string, lookup: map<string, string>, keys: seq<string>): (r: string)
    requires NonEmptyKeys(keys)
    requires forall i :: 0 <= i < |keys| ==> keys[i] in lookup
    ensures var rs := AcceptedRanges(IntersectionTest, text, lookup, keys);
      && Descending(rs, |text|)
      && MatchesText(rs, text, lookup)
      && r == Rebuild(text, rs)
      && |r| == |text| - MatchedLength(rs) + ReplacementLength(rs)
  {
    var rs := AcceptedRanges(IntersectionTest, text, lookup, keys);
    CorrectedRanges(text, lookup, keys);
    SpliceDescending(text, rs);
    RebuildLength(text, rs);
    Splice(text, rs).value
  }

  /** Every entry has a non-empty key. */
  predicate NonEmptyEntryKeys(entries: seq<Entry>) {
    forall n :: 0 <= n < |entries| ==> entries[n].0 != ""
  }

  /** Every collected key is the key of some entry, hence non-empty. */
  lemma CollectedKeysNonEmpty(entries: seq<Entry>)
    requires NonEmptyEntryKeys(entries)
    ensures NonEmptyKeys(Collect(entries).keys)
    ensures forall k :: k in Collect(entries).keys ==> FirstIndexOfKey(entries, k) < |entries|
  {
    var c := Collect(entries);
    CollectKeys(entries);
    forall i | 0 <= i < |c.keys|
      ensures c.keys[i] != ""
    {
      assert entries[FirstIndexOfKey(entries, c.keys[i])].0 == c.keys[i];
    }
  }

  /** The collected keys, reordered. */
  function OrderedKeys(entries: seq<Entry>, order: MappingOrder, text: string): (ks: seq<string>)
    requires NonEmptyEntryKeys(entries)
    ensures NonEmptyKeys(ks)
    ensures forall i :: 0 <= i < |ks| ==> ks[i] in Collect(entries).keys
    ensures forall i :: 0 <= i < |ks| ==> ks[i] in Collect(entries).lookup
  {
    var c := Collect(entries);
    CollectedKeysNonEmpty(entries);
    var ks := ChangeOrder(order, c.keys, text);
    assert forall i :: 0 <= i < |ks| ==> ks[i] in multiset(c.keys);
    ks
  }

  /** `replaceAllMappings(text, mappings, order)` as written. */
  function ReplaceAllMappingsAsWritten(text: string, entries: seq<Entry>, order: MappingOrder): Result<string>
    requires NonEmptyEntryKeys(entries)
  {
    ApplyMappingsAsWritten(text, Collect(entries).lookup, OrderedKeys(entries, order, text))
  }

  /** `replaceAllMappings(text, mappings, order)` with the corrected
      acceptance rule. */
  function ReplaceAllMappings(text: string, entries: seq<Entry>, order: MappingOrder): string
    requires NonEmptyEntryKeys(entries)
  {
    ApplyMappings(text, Collect(entries).lookup, OrderedKeys(entries, order, text))
  }

  /** In longest-first order the code as written never throws and agrees
      with the corrected rule. */
  lemma LongestFirstAsWritten(text: string, entries: seq<Entry>)
    requires NonEmptyEntryKeys(entries)
    ensures ReplaceAllMappingsAsWritten(text, entries, LongestStringFirst)
         == Ok(ReplaceAllMappings(text, entries, LongestStringFirst))
  {
    var c := Collect(entries);
    var ks := OrderedKeys(entries, LongestStringFirst, text);
    CollectedKeysNonEmpty(entries);
    LongestFirstOrder(c.keys, text);
    AcceptAllRulesAgree(text, c.lookup, ks, []);
    CorrectedRanges(text, c.lookup, ks);
    SpliceDescending(text, AcceptedRanges(IntersectionTest, text, c.lookup, ks));
  }

  /** Keys that do not occur in the text add no ranges. */
  lemma {:induction false} AcceptAllAbsent(rule: AcceptRule, text: string, lookup: map<string, string>,
                                           keys: seq<string>, acc: seq<Range>)
    requires NonEmptyKeys(keys)
    requires forall i :: 0 <= i < |keys| ==> keys[i] in lookup
    requires forall i :: 0 <= i < |keys| ==> IndexOf(text, keys[i]).None?
    ensures AcceptAll(rule, text, lookup, keys, acc) == acc
  {
    if keys != [] {
      assert Occurrences(text, keys[0], 0) == [];
      AcceptAllAbsent(rule, text, lookup, keys[1..], acc);
    }
  }

  /** An empty mapping, or one none of whose keys occurs in the text, leaves
      the text as it is, in every order and under either rule. */
  lemma NoOccurrenceUnchanged(text: string, entries: seq<Entry>, order: MappingOrder)
    requires NonEmptyEntryKeys(entries)
    requires forall n :: 0 <= n < |entries| ==> IndexOf(text, entries[n].0).None?
    ensures ReplaceAllMappingsAsWritten(text, entries, order) == Ok(text)
    ensures ReplaceAllMappings(text, entries, order) == text
  {
    var c := Collect(entries);
    var ks := OrderedKeys(entries, order, text);
    CollectedKeysNonEmpty(entries);
    forall i | 0 <= i < |ks|
      ensures IndexOf(text, ks[i]).None?
    {
      assert entries[FirstIndexOfKey(entries, ks[i])].0 == ks[i];
    }
    AcceptAllAbsent(EndpointTest, text, c.lookup, ks, []);
    AcceptAllAbsent(IntersectionTest, text, c.lookup, ks, []);
  }

  /** An empty mapping leaves the text as it is. */
  lemma EmptyMappingUnchanged(text: string, order: MappingOrder)
    ensures ReplaceAllMappingsAsWritten(text, [], order) == Ok(text)
    ensures ReplaceAllMappings(text, [], order) == text
  {
    NoOccurrenceUnchanged(text, [], order);
  }

  // ---------------------------------------------------------------------
  // The endpoint test in dictionary order

  /** Collecting two entries with different keys. */
  lemma CollectTwo(k1: string, v1: string, k2: string, v2: string)
    requires k1 != k2
    ensures Collect([(k1, v1), (k2, v2)]) == Collected([k1, k2], map[k1 := v1, k2 := v2])
  {
    var entries: seq<Entry> := [(k1, v1), (k2, v2)];
    assert entries[..1] == [(k1, v1)];
    assert entries[..1][..0] == [];
    assert Collect(entries[..1]) == Collected([k1], map[k1 := v1]);
  }

  /** The range construction step over two keys. */
  lemma AcceptAllTwo(rule: AcceptRule, text: string, lookup: map<string, string>, k1: string, k2: string)
    requires k1 != "" && k2 != "" && k1 in lookup && k2 in lookup
    ensures AcceptAll(rule, text, lookup, [k1, k2], [])
         == AcceptKey(rule, Occurrences(text, k2, 0), |k2|, lookup[k2],
              AcceptKey(rule, Occurrences(text, k1, 0), |k1|, lookup[k1], []))
  {
    var acc1 := AcceptKey(rule, Occurrences(text, k1, 0), |k1|, lookup[k1], []);
    var acc2 := AcceptKey(rule, Occurrences(text, k2, 0), |k2|, lookup[k2], acc1);
    assert [k1, k2][1..] == [k2];
    assert [k2][1..] == [];
    assert AcceptAll(rule, text, lookup, [k2], acc1) == AcceptAll(rule, text, lookup, [], acc2);
  }

  /** Accepting one occurrence start. */
  lemma AcceptOne(rule: AcceptRule, s: nat, len: nat, rep: string, acc: seq<Range>)
    ensures AcceptKey(rule, [s], len, rep, acc)
         == if Conflicts(rule, acc, s, s + len) then acc else acc + [Range(s, s + len, rep)]
  {
    assert [s][1..] == [];
  }

  /** The mappings of the two examples: "b" first, then the enclosing "abc". */
  function Enclosure(v1: string, v2: string): (entries: seq<Entry>)
    ensures NonEmptyEntryKeys(entries)
  {
    [("b", v1), ("abc", v2)]
  }

  /** The key list and lookup table of the two dictionary-order examples. */
  lemma EnclosureKeys(text: string, v1: string, v2: string)
    ensures OrderedKeys(Enclosure(v1, v2), Dictionary, text) == ["b", "abc"]
    ensures Collect(Enclosure(v1, v2)).lookup == map["b" := v1, "abc" := v2]
  {
    CollectTwo("b", v1, "abc", v2);
  }

  /** Where "b" and "abc" occur in the texts of the two examples. */
  lemma EnclosureOccurrences(text: string)
    requires text == "abc" || text == "abcxx"
    ensures Occurrences(text, "b", 0) == [1]
    ensures Occurrences(text, "abc", 0) == [0]
  {
    assert text[0..1] == "a" && text[1..2] == "b" && text[2..3] == "c" && text[0..3] == "abc";
    assert IndexOfFrom(text, "b", 1) == Some(1);
    assert IndexOfFrom(text, "b", 0) == Some(1);
    if text == "abcxx" {
      assert text[3..4] == "x" && text[4..5] == "x";
      assert IndexOfFrom(text, "b", 5) == None;
      assert IndexOfFrom(text, "b", 4) == None;
      assert IndexOfFrom(text, "b", 3) == None;
    } else {
      assert IndexOfFrom(text, "b", 3) == None;
    }
    assert IndexOfFrom(text, "b", 2) == None;
    assert IndexOfFrom(text, "abc", 0) == Some(0);
    assert IndexOfFrom(text, "abc", 3) == None;
  }

  /** In both examples the endpoint test accepts "b" at [1, 2) and then the
      enclosing "abc" at [0, 3). */
  lemma EnclosureAcceptedAsWritten(text: string, v1: string, v2: string)
    requires text == "abc" || text == "abcxx"
    ensures AcceptAll(EndpointTest, text, map["b" := v1, "abc" := v2], ["b", "abc"], [])
         == [Range(1, 2, v1), Range(0, 3, v2)]
  {
    var lookup := map["b" := v1, "abc" := v2];
    var rb := Range(1, 2, v1);
    assert AcceptKey(EndpointTest, [1], 1, v1, []) == [rb] by {
      assert !Covered([], 1);
      AcceptOne(EndpointTest, 1, 1, v1, []);
    }
    assert AcceptKey(EndpointTest, [0], 3, v2, [rb]) == [rb, Range(0, 3, v2)] by {
      assert !Covered([rb], 0) && !Covered([rb], 2);
      AcceptOne(EndpointTest, 0, 3, v2, [rb]);
    }
    assert |"b"| == 1 && |"abc"| == 3 && lookup["b"] == v1 && lookup["abc"] == v2;
    EnclosureOccurrences(text);
    AcceptAllTwo(EndpointTest, text, lookup, "b", "abc");
  }

  /** The intersection test rejects the enclosing range. */
  lemma EnclosureAcceptedCorrected(text: string, v1: string, v2: string)
    requires text == "abc" || text == "abcxx"
    ensures AcceptAll(IntersectionTest, text, map["b" := v1, "abc" := v2], ["b", "abc"], [])
         == [Range(1, 2, v1)]
  {
    var lookup := map["b" := v1, "abc" := v2];
    var rb := Range(1, 2, v1);
    assert AcceptKey(IntersectionTest, [1], 1, v1, []) == [rb] by {
      assert !Intersects([], 1, 2);
      AcceptOne(IntersectionTest, 1, 1, v1, []);
    }
    assert AcceptKey(IntersectionTest, [0], 3, v2, [rb]) == [rb] by {
      assert rb in [rb];
      assert Intersects([rb], 0, 3);
      AcceptOne(IntersectionTest, 0, 3, v2, [rb]);
    }
    assert |"b"| == 1 && |"abc"| == 3 && lookup["b"] == v1 && lookup["abc"] == v2;
    EnclosureOccurrences(text);
    AcceptAllTwo(IntersectionTest, text, lookup, "b", "abc");
  }

  /** The splice order of the accepted ranges in both examples. */
  lemma EnclosureRanges(text: string, v1: string, v2: string)
    requires text == "abc" || text == "abcxx"
    ensures var lookup := map["b" := v1, "abc" := v2];
      && AcceptedRanges(EndpointTest, text, lookup, ["b", "abc"]) == [Range(0, 3, v2), Range(1, 2, v1)]
      && AcceptedRanges(IntersectionTest, text, lookup, ["b", "abc"]) == [Range(1, 2, v1)]
  {
    var rb := Range(1, 2, v1);
    var rabc := Range(0, 3, v2);
    EnclosureAcceptedAsWritten(text, v1, v2);
    EnclosureAcceptedCorrected(text, v1, v2);
    SortTwo(rb, rabc, EndRank);
    assert [rb][1..] == [];
  }

  /** The splices of the two examples. */
  lemma EnclosureSplices()
    ensures Splice("abc", [Range(0, 3, ""), Range(1, 2, "X")]) == Err(StringIndexOutOfBounds)
    ensures Splice("abc", [Range(1, 2, "X")]) == Ok("aXc")
    ensures Splice("abcxx", [Range(0, 3, "QQQQ"), Range(1, 2, "")]) == Ok("QQQxx")
    ensures Splice("abcxx", [Range(1, 2, "")]) == Ok("acxx")
  {
    assert "abc"[0..0] == "" && "abc"[3..3] == "";
    assert [Range(0, 3, ""), Range(1, 2, "X")][1..] == [Range(1, 2, "X")];
    assert "abc"[0..1] == "a" && "abc"[2..3] == "c";
    assert "a" + "X" + "c" == "aXc";
    assert "abcxx"[0..0] == "" && "abcxx"[3..5] == "xx";
    assert "" + "QQQQ" + "xx" == "QQQQxx";
    assert [Range(0, 3, "QQQQ"), Range(1, 2, "")][1..] == [Range(1, 2, "")];
    assert "QQQQxx"[0..1] == "Q" && "QQQQxx"[2..6] == "QQxx";
    assert "Q" + "" + "QQxx" == "QQQxx";
    assert "abcxx"[0..1] == "a" && "abcxx"[2..5] == "cxx";
    assert "a" + "" + "cxx" == "acxx";
  }

  /** Dictionary order, text "abc", mapping b -> X then abc -> "": the range
      [0, 3) of "abc" encloses the accepted [1, 2) of "b" without covering
      either of its own endpoints, so both are accepted. The splice of [0, 3)
      leaves the empty text, and cutting [1, 2) out of it throws. */
  lemma EnclosureThrows()
    ensures ReplaceAllMappingsAsWritten("abc", Enclosure("X", ""), Dictionary) == Err(StringIndexOutOfBounds)
    ensures ReplaceAllMappings("abc", Enclosure("X", ""), Dictionary) == "aXc"
  {
    EnclosureSplices();
    EnclosureKeys("abc", "X", "");
    EnclosureRanges("abc", "X", "");
  }

  /** Dictionary order, text "abcxx", mapping b -> "" then abc -> QQQQ: the
      same enclosure does not throw here but deletes a character of the
      inserted QQQQ instead of the "b" of the original text. */
  lemma EnclosureCorrupts()
    ensures ReplaceAllMappingsAsWritten("abcxx", Enclosure("", "QQQQ"), Dictionary) == Ok("QQQxx")
    ensures ReplaceAllMappings("abcxx", Enclosure("", "QQQQ"), Dictionary) == "acxx"
  {
    EnclosureSplices();
    EnclosureKeys("abcxx", "", "QQQQ");
    EnclosureRanges("abcxx", "", "QQQQ");
  }

  // ---------------------------------------------------------------------
  // joinStrings

  /** `joinStrings(list, separator)`: the `StringBuilder` loop that appends
      the separator before every item but the first. */
  method JoinStrings(items: seq<string>, separator: string) returns (r: string)
    ensures r == Join(items, separator)
  {
    r := "";
    var first := true;
    for i := 0 to |items|
      invariant first <==> i == 0
      invariant r == Join(items[..i], separator)
    {
      if first {
        first := false;
      } else {
        r := r + separator;
      }
      r := r + items[i];
      assert items[..i + 1] == items[..i] + [items[i]];
      if i > 0 {
        JoinSnoc(items[..i], items[i], separator);
      }
    }
    assert items[..|items|] == items;
  }
}
