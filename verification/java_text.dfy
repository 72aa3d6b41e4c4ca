/**
 * The handful of Java (and Python) string primitives the modelled code leans
 * on, each defined once: literal search, literal replace-all, join.
 * Strings are sequences of `char`, and an index counts characters. A Java
 * `char` is a UTF-16 code unit, so a character outside the Basic
 * Multilingual Plane counts once here but twice in Java; indices and
 * `substring` bounds agree with Java only on text without such characters.
 */
module JavaText {
  import opened Wrappers

  /** `pat` occurs in `s` starting at index `i`. */
  predicate OccursAt(s: string, pat: string, i: int) {
    0 <= i && i + |pat| <= |s| && s[i..i + |pat|] == pat
  }

  /** Java's `s.indexOf(pat, from)` for a non-empty `pat`: the least index at
      or after `from` where `pat` occurs, `None` standing for -1. */
  function IndexOfFrom(s: string, pat: string, from: nat): (r: Option<nat>)
    requires |pat| > 0
    ensures r.Some? ==> from <= r.value && OccursAt(s, pat, r.value)
    ensures r.Some? ==> forall j :: from <= j < r.value ==> !OccursAt(s, pat, j)
    ensures r.None? ==> forall j :: from <= j ==> !OccursAt(s, pat, j)
    decreases |s| - from
  {
    if from + |pat| > |s| then None
    else if s[from..from + |pat|] == pat then Some(from)
    else IndexOfFrom(s, pat, from + 1)
  }

  /** Java's `s.indexOf(pat)`. */
  function IndexOf(s: string, pat: string): Option<nat>
    requires |pat| > 0
  {
    IndexOfFrom(s, pat, 0)
  }

  /** Java's `s.lastIndexOf(c)`, `None` standing for -1. */
  function LastIndexOf(s: string, c: char): (r: Option<nat>)
    ensures r.Some? ==> r.value < |s| && s[r.value] == c
    ensures r.Some? ==> forall j :: r.value < j < |s| ==> s[j] != c
    ensures r.None? ==> c !in s
  {
    if |s| == 0 then None
    else if s[|s| - 1] == c then Some(|s| - 1)
    else LastIndexOf(s[..|s| - 1], c)
  }

  /** Java's `s.substring(begin, end)`, which throws unless
      0 <= begin <= end <= length. */
  function Substring(s: string, begin: int, end: int): Result<string> {
    if 0 <= begin <= end <= |s| then Ok(s[begin..end]) else Err(StringIndexOutOfBounds)
  }

  /** Replaces every occurrence of the literal `pat`, scanning left to right
      and never letting two replaced occurrences overlap: Java's
      `String.replace`, Java's `replaceAll` for a pattern without regular
      expression metacharacters, and Python's `str.replace`. */
  function ReplaceAll(s: string, pat: string, rep: string): string
    requires |pat| > 0
    decreases |s|
  {
    if |s| < |pat| then s
    else if s[..|pat|] == pat then rep + ReplaceAll(s[|pat|..], pat, rep)
    else [s[0]] + ReplaceAll(s[1..], pat, rep)
  }

  /** Java's `replaceFirst` for a pattern without metacharacters. */
  function ReplaceFirst(s: string, pat: string, rep: string): string
    requires |pat| > 0
  {
    match IndexOf(s, pat)
    case None => s
    case Some(i) => s[..i] + rep + s[i + |pat|..]
  }

  /** Every character `c` of `s` replaced by `rep`, every other character kept. */
  function MapChar(s: string, c: char, rep: string): string {
    if |s| == 0 then []
    else (if s[0] == c then rep else [s[0]]) + MapChar(s[1..], c, rep)
  }

  /** `s` with every `a` that is immediately followed by a `b` deleted. */
  function DropBefore(s: string, a: char, b: char): string {
    if |s| == 0 then []
    else if |s| >= 2 && s[0] == a && s[1] == b then DropBefore(s[1..], a, b)
    else [s[0]] + DropBefore(s[1..], a, b)
  }

  /** Replacing a single character is a character-wise map. */
  lemma {:induction false} ReplaceCharIsMapChar(s: string, c: char, rep: string)
    ensures ReplaceAll(s, [c], rep) == MapChar(s, c, rep)
    decreases |s|
  {
    if |s| >= 1 {
      ReplaceCharIsMapChar(s[1..], c, rep);
      assert s[..1] == [c] <==> s[0] == c;
    }
  }

  /** Replacing the pair `ab` by `b` (with a != b) deletes each `a` standing
      right before a `b`. */
  lemma {:induction false} ReplacePairIsDropBefore(s: string, a: char, b: char)
    requires a != b
    ensures ReplaceAll(s, [a, b], [b]) == DropBefore(s, a, b)
    decreases |s|
  {
    if |s| >= 2 {
      if s[..2] == [a, b] {
        ReplacePairIsDropBefore(s[2..], a, b);
        assert s[1..][1..] == s[2..];
        assert DropBefore(s[1..], a, b) == [b] + DropBefore(s[2..], a, b);
      } else {
        ReplacePairIsDropBefore(s[1..], a, b);
        assert !(s[0] == a && s[1] == b);
      }
    } else if |s| == 1 {
      assert DropBefore(s, a, b) == [s[0]] + DropBefore(s[1..], a, b);
      assert s == [s[0]];
    }
  }

  /** An occurrence in the tail is an occurrence one further on. */
  lemma OccursShift(s: string, pat: string, j: int)
    requires |s| > 0
    ensures OccursAt(s[1..], pat, j) ==> OccursAt(s, pat, j + 1)
  {
    if 0 <= j && j + |pat| <= |s[1..]| {
      assert s[1..][j..j + |pat|] == s[j + 1..j + 1 + |pat|];
    }
  }

  /** Without an occurrence of the pattern, replacement changes nothing. */
  lemma {:induction false} ReplaceAllAbsent(s: string, pat: string, rep: string)
    requires |pat| > 0
    requires forall j :: !OccursAt(s, pat, j)
    ensures ReplaceAll(s, pat, rep) == s
    decreases |s|
  {
    if |s| >= |pat| {
      assert !OccursAt(s, pat, 0);
      forall j ensures !OccursAt(s[1..], pat, j) {
        OccursShift(s, pat, j);
      }
      ReplaceAllAbsent(s[1..], pat, rep);
    }
  }

  /** Mapping a character distributes over concatenation. */
  lemma {:induction false} MapCharAppend(a: string, b: string, c: char, rep: string)
    ensures MapChar(a + b, c, rep) == MapChar(a, c, rep) + MapChar(b, c, rep)
    decreases |a|
  {
    if |a| > 0 {
      MapCharAppend(a[1..], b, c, rep);
      assert (a + b)[1..] == a[1..] + b;
    } else {
      assert a + b == b;
    }
  }

  /** A string without `c` is left as it is. */
  lemma {:induction false} MapCharNone(s: string, c: char, rep: string)
    requires c !in s
    ensures MapChar(s, c, rep) == s
    decreases |s|
  {
    if |s| > 0 {
      assert c !in s[1..];
      MapCharNone(s[1..], c, rep);
      assert s == [s[0]] + s[1..];
    }
  }

  /** A string without `a` loses nothing to `DropBefore`. */
  lemma {:induction false} DropBeforeNone(s: string, a: char, b: char)
    requires a !in s
    ensures DropBefore(s, a, b) == s
    decreases |s|
  {
    if |s| > 0 {
      assert a !in s[1..];
      DropBeforeNone(s[1..], a, b);
      assert s == [s[0]] + s[1..];
    }
  }

  /** A string without `b` loses nothing to `DropBefore`. */
  lemma {:induction false} DropBeforeNoTarget(s: string, a: char, b: char)
    requires b !in s
    ensures DropBefore(s, a, b) == s
    decreases |s|
  {
    if |s| > 0 {
      assert b !in s[1..];
      DropBeforeNoTarget(s[1..], a, b);
      assert s == [s[0]] + s[1..];
    }
  }

  /** Every `x` in `s` has an `a` right before it. */
  predicate PrecededBy(s: string, x: char, a: char) {
    forall i {:trigger s[i]} :: 0 <= i < |s| && s[i] == x ==> 0 < i && s[i - 1] == a
  }

  /** `PrecededBy` read with an explicit predecessor `prev` for index 0. */
  predicate PrecededFrom(s: string, x: char, a: char, prev: char) {
    forall i {:trigger s[i]} :: 0 <= i < |s| && s[i] == x ==> (if i == 0 then prev else s[i - 1]) == a
  }

  /** With a predecessor other than `a`, the two readings agree. */
  lemma PrecededFromBy(s: string, x: char, a: char, prev: char)
    requires prev != a
    requires PrecededFrom(s, x, a, prev)
    ensures PrecededBy(s, x, a)
  {
    forall i | 0 <= i < |s| && s[i] == x ensures 0 < i && s[i - 1] == a {
      assert (if i == 0 then prev else s[i - 1]) == a;
    }
  }

  /** Dropping the first character keeps the rule, with that character as
      the new predecessor. */
  lemma PrecededFromTail(s: string, x: char, a: char, prev: char)
    requires |s| > 0
    requires PrecededFrom(s, x, a, prev)
    ensures PrecededFrom(s[1..], x, a, s[0])
  {
    forall i | 0 <= i < |s[1..]| && s[1..][i] == x
      ensures (if i == 0 then s[0] else s[1..][i - 1]) == a
    {
      assert s[i + 1] == x;
    }
  }

  /** When `s` does not start with `x`, the predecessor of index 0 is irrelevant. */
  lemma PrecededFromAnyPrev(s: string, x: char, a: char, p: char, q: char)
    requires |s| == 0 || s[0] != x
    requires PrecededFrom(s, x, a, p)
    ensures PrecededFrom(s, x, a, q)
  {
  }

  /** Mapping `x` to `[a, x]` puts an `a` before every `x`. */
  lemma {:induction false} MapCharEstablishes(s: string, x: char, a: char, prev: char)
    requires x != a
    ensures PrecededFrom(MapChar(s, x, [a, x]), x, a, prev)
    decreases |s|
  {
    if |s| > 0 {
      var head := if s[0] == x then [a, x] else [s[0]];
      var tail := MapChar(s[1..], x, [a, x]);
      var r := MapChar(s, x, [a, x]);
      assert r == head + tail;
      MapCharEstablishes(s[1..], x, a, head[|head| - 1]);
      forall i | 0 <= i < |r| && r[i] == x
        ensures (if i == 0 then prev else r[i - 1]) == a
      {
        if i >= |head| {
          var k := i - |head|;
          assert r[i] == tail[k];
          if k > 0 {
            assert r[i - 1] == tail[k - 1];
          }
        } else {
          assert r[i] == head[i];
        }
      }
    }
  }

  /** Mapping a character `c` (neither `x` nor `a`) to text without `x`
      keeps every `x` next to the `a` before it. */
  lemma {:induction false} MapCharPreserves(s: string, c: char, rep: string, x: char, a: char, prev: char)
    requires c != x && c != a && x !in rep
    requires PrecededFrom(s, x, a, prev)
    ensures PrecededFrom(MapChar(s, c, rep), x, a, prev)
    decreases |s|
  {
    if |s| > 0 {
      var head := if s[0] == c then rep else [s[0]];
      var tail := MapChar(s[1..], c, rep);
      var r := MapChar(s, c, rep);
      assert r == head + tail;
      var prev' := if |head| > 0 then head[|head| - 1] else prev;
      PrecededFromTail(s, x, a, prev);
      if s[0] == c {
        if |s| > 1 {
          assert s[1] != x;
        }
        PrecededFromAnyPrev(s[1..], x, a, s[0], prev');
      }
      MapCharPreserves(s[1..], c, rep, x, a, prev');
      forall i | 0 <= i < |r| && r[i] == x
        ensures (if i == 0 then prev else r[i - 1]) == a
      {
        if i >= |head| {
          var k := i - |head|;
          assert r[i] == tail[k];
          if k == 0 {
            if i > 0 {
              assert r[i - 1] == head[|head| - 1];
            }
          } else {
            assert r[i - 1] == tail[k - 1];
          }
        } else {
          assert r[i] == head[i];
          assert s[0] != c;
          assert i == 0 && s[0] == x;
        }
      }
    }
  }

  /** Deleting each `a` that stands before a `b` never separates an `x`
      (different from both) from the `a` before it. */
  lemma {:induction false} DropBeforePreserves(s: string, a: char, b: char, x: char, prev: char)
    requires x != a && x != b && a != b
    requires PrecededFrom(s, x, a, prev)
    ensures PrecededFrom(DropBefore(s, a, b), x, a, prev)
    decreases |s|
  {
    if |s| > 0 {
      PrecededFromTail(s, x, a, prev);
      if |s| >= 2 && s[0] == a && s[1] == b {
        PrecededFromAnyPrev(s[1..], x, a, s[0], prev);
        DropBeforePreserves(s[1..], a, b, x, prev);
      } else {
        DropBeforePreserves(s[1..], a, b, x, s[0]);
        var r := DropBefore(s, a, b);
        var tail := DropBefore(s[1..], a, b);
        assert r == [s[0]] + tail;
        forall i | 0 <= i < |r| && r[i] == x
          ensures (if i == 0 then prev else r[i - 1]) == a
        {
          if i > 0 {
            assert r[i] == tail[i - 1];
            if i - 1 > 0 {
              assert r[i - 1] == tail[i - 2];
            }
          } else {
            assert s[0] == x;
          }
        }
      }
    }
  }

  /** A character absent from both `s` and `rep` is absent from the result. */
  lemma {:induction false} MapCharAbsent(s: string, c: char, rep: string, d: char)
    requires d !in rep
    requires d == c || d !in s
    ensures d !in MapChar(s, c, rep)
    decreases |s|
  {
    if |s| > 0 {
      MapCharAbsent(s[1..], c, rep, d);
      assert s[0] != d || s[0] == c;
    }
  }

  /** Deleting characters never introduces one. */
  lemma {:induction false} DropBeforeAbsent(s: string, a: char, b: char, d: char)
    requires d !in s
    ensures d !in DropBefore(s, a, b)
    decreases |s|
  {
    if |s| > 0 {
      assert d !in s[1..];
      DropBeforeAbsent(s[1..], a, b, d);
    }
  }

  /** Java's `join`: the items with `sep` between consecutive ones. */
  function Join(items: seq<string>, sep: string): string {
    if |items| == 0 then ""
    else if |items| == 1 then items[0]
    else items[0] + sep + Join(items[1..], sep)
  }

  /** Putting one item in front extends the join by that item and the
      separator. */
  lemma JoinCons(x: string, rest: seq<string>, sep: string)
    requires rest != []
    ensures Join([x] + rest, sep) == x + sep + Join(rest, sep)
  {
    assert ([x] + rest)[1..] == rest;
  }

  /** Appending one item extends the join by the separator and that item. */
  lemma {:induction false} JoinSnoc(items: seq<string>, x: string, sep: string)
    requires |items| > 0
    ensures Join(items + [x], sep) == Join(items, sep) + sep + x
    decreases |items|
  {
    if |items| > 1 {
      JoinSnoc(items[1..], x, sep);
      assert (items + [x])[1..] == items[1..] + [x];
    } else {
      assert (items + [x])[1..] == [x];
    }
  }

  /** The total length of the items. */
  function TotalLength(items: seq<string>): nat {
    if items == [] then 0 else |items[0]| + TotalLength(items[1..])
  }

  /** A join holds every item and one separator between each two neighbours. */
  lemma {:induction false} JoinLength(items: seq<string>, sep: string)
    requires |items| > 0
    ensures |Join(items, sep)| == TotalLength(items) + (|items| - 1) * |sep|
    decreases |items|
  {
    if |items| > 1 {
      JoinLength(items[1..], sep);
    }
  }
}
