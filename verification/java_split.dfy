/**
 * Java's `String.split(regex)` with the default limit 0, for the delimiters
 * the modelled code uses. Java scans for the leftmost match, takes the text
 * before it as a piece, resumes after the match, and finally
 *   - returns the whole input as the only piece when nothing matched
 *     (so `"".split(x)` is `[""]`), and otherwise
 *   - drops the trailing empty pieces (so `"&".split("&")` is `[]`).
 * A match at index 0 has positive width here, so a leading empty piece is kept.
 */
module JavaSplit {
  import opened Wrappers
  import opened JavaText

  /** The delimiters split on in the modelled code. */
  datatype Delim =
    | Literal(c: char)   // a one-character pattern without metacharacters, e.g. "&" or "="
    | SpacedComma        // the pattern " *, *"

  /** The first index at or after `p` that does not hold a space. */
  function SkipSpaces(s: string, p: nat): (q: nat)
    requires p <= |s|
    ensures p <= q <= |s|
    ensures forall k :: p <= k < q ==> s[k] == ' '
    ensures q == |s| || s[q] != ' '
    decreases |s| - p
  {
    if p == |s| || s[p] != ' ' then p else SkipSpaces(s, p + 1)
  }

  /** The end of the (greedy) match of `d` that starts exactly at `p`, if
      one starts there. For " *, *" a match starts at `p` exactly when the
      run of spaces from `p` is followed by a comma; it then swallows the
      spaces after the comma too. */
  function MatchAt(s: string, p: nat, d: Delim): (e: Option<nat>)
    requires p <= |s|
    ensures e.Some? ==> p < e.value <= |s|
  {
    match d
    case Literal(c) =>
      if p < |s| && s[p] == c then Some(p + 1) else None
    case SpacedComma =>
      var q := SkipSpaces(s, p);
      if q < |s| && s[q] == ',' then Some(SkipSpaces(s, q + 1)) else None
  }

  /** The pieces of `s` from the current piece start `start`, the scan being
      at `p`: every leftmost match closes a piece and the scan resumes at its end. */
  function Pieces(s: string, d: Delim, start: nat, p: nat): (r: seq<string>)
    requires start <= p <= |s|
    ensures |r| >= 1
    decreases |s| - p
  {
    if p == |s| then [s[start..]]
    else match MatchAt(s, p, d)
      case Some(e) => [s[start..p]] + Pieces(s, d, e, e)
      case None => Pieces(s, d, start, p + 1)
  }

  /** The list without its trailing empty strings. */
  function DropTrailingEmpty(xs: seq<string>): (r: seq<string>)
    ensures |r| <= |xs| && r == xs[..|r|]
    ensures |r| == 0 || r[|r| - 1] != ""
    ensures forall k :: |r| <= k < |xs| ==> xs[k] == ""
  {
    if |xs| > 0 && xs[|xs| - 1] == "" then DropTrailingEmpty(xs[..|xs| - 1]) else xs
  }

  /** Java's `s.split(regex)`. */
  function Split(s: string, d: Delim): seq<string> {
    var raw := Pieces(s, d, 0, 0);
    if |raw| == 1 then raw else DropTrailingEmpty(raw)
  }

  /** Splitting on a character and joining back with it gives the input. */
  lemma {:induction false} JoinPieces(s: string, c: char, start: nat, p: nat)
    requires start <= p <= |s|
    ensures Join(Pieces(s, Literal(c), start, p), [c]) == s[start..]
    decreases |s| - p
  {
    if p < |s| {
      match MatchAt(s, p, Literal(c))
      case Some(e) =>
        JoinPieces(s, c, e, e);
        var rest := Pieces(s, Literal(c), e, e);
        assert ([s[start..p]] + rest)[1..] == rest;
        assert s[start..] == s[start..p] + [c] + s[e..];
      case None =>
        JoinPieces(s, c, start, p + 1);
    }
  }

  /** No piece of a split on `c` contains `c`. */
  lemma {:induction false} PiecesAvoid(s: string, d: Delim, c: char, start: nat, p: nat)
    requires start <= p <= |s|
    requires d == Literal(c) || (d == SpacedComma && c == ',')
    requires c !in s[start..p]
    ensures forall k :: 0 <= k < |Pieces(s, d, start, p)| ==> c !in Pieces(s, d, start, p)[k]
    decreases |s| - p
  {
    if p < |s| {
      match MatchAt(s, p, d)
      case Some(e) =>
        PiecesAvoid(s, d, c, e, e);
      case None =>
        assert s[p] != c by {
          if d == SpacedComma {
            assert SkipSpaces(s, p) == p || s[p] == ' ';
          }
        }
        assert s[start..p + 1] == s[start..p] + [s[p]];
        PiecesAvoid(s, d, c, start, p + 1);
    }
  }

  /** No piece of `Split(s, d)` contains the delimiter character. */
  lemma SplitAvoids(s: string, d: Delim, c: char)
    requires d == Literal(c) || (d == SpacedComma && c == ',')
    ensures forall k :: 0 <= k < |Split(s, d)| ==> c !in Split(s, d)[k]
  {
    PiecesAvoid(s, d, c, 0, 0);
  }

  /** Splitting a join of `c`-free items on `c` gives the items back. */
  lemma {:induction false} PiecesOfJoin(s: string, c: char, items: seq<string>, start: nat, p: nat)
    requires start <= p <= |s|
    requires |items| >= 1
    requires forall k :: 0 <= k < |items| ==> c !in items[k]
    requires s[p..] == Join(items, [c])
    ensures Pieces(s, Literal(c), start, p) == [s[start..p] + items[0]] + items[1..]
    decreases |s| - p
  {
    var d := Literal(c);
    if |items| == 1 {
      if p < |s| {
        assert s[p] == items[0][0];
        assert s[p + 1..] == items[0][1..];
        assert MatchAt(s, p, d) == None;
        assert c !in items[0][1..];
        PiecesOfJoin(s, c, [items[0][1..]], start, p + 1);
        assert s[start..p + 1] + items[0][1..] == s[start..p] + items[0];
      } else {
        assert items[0] == [];
        assert s[start..] == s[start..p] + items[0];
      }
    } else if items[0] == "" {
      assert s[p..] == [c] + Join(items[1..], [c]);
      assert s[p] == c;
      assert s[p + 1..] == Join(items[1..], [c]);
      assert MatchAt(s, p, d) == Some(p + 1);
      PiecesOfJoin(s, c, items[1..], p + 1, p + 1);
      assert s[p + 1..p + 1] + items[1] == items[1];
      assert items[1..] == [items[1]] + items[2..];
      assert s[start..p] + items[0] == s[start..p];
    } else {
      assert s[p..] == items[0] + [c] + Join(items[1..], [c]);
      assert s[p] == items[0][0];
      var items' := [items[0][1..]] + items[1..];
      assert s[p + 1..] == Join(items', [c]) by {
        assert s[p + 1..] == items[0][1..] + [c] + Join(items[1..], [c]);
        assert items'[1..] == items[1..];
      }
      PiecesOfJoin(s, c, items', start, p + 1);
      assert s[start..p + 1] + items[0][1..] == s[start..p] + items[0];
    }
  }

  /** Dropping trailing empties ignores one extra trailing empty string. */
  lemma DropTrailingEmptySnoc(xs: seq<string>)
    ensures DropTrailingEmpty(xs + [""]) == DropTrailingEmpty(xs)
  {
    assert (xs + [""])[..|xs|] == xs;
  }

  /** A list whose last element is non-empty has no trailing empties. */
  lemma DropTrailingEmptyNone(xs: seq<string>)
    requires |xs| > 0 && xs[|xs| - 1] != ""
    ensures DropTrailingEmpty(xs) == xs
  {
  }

  /** One trailing delimiter after a non-empty text changes nothing:
      Java drops the empty piece it would create. */
  lemma SplitTrailingDelimiter(s: string, c: char)
    requires s != ""
    ensures Split(s + [c], Literal(c)) == Split(s, Literal(c))
  {
    var d := Literal(c);
    var raw := Pieces(s, d, 0, 0);
    JoinPieces(s, c, 0, 0);
    PiecesAvoid(s, d, c, 0, 0);
    JoinSnoc(raw, "", [c]);
    var items := raw + [""];
    assert s + [c] == Join(items, [c]);
    PiecesOfJoin(s + [c], c, items, 0, 0);
    assert (s + [c])[0..0] + items[0] == items[0];
    assert [items[0]] + items[1..] == items;
    assert Pieces(s + [c], d, 0, 0) == items;
    DropTrailingEmptySnoc(raw);
    if |raw| == 1 {
      assert raw[0] == s;
    }
  }

  /** Neither starts nor ends with a space. */
  predicate Trimmed(item: string) {
    item == "" || (item[0] != ' ' && item[|item| - 1] != ' ')
  }

  /** The conditions under which a ", "-join splits back into its items;
      the first item may still start with spaces. */
  predicate SpacedJoinable(items: seq<string>) {
    && |items| >= 1
    && (forall k :: 0 <= k < |items| ==> ',' !in items[k])
    && (items[0] == "" || items[0][|items[0]| - 1] != ' ')
    && (forall k :: 1 <= k < |items| ==> Trimmed(items[k]))
  }

  /** At an empty first item the separator ", " matches, and exactly it. */
  lemma SpacedSeparatorMatches(s: string, items: seq<string>, p: nat)
    requires p <= |s| && SpacedJoinable(items)
    requires items[0] == "" && |items| >= 2
    requires s[p..] == Join(items, ", ")
    ensures p + 2 <= |s| && MatchAt(s, p, SpacedComma) == Some(p + 2)
    ensures s[p + 2..] == Join(items[1..], ", ")
    ensures SpacedJoinable(items[1..])
  {
    assert Trimmed(items[1]);
    var rest := Join(items[1..], ", ");
    assert s[p..] == ", " + rest;
    assert s[p] == ',' && s[p + 1] == ' ';
    assert s[p + 2..] == rest;
    assert SkipSpaces(s, p) == p;
    if p + 2 < |s| {
      if |items| > 2 {
        assert rest == items[1] + ", " + Join(items[2..], ", ");
      }
      assert s[p + 2] == rest[0];
      assert rest[0] != ' ';
    }
    assert SkipSpaces(s, p + 1) == p + 2;
  }

  /** Inside a non-empty first item no match starts. */
  lemma SpacedItemNoMatch(s: string, items: seq<string>, p: nat)
    requires p <= |s| && SpacedJoinable(items)
    requires items[0] != ""
    requires s[p..] == Join(items, ", ")
    ensures p < |s| && MatchAt(s, p, SpacedComma) == None
  {
    var head := items[0];
    var rest := if |items| == 1 then "" else ", " + Join(items[1..], ", ");
    assert s[p..] == head + rest;
    var last := p + |head| - 1;
    assert s[last] == head[|head| - 1];
    var q := SkipSpaces(s, p);
    assert q <= last;
    assert s[q] == head[q - p];
  }

  /** Past the first character of a non-empty first item, the rest of the
      text is the join with that character dropped. */
  lemma SpacedItemTail(s: string, items: seq<string>, p: nat)
    requires p <= |s| && SpacedJoinable(items)
    requires items[0] != ""
    requires s[p..] == Join(items, ", ")
    ensures p < |s| && s[p] == items[0][0]
    ensures s[p + 1..] == Join([items[0][1..]] + items[1..], ", ")
    ensures SpacedJoinable([items[0][1..]] + items[1..])
  {
    var head := items[0];
    var items' := [head[1..]] + items[1..];
    JoinFront(items, ", ");
    JoinFront(items', ", ");
    assert items'[0] == head[1..] && items'[1..] == items[1..];
    DropFirst(s, p, head, JoinRest(items[1..], ", "));
    assert ',' !in head[1..];
  }

  /** What follows the first item in a join. */
  function JoinRest(rest: seq<string>, sep: string): string {
    if rest == [] then "" else sep + Join(rest, sep)
  }

  lemma JoinFront(items: seq<string>, sep: string)
    requires |items| >= 1
    ensures Join(items, sep) == items[0] + JoinRest(items[1..], sep)
  {
  }

  lemma DropFirst(s: string, p: nat, head: string, rest: string)
    requires p <= |s| && head != [] && s[p..] == head + rest
    ensures p < |s| && s[p] == head[0] && s[p + 1..] == head[1..] + rest
  {
    assert s[p..][0] == head[0];
    assert s[p + 1..] == s[p..][1..];
  }

  /** One step past an empty first item: the separator closes the piece. */
  lemma SpacedEmptyHeadStep(s: string, items: seq<string>, start: nat, p: nat)
    requires start <= p <= |s| && SpacedJoinable(items)
    requires items[0] == "" && |items| >= 2
    requires s[p..] == Join(items, ", ")
    requires p + 2 <= |s|
    requires Pieces(s, SpacedComma, p + 2, p + 2) == [s[p + 2..p + 2] + items[1..][0]] + items[1..][1..]
    ensures Pieces(s, SpacedComma, start, p) == [s[start..p] + items[0]] + items[1..]
  {
    SpacedSeparatorMatches(s, items, p);
    assert s[p + 2..p + 2] + items[1] == items[1];
    assert items[1..] == [items[1]] + items[2..];
    assert s[start..p] + items[0] == s[start..p];
  }

  /** One step inside a non-empty first item: the scan moves on by one. */
  lemma SpacedItemStep(s: string, items: seq<string>, start: nat, p: nat)
    requires start <= p <= |s| && SpacedJoinable(items)
    requires items[0] != ""
    requires s[p..] == Join(items, ", ")
    requires p < |s|
    requires Pieces(s, SpacedComma, start, p + 1)
          == [s[start..p + 1] + ([items[0][1..]] + items[1..])[0]] + ([items[0][1..]] + items[1..])[1..]
    ensures Pieces(s, SpacedComma, start, p) == [s[start..p] + items[0]] + items[1..]
  {
    var items' := [items[0][1..]] + items[1..];
    SpacedItemNoMatch(s, items, p);
    SpacedItemTail(s, items, p);
    assert items'[1..] == items[1..];
    assert s[start..p + 1] + items'[0] == s[start..p] + items[0];
  }

  /** At the end of the join the last piece is what is left of the text. */
  lemma SpacedJoinEnd(s: string, items: seq<string>, start: nat, p: nat)
    requires start <= p <= |s|
    requires items == [""] && s[p..] == Join(items, ", ")
    ensures Pieces(s, SpacedComma, start, p) == [s[start..p] + items[0]] + items[1..]
  {
    assert p == |s|;
    assert s[start..] == s[start..p] + items[0];
  }

  /** Splitting on " *, *" a join with ", " of comma-free, trimmed items
      gives the items back. */
  lemma {:induction false} PiecesOfSpacedJoin(s: string, items: seq<string>, start: nat, p: nat)
    requires start <= p <= |s|
    requires SpacedJoinable(items)
    requires s[p..] == Join(items, ", ")
    ensures Pieces(s, SpacedComma, start, p) == [s[start..p] + items[0]] + items[1..]
    decreases |s| - p
  {
    if items[0] == "" && |items| == 1 {
      SpacedJoinEnd(s, items, start, p);
    } else if items[0] == "" {
      SpacedSeparatorMatches(s, items, p);
      PiecesOfSpacedJoin(s, items[1..], p + 2, p + 2);
      SpacedEmptyHeadStep(s, items, start, p);
    } else {
      SpacedItemTail(s, items, p);
      PiecesOfSpacedJoin(s, [items[0][1..]] + items[1..], start, p + 1);
      SpacedItemStep(s, items, start, p);
    }
  }

  /** Splitting a join on its one-character separator gives the items back
      when no item holds the separator and the last one is not empty. */
  lemma SplitOfJoin(items: seq<string>, c: char)
    requires |items| >= 1 && items[|items| - 1] != ""
    requires forall k :: 0 <= k < |items| ==> c !in items[k]
    ensures Split(Join(items, [c]), Literal(c)) == items
  {
    var s := Join(items, [c]);
    PiecesOfJoin(s, c, items, 0, 0);
    SplitOfPieces(s, Literal(c), items);
  }

  /** When the pieces from the start are `items`, the last one non-empty,
      the split is `items`. */
  lemma SplitOfPieces(s: string, d: Delim, items: seq<string>)
    requires |items| >= 1 && items[|items| - 1] != ""
    requires Pieces(s, d, 0, 0) == [s[0..0] + items[0]] + items[1..]
    ensures Split(s, d) == items
  {
    assert s[0..0] + items[0] == items[0];
    assert [items[0]] + items[1..] == items;
    DropTrailingEmptyNone(items);
  }

  /** Splitting on " *, *" a join with ", " gives the items back when no item
      holds a comma or starts or ends with a space, and the last is not empty. */
  lemma SplitOfSpacedJoin(items: seq<string>)
    requires |items| >= 1 && items[|items| - 1] != ""
    requires forall k :: 0 <= k < |items| ==> ',' !in items[k] && Trimmed(items[k])
    ensures Split(Join(items, ", "), SpacedComma) == items
  {
    var s := Join(items, ", ");
    assert Trimmed(items[0]);
    PiecesOfSpacedJoin(s, items, 0, 0);
    SplitOfPieces(s, SpacedComma, items);
  }
}
