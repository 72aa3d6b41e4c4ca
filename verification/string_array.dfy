/**
 * `Array.toStringArray` of the iOS component kit: a list coming from the
 * Scheme interpreter, whose first element is the `*list*` header symbol,
 * becomes an array of strings. Each element carries the text
 * `String(describing:)` gives for it.
 */
module StringArray {
  import opened Wrappers

  /** An element of the source array: a `String`, an `SCMSymbol`, or any
      other value. */
  datatype Elem = Str(s: string) | Symbol(description: string) | Other(description: string)

  /** The string an element is copied as: a string itself, anything else
      its description. */
  function Text(e: Elem): string {
    match e
    case Str(s) => s
    case Symbol(d) => d
    case Other(d) => d
  }

  /** Every element copied as its string, in order. */
  function Texts(xs: seq<Elem>): (r: seq<string>)
    ensures |r| == |xs|
    ensures forall i :: 0 <= i < |xs| ==> r[i] == Text(xs[i])
  {
    seq(|xs|, i requires 0 <= i < |xs| => Text(xs[i]))
  }

  /** The position of the first symbol, if there is one. */
  function FirstSymbol(xs: seq<Elem>): (r: Option<nat>)
    ensures r.Some? ==> r.value < |xs| && xs[r.value].Symbol?
    ensures r.Some? ==> forall j :: 0 <= j < r.value ==> !xs[j].Symbol?
    ensures r.None? <==> forall j :: 0 <= j < |xs| ==> !xs[j].Symbol?
  {
    if xs == [] then None
    else if xs[0].Symbol? then Some(0)
    else
      match FirstSymbol(xs[1..])
      case None => None
      case Some(k) => Some(k + 1)
  }

  /** The array `toStringArray` returns: every element's string, except the
      first symbol's, wherever it stands. */
  function SkipFirstSymbol(xs: seq<Elem>): seq<string> {
    match FirstSymbol(xs)
    case None => Texts(xs)
    case Some(k) => Texts(xs[..k] + xs[k + 1..])
  }

  /** `toStringArray` as written: the flag `first` is cleared only when a
      symbol is skipped, so it skips the first symbol in the array. */
  method ToStringArray(xs: seq<Elem>) returns (copy: seq<string>)
    ensures FirstSymbol(xs).None? ==> copy == Texts(xs)
    ensures FirstSymbol(xs).Some? ==>
      var k := FirstSymbol(xs).value;
      copy == Texts(xs[..k]) + Texts(xs[k + 1..])
  {
    copy := [];
    var first := true;
    for i := 0 to |xs|
      invariant first ==> forall j :: 0 <= j < i ==> !xs[j].Symbol?
      invariant !first ==> FirstSymbol(xs).Some? && FirstSymbol(xs).value < i
      invariant first ==> copy == Texts(xs[..i])
      invariant !first ==>
        var k := FirstSymbol(xs).value;
        copy == Texts(xs[..k]) + Texts(xs[k + 1..i])
    {
      if first && xs[i].Symbol? {
        first := false;
        FirstSymbolAt(xs, i);
        assert xs[i + 1..i + 1] == [];
      } else {
        var t := if xs[i].Str? then xs[i].s else Text(xs[i]);
        assert t == Text(xs[i]);
        if first {
          CopyPrefixStep(xs, i, copy);
        } else {
          CopyAfterStep(xs, FirstSymbol(xs).value, i, copy);
        }
        copy := copy + [t];
      }
    }
    assert xs[..|xs|] == xs;
  }

  /** Copying one more element appends its string. */
  lemma TextsSnoc(xs: seq<Elem>, a: nat, b: nat)
    requires a <= b < |xs|
    ensures Texts(xs[a..b + 1]) == Texts(xs[a..b]) + [Text(xs[b])]
  {
  }

  /** One more step of the copy before any symbol. */
  lemma CopyPrefixStep(xs: seq<Elem>, i: nat, copy: seq<string>)
    requires i < |xs| && copy == Texts(xs[..i])
    ensures copy + [Text(xs[i])] == Texts(xs[..i + 1])
  {
    assert xs[..i + 1] == xs[0..i + 1] && xs[..i] == xs[0..i];
    TextsSnoc(xs, 0, i);
  }

  /** One more step of the copy after the skipped symbol at `k`. */
  lemma CopyAfterStep(xs: seq<Elem>, k: nat, i: nat, copy: seq<string>)
    requires k < i < |xs| && copy == Texts(xs[..k]) + Texts(xs[k + 1..i])
    ensures copy + [Text(xs[i])] == Texts(xs[..k]) + Texts(xs[k + 1..i + 1])
  {
    TextsSnoc(xs, k + 1, i);
  }

  /** A symbol with no symbol before it is the first symbol. */
  lemma FirstSymbolAt(xs: seq<Elem>, i: nat)
    requires i < |xs| && xs[i].Symbol?
    requires forall j :: 0 <= j < i ==> !xs[j].Symbol?
    ensures FirstSymbol(xs) == Some(i)
  {
    var r := FirstSymbol(xs);
    assert r.Some?;
  }

  /** `toStringArray` agrees with the reference: all strings but the first
      symbol's. */
  method ToStringArrayIsSkipFirstSymbol(xs: seq<Elem>) returns (copy: seq<string>)
    ensures copy == SkipFirstSymbol(xs)
  {
    copy := ToStringArray(xs);
    if FirstSymbol(xs).Some? {
      var k := FirstSymbol(xs).value;
      assert Texts(xs[..k] + xs[k + 1..]) == Texts(xs[..k]) + Texts(xs[k + 1..]);
    }
  }

  /** A leading header symbol is left out, and everything after it copied. */
  lemma HeaderOmitted(xs: seq<Elem>)
    requires |xs| > 0 && xs[0].Symbol?
    ensures SkipFirstSymbol(xs) == Texts(xs[1..])
  {
    assert xs[..0] + xs[1..] == xs[1..];
  }

  /** At most one element is dropped, and one is dropped exactly when the
      array holds a symbol. */
  lemma AtMostOneDropped(xs: seq<Elem>)
    ensures |SkipFirstSymbol(xs)| == |xs| || |SkipFirstSymbol(xs)| == |xs| - 1
    ensures |SkipFirstSymbol(xs)| == |xs| - 1 <==> exists j :: 0 <= j < |xs| && xs[j].Symbol?
  {
  }

  /** Every kept element is copied as its string, and the kept elements keep
      their order: element `i` before the dropped one is at `i`, element `i`
      after it at `i - 1`. */
  lemma KeptInOrder(xs: seq<Elem>, i: nat)
    requires i < |xs|
    ensures FirstSymbol(xs).None? ==> SkipFirstSymbol(xs)[i] == Text(xs[i])
    ensures FirstSymbol(xs).Some? && i < FirstSymbol(xs).value ==> SkipFirstSymbol(xs)[i] == Text(xs[i])
    ensures FirstSymbol(xs).Some? && i > FirstSymbol(xs).value ==> SkipFirstSymbol(xs)[i - 1] == Text(xs[i])
    ensures xs[i].Str? ==> Text(xs[i]) == xs[i].s
  {
    if FirstSymbol(xs).Some? {
      var k := FirstSymbol(xs).value;
      var ys := xs[..k] + xs[k + 1..];
      if i < k {
        assert ys[i] == xs[i];
      } else if i > k {
        assert ys[i - 1] == xs[i];
      }
    }
  }

  /** An array of strings only is copied as it is. */
  lemma AllStringsCopied(xs: seq<Elem>)
    requires forall j :: 0 <= j < |xs| ==> xs[j].Str?
    ensures SkipFirstSymbol(xs) == seq(|xs|, j requires 0 <= j < |xs| => xs[j].s)
  {
  }

  /** Without a header, a later symbol is lost: ["a", b] with `b` a symbol
      becomes ["a"]. */
  lemma LaterSymbolDropped()
    ensures SkipFirstSymbol([Str("a"), Symbol("b")]) == ["a"]
  {
    var xs := [Str("a"), Symbol("b")];
    assert FirstSymbol(xs) == Some(1) by {
      FirstSymbolAt(xs, 1);
    }
    assert xs[..1] + xs[2..] == [Str("a")];
  }

  /** The conversion the header comment describes: the `*list*` header, a
      symbol at position 0, is skipped, and every other element copied. */
  function SkipHeader(xs: seq<Elem>): seq<string> {
    if |xs| > 0 && xs[0].Symbol? then Texts(xs[1..]) else Texts(xs)
  }

  /** Skipping the header keeps every element after position 0, symbols
      included, and agrees with `toStringArray` whenever the array starts
      with its header. */
  lemma SkipHeaderKeepsLaterSymbols(xs: seq<Elem>)
    ensures forall i :: 0 < i < |xs| ==> Text(xs[i]) in SkipHeader(xs)
    ensures |SkipHeader(xs)| == |xs| - 1 <==> |xs| > 0 && xs[0].Symbol?
    ensures |xs| > 0 && xs[0].Symbol? ==> SkipHeader(xs) == SkipFirstSymbol(xs)
  {
    forall i | 0 < i < |xs| ensures Text(xs[i]) in SkipHeader(xs) {
      if xs[0].Symbol? {
        assert SkipHeader(xs)[i - 1] == Text(xs[i]);
      } else {
        assert SkipHeader(xs)[i] == Text(xs[i]);
      }
    }
    if |xs| > 0 && xs[0].Symbol? {
      HeaderOmitted(xs);
    }
  }
}
