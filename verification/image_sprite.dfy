/**
 * The origin properties of the designer's mock `ImageSprite`: the unit
 * coordinates `u` and `v` of the sprite's origin, shown both as the two
 * properties `OriginX` and `OriginY` and as the single `MarkOrigin`
 * property, the text "(u, v)". A change to either side is passed on to the
 * other through `changeProperty`, which the model records as a list of
 * property changes. Parsing and printing a `double` are parameters.
 */
module ImageSprite {
  import opened Wrappers
  import opened JavaText

  const OriginX := "OriginX"
  const OriginY := "OriginY"
  const MarkOrigin := "MarkOrigin"

  /** Java's `text.indexOf(",")`, -1 when there is no comma. */
  function CommaIndex(text: string): (r: int)
    ensures -1 <= r < |text|
    ensures r >= 0 ==> text[r] == ',' && ',' !in text[..r]
    ensures r == -1 <==> ',' !in text
  {
    match IndexOf(text, ",")
    case None =>
      assert ',' !in text by {
        forall k | 0 <= k < |text| ensures text[k] != ',' {
          assert !OccursAt(text, ",", k);
        }
      }
      -1
    case Some(i) =>
      assert OccursAt(text, ",", i);
      assert ',' !in text[..i] by {
        forall k | 0 <= k < i ensures text[k] != ',' {
          assert !OccursAt(text, ",", k);
        }
      }
      i
  }

  /** `getUFromOrigin`: the text from index 1 up to the first comma. It
      throws when there is no comma or the comma is the first character. */
  function GetU(text: string): (r: Result<string>)
    ensures r.Ok? <==> ',' in text && text[0] != ','
    ensures r.Ok? ==> 1 + |r.value| < |text| && text[1 + |r.value|] == ','
    ensures r.Ok? ==> r.value == text[1..1 + |r.value|] && ',' !in r.value
  {
    Substring(text, 1, CommaIndex(text))
  }

  /** `getVFromOrigin`: the text from two characters past the first comma
      up to the last character, excluded. Without a comma the search gives
      -1, and the result starts at index 1. */
  function GetV(text: string): (r: Result<string>)
    ensures var c := CommaIndex(text);
      r.Ok? <==> c + 2 <= |text| - 1
    ensures r.Ok? ==> var c := CommaIndex(text);
      r.value == text[c + 2..|text| - 1]
  {
    var c := CommaIndex(text);
    Substring(text, c + 2, |text| - 1)
  }

  /** `setOriginProperty`: the text "(u, v)" of two printed numbers. */
  function FormatOrigin(su: string, sv: string): string {
    "(" + su + ", " + sv + ")"
  }

  /** Reading the two parts back from "(u, v)" gives the printed numbers,
      as long as the first has no comma. */
  lemma OriginRoundTrip(su: string, sv: string)
    requires ',' !in su
    ensures GetU(FormatOrigin(su, sv)) == Ok(su)
    ensures GetV(FormatOrigin(su, sv)) == Ok(sv)
  {
    var t := FormatOrigin(su, sv);
    assert t == "(" + su + ", " + sv + ")";
    assert t[1 + |su|] == ',';
    assert forall k :: 1 <= k < 1 + |su| ==> t[k] == su[k - 1];
    forall k | 0 <= k < 1 + |su| ensures t[k] != ',' {
      if k > 0 {
        assert su[k - 1] in su;
      }
    }
    FirstComma(t, 1 + |su|);
    assert t[1..1 + |su|] == su;
    assert t[1 + |su| + 2..|t| - 1] == sv;
  }

  /** The first comma of `text` is at `i`. */
  lemma FirstComma(text: string, i: nat)
    requires i < |text| && text[i] == ','
    requires forall k :: 0 <= k < i ==> text[k] != ','
    ensures CommaIndex(text) == i
  {
    var c := CommaIndex(text);
    assert text[i] in text;
    forall k | 0 <= k < c ensures text[k] != ',' {
      assert text[..c][k] == text[k];
    }
  }

  /** A text without a comma still gives a `v` part: "(1.5)" gives "1.5". */
  lemma GetVWithoutComma(text: string)
    requires ',' !in text && |text| >= 2
    ensures GetV(text) == Ok(text[1..|text| - 1])
  {
  }

  /** The mock's own state: the unit coordinates of the origin. */
  datatype Origin<D> = Origin(u: D, v: D)

  /** One `changeProperty` call: the property and its new text. */
  datatype Change = Change(name: string, value: string)

  /** What `onPropertyChange` leaves behind: the new origin, the property
      changes it made, in order, and the exception it ended with, if any. */
  datatype Outcome<D> = Outcome(origin: Origin<D>, changes: seq<Change>, thrown: Option<Error>)

  /** `setUProperty` and `setVProperty`: an unparseable text leaves the
      number as it was. */
  function ParseOr<D>(parse: string -> Option<D>, text: string, current: D): D {
    match parse(text)
    case Some(x) => x
    case None => current
  }

  /** The origin branches of `onPropertyChange`. A new `OriginX` or
      `OriginY` updates its number and rewrites `MarkOrigin` from both; a
      new `MarkOrigin` sets `OriginX` and then `OriginY` from its parts,
      stopping at the first part that throws. Every other property leaves
      the origin alone. */
  function OnPropertyChange<D>(o: Origin<D>, name: string, value: string,
                               parse: string -> Option<D>, show: D -> string): (r: Outcome<D>)
    ensures name == OriginX ==>
      r.thrown.None? && r.origin.v == o.v && r.origin.u == ParseOr(parse, value, o.u)
      && r.changes == [Change(MarkOrigin, FormatOrigin(show(r.origin.u), show(o.v)))]
    ensures name == OriginY ==>
      r.thrown.None? && r.origin.u == o.u && r.origin.v == ParseOr(parse, value, o.v)
      && r.changes == [Change(MarkOrigin, FormatOrigin(show(o.u), show(r.origin.v)))]
    ensures name == MarkOrigin ==> r.origin == o
    ensures name == MarkOrigin && GetU(value).Err? ==> r.changes == [] && r.thrown.Some?
    ensures name == MarkOrigin && GetU(value).Ok? ==>
      |r.changes| >= 1 && r.changes[0] == Change(OriginX, GetU(value).value)
      && (r.thrown.None? <==> GetV(value).Ok?)
      && (GetV(value).Ok? ==> r.changes == [Change(OriginX, GetU(value).value), Change(OriginY, GetV(value).value)])
    ensures name != OriginX && name != OriginY && name != MarkOrigin ==> r == Outcome(o, [], None)
  {
    if name == OriginX then
      var u := ParseOr(parse, value, o.u);
      Outcome(o.(u := u), [Change(MarkOrigin, FormatOrigin(show(u), show(o.v)))], None)
    else if name == OriginY then
      var v := ParseOr(parse, value, o.v);
      Outcome(o.(v := v), [Change(MarkOrigin, FormatOrigin(show(o.u), show(v)))], None)
    else if name == MarkOrigin then
      match GetU(value)
      case Err(e) => Outcome(o, [], Some(e))
      case Ok(su) =>
        match GetV(value)
        case Err(e) => Outcome(o, [Change(OriginX, su)], Some(e))
        case Ok(sv) => Outcome(o, [Change(OriginX, su), Change(OriginY, sv)], None)
    else Outcome(o, [], None)
  }

  /** After a new `OriginX` or `OriginY`, the `MarkOrigin` text it writes
      reads back as the printed `u` and `v`: setting it hands both numbers'
      texts back to `OriginX` and `OriginY`, without an exception. */
  lemma OriginPropagates<D>(o: Origin<D>, name: string, value: string,
                            parse: string -> Option<D>, show: D -> string)
    requires name == OriginX || name == OriginY
    requires forall x :: ',' !in show(x)
    ensures var first := OnPropertyChange(o, name, value, parse, show);
      var back := OnPropertyChange(first.origin, MarkOrigin, first.changes[0].value, parse, show);
      back.thrown.None? && back.origin == first.origin
      && back.changes == [Change(OriginX, show(first.origin.u)), Change(OriginY, show(first.origin.v))]
  {
    var first := OnPropertyChange(o, name, value, parse, show);
    OriginRoundTrip(show(first.origin.u), show(first.origin.v));
  }

  /** Setting `MarkOrigin` to "(su, sv)" hands `su` to `OriginX` and `sv` to
      `OriginY`. */
  lemma MarkOriginSplits<D>(o: Origin<D>, su: string, sv: string,
                            parse: string -> Option<D>, show: D -> string)
    requires ',' !in su
    ensures OnPropertyChange(o, MarkOrigin, FormatOrigin(su, sv), parse, show)
         == Outcome(o, [Change(OriginX, su), Change(OriginY, sv)], None)
  {
    OriginRoundTrip(su, sv);
  }
}
