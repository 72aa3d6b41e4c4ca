/**
 * The text transforms of the translation script `i18n.py`: the two
 * escaping functions `js_stringify` (a value written as a single-quoted
 * JavaScript literal) and `propescape` (a value written into a Java
 * properties file), and the per-line work of `split`, which sorts the lines
 * of a combined translation file into the designer's properties file and
 * the blocks editor's message file. Python strings are sequences of code
 * points; `str.replace` is `JavaText.ReplaceAll`.
 */
module I18n {
  import opened Wrappers
  import opened JavaText

  // ---------------------------------------------------------------------
  // Escaping

  /** `js_stringify`: collapse `''` to `'`, escape apostrophes, newlines and
      carriage returns with a backslash, unescape `\:` and `\=`, and put the
      result between apostrophes. */
  function JsStringify(text: string): (r: string)
    ensures |r| >= 2 && r[0] == '\'' && r[|r| - 1] == '\''
    ensures '\n' !in r && '\r' !in r
    ensures PrecededBy(r[1..|r| - 1], '\'', '\\')
  {
    var s1 := ReplaceAll(text, "''", "'");
    var s2 := ReplaceAll(s1, "'", "\\'");
    var s3 := ReplaceAll(s2, "\n", "\\n");
    var s4 := ReplaceAll(s3, "\r", "\\r");
    var s5 := ReplaceAll(s4, "\\:", ":");
    var s6 := ReplaceAll(s5, "\\=", "=");
    JsStringifyBody(s1);
    "'" + s6 + "'"
  }

  /** The escaping steps after the first, read as character maps and
      deletions, keep every apostrophe escaped and remove every line break. */
  lemma JsStringifyBody(s1: string)
    ensures var s6 := ReplaceAll(ReplaceAll(ReplaceAll(ReplaceAll(ReplaceAll(s1,
              "'", "\\'"), "\n", "\\n"), "\r", "\\r"), "\\:", ":"), "\\=", "=");
      '\n' !in s6 && '\r' !in s6 && PrecededBy(s6, '\'', '\\')
  {
    var s2 := MapChar(s1, '\'', "\\'");
    var s3 := MapChar(s2, '\n', "\\n");
    var s4 := MapChar(s3, '\r', "\\r");
    var s5 := DropBefore(s4, '\\', ':');
    var s6 := DropBefore(s5, '\\', '=');
    JsStringifySteps(s1);
    MapCharEstablishes(s1, '\'', '\\', ' ');
    MapCharPreserves(s2, '\n', "\\n", '\'', '\\', ' ');
    MapCharPreserves(s3, '\r', "\\r", '\'', '\\', ' ');
    DropBeforePreserves(s4, '\\', ':', '\'', ' ');
    DropBeforePreserves(s5, '\\', '=', '\'', ' ');
    PrecededFromBy(s6, '\'', '\\', ' ');
    MapCharAbsent(s2, '\n', "\\n", '\n');
    MapCharAbsent(s3, '\r', "\\r", '\n');
    MapCharAbsent(s3, '\r', "\\r", '\r');
    DropBeforeAbsent(s4, '\\', ':', '\n');
    DropBeforeAbsent(s4, '\\', ':', '\r');
    DropBeforeAbsent(s5, '\\', '=', '\n');
    DropBeforeAbsent(s5, '\\', '=', '\r');
  }

  /** The literal replacements of `js_stringify` after the first, as maps
      and deletions of single characters. */
  lemma JsStringifySteps(s1: string)
    ensures ReplaceAll(ReplaceAll(ReplaceAll(ReplaceAll(ReplaceAll(s1,
              "'", "\\'"), "\n", "\\n"), "\r", "\\r"), "\\:", ":"), "\\=", "=")
         == DropBefore(DropBefore(MapChar(MapChar(MapChar(s1,
              '\'', "\\'"), '\n', "\\n"), '\r', "\\r"), '\\', ':'), '\\', '=')
  {
    var s2 := MapChar(s1, '\'', "\\'");
    var s3 := MapChar(s2, '\n', "\\n");
    var s4 := MapChar(s3, '\r', "\\r");
    var s5 := DropBefore(s4, '\\', ':');
    ReplaceCharIsMapChar(s1, '\'', "\\'");
    ReplaceCharIsMapChar(s2, '\n', "\\n");
    ReplaceCharIsMapChar(s3, '\r', "\\r");
    ReplacePairIsDropBefore(s4, '\\', ':');
    ReplacePairIsDropBefore(s5, '\\', '=');
  }

  /** No occurrence of a character means no occurrence of a pattern that
      starts with it. */
  lemma NoOccurrence(s: string, pat: string)
    requires |pat| > 0 && pat[0] !in s
    ensures forall j :: !OccursAt(s, pat, j)
  {
    forall j ensures !OccursAt(s, pat, j) {
      if 0 <= j < |s| {
        assert s[j] in s;
      }
    }
  }

  /** For text without apostrophes or line breaks, `js_stringify` only
      deletes the backslash of each `\:` and `\=`, and quotes the result. */
  lemma JsStringifyUnescapes(text: string)
    requires '\'' !in text && '\n' !in text && '\r' !in text
    ensures JsStringify(text) == "'" + DropBefore(DropBefore(text, '\\', ':'), '\\', '=') + "'"
  {
    NoOccurrence(text, "''");
    ReplaceAllAbsent(text, "''", "'");
    JsStringifySteps(text);
    MapCharNone(text, '\'', "\\'");
    MapCharNone(text, '\n', "\\n");
    MapCharNone(text, '\r', "\\r");
  }

  /** Text without any character `js_stringify` treats specially comes out
      quoted and otherwise unchanged. */
  lemma JsStringifyPlain(text: string)
    requires '\'' !in text && '\n' !in text && '\r' !in text && '\\' !in text
    ensures JsStringify(text) == "'" + text + "'"
  {
    JsStringifyUnescapes(text);
    DropBeforeNone(text, '\\', ':');
    DropBeforeNone(text, '\\', '=');
  }

  /** A value whose apostrophes were doubled for a message format comes out
      of `js_stringify` with each of them single and escaped. */
  lemma JsStringifyOfDoubled(v: string)
    requires '\n' !in v && '\r' !in v && ':' !in v && '=' !in v
    ensures JsStringify(DoubleApostrophes(v)) == "'" + MapChar(v, '\'', "\\'") + "'"
  {
    UndoubleApostrophes(v);
    JsStringifySteps(v);
    var s2 := MapChar(v, '\'', "\\'");
    MapCharAbsent(v, '\'', "\\'", '\n');
    MapCharAbsent(v, '\'', "\\'", '\r');
    MapCharAbsent(v, '\'', "\\'", ':');
    MapCharAbsent(v, '\'', "\\'", '=');
    MapCharNone(s2, '\n', "\\n");
    MapCharNone(s2, '\r', "\\r");
    DropBeforeNoTarget(s2, '\\', ':');
    DropBeforeNoTarget(s2, '\\', '=');
  }

  /** `propescape`: unescape `\\`, `\'` and `\"`, double every apostrophe,
      and escape `:` and `=` with a backslash. */
  function PropEscape(s: string): (r: string)
    ensures PrecededBy(r, ':', '\\') && PrecededBy(r, '=', '\\')
    ensures EvenRuns(r, '\'')
  {
    var p1 := ReplaceAll(s, "\\\\", "\\");
    var p2 := ReplaceAll(p1, "\\'", "'");
    var p3 := ReplaceAll(p2, "\\\"", "\"");
    var p4 := ReplaceAll(p3, "'", "''");
    var p5 := ReplaceAll(p4, ":", "\\:");
    var p6 := ReplaceAll(p5, "=", "\\=");
    PropEscapeTail(p3);
    p6
  }

  /** The last three replacements of `propescape`: apostrophes doubled,
      colons and equals signs escaped. */
  lemma PropEscapeTail(p3: string)
    ensures var p6 := ReplaceAll(ReplaceAll(ReplaceAll(p3, "'", "''"), ":", "\\:"), "=", "\\=");
      PrecededBy(p6, ':', '\\') && PrecededBy(p6, '=', '\\') && EvenRuns(p6, '\'')
  {
    var p4 := MapChar(p3, '\'', "''");
    var p5 := MapChar(p4, ':', "\\:");
    var p6 := MapChar(p5, '=', "\\=");
    ReplaceCharIsMapChar(p3, '\'', "''");
    ReplaceCharIsMapChar(p4, ':', "\\:");
    ReplaceCharIsMapChar(p5, '=', "\\=");
    MapCharEstablishes(p4, ':', '\\', ' ');
    MapCharPreserves(p5, '=', "\\=", ':', '\\', ' ');
    MapCharEstablishes(p5, '=', '\\', ' ');
    PrecededFromBy(p6, ':', '\\', ' ');
    PrecededFromBy(p6, '=', '\\', ' ');
    DoubledEvenRuns(p3, '\'');
    MapCharKeepsEvenRuns(p4, ':', "\\:", '\'');
    MapCharKeepsEvenRuns(p5, '=', "\\=", '\'');
  }

  /** Text without any character `propescape` treats specially is left as
      it is. */
  lemma PropEscapePlain(s: string)
    requires '\\' !in s && '\'' !in s && ':' !in s && '=' !in s
    ensures PropEscape(s) == s
  {
    NoOccurrence(s, "\\\\");
    ReplaceAllAbsent(s, "\\\\", "\\");
    ReplacePairIsDropBefore(s, '\\', '\'');
    DropBeforeNone(s, '\\', '\'');
    ReplacePairIsDropBefore(s, '\\', '"');
    DropBeforeNone(s, '\\', '"');
    ReplaceCharIsMapChar(s, '\'', "''");
    MapCharNone(s, '\'', "''");
    ReplaceCharIsMapChar(s, ':', "\\:");
    MapCharNone(s, ':', "\\:");
    ReplaceCharIsMapChar(s, '=', "\\=");
    MapCharNone(s, '=', "\\=");
  }

  // ---------------------------------------------------------------------
  // Apostrophe runs

  /** Read from the left, every `c` pairs up with the `c` right after it. */
  predicate EvenRuns(s: string, c: char)
    decreases |s|
  {
    if |s| == 0 then true
    else if s[0] != c then EvenRuns(s[1..], c)
    else |s| >= 2 && s[1] == c && EvenRuns(s[2..], c)
  }

  /** `EvenRuns` means what its name says: every maximal run of `c`, from
      `i` up to `j`, has even length. */
  lemma {:induction false} EvenRunsMaximal(s: string, c: char, i: nat, j: nat)
    requires EvenRuns(s, c)
    requires i <= j <= |s|
    requires forall k :: i <= k < j ==> s[k] == c
    requires i == 0 || s[i - 1] != c
    requires j == |s| || s[j] != c
    ensures (j - i) % 2 == 0
    decreases |s|
  {
    if i < j {
      assert s[i] == c;
    }
    if |s| > 0 {
      if s[0] != c {
        if i > 0 {
          EvenRunsMaximal(s[1..], c, i - 1, j - 1);
        }
      } else if i == 0 {
        assert j != 0 && j != 1;
        EvenRunsMaximal(s[2..], c, 0, j - 2);
      } else {
        assert i >= 2;
        EvenRunsMaximal(s[2..], c, i - 2, j - 2);
      }
    }
  }

  /** Text without `c` in front of text with paired `c`s keeps them paired. */
  lemma {:induction false} EvenRunsFree(h: string, t: string, c: char)
    requires c !in h && EvenRuns(t, c)
    ensures EvenRuns(h + t, c)
    decreases |h|
  {
    if |h| > 0 {
      assert (h + t)[1..] == h[1..] + t;
      EvenRunsFree(h[1..], t, c);
    } else {
      assert h + t == t;
    }
  }

  /** Doubling every `c` pairs them all. */
  lemma {:induction false} DoubledEvenRuns(s: string, c: char)
    ensures EvenRuns(MapChar(s, c, [c, c]), c)
    decreases |s|
  {
    if |s| > 0 {
      var r := MapChar(s, c, [c, c]);
      DoubledEvenRuns(s[1..], c);
      if s[0] == c {
        assert r[2..] == MapChar(s[1..], c, [c, c]);
      } else {
        assert r[1..] == MapChar(s[1..], c, [c, c]);
      }
    }
  }

  /** Mapping another character to text without `c` keeps the pairs. */
  lemma {:induction false} MapCharKeepsEvenRuns(s: string, d: char, rep: string, c: char)
    requires d != c && c !in rep && EvenRuns(s, c)
    ensures EvenRuns(MapChar(s, d, rep), c)
    decreases |s|
  {
    if |s| > 0 {
      if s[0] != c {
        MapCharKeepsEvenRuns(s[1..], d, rep, c);
        var head := if s[0] == d then rep else [s[0]];
        EvenRunsFree(head, MapChar(s[1..], d, rep), c);
      } else {
        assert s[1..][1..] == s[2..];
        MapCharKeepsEvenRuns(s[2..], d, rep, c);
        assert MapChar(s[1..], d, rep) == [c] + MapChar(s[2..], d, rep);
        var r := MapChar(s, d, rep);
        assert r == [c, c] + MapChar(s[2..], d, rep);
        assert r[2..] == MapChar(s[2..], d, rep);
      }
    }
  }

  /** `replace("'", "''")`: every apostrophe doubled. */
  function DoubleApostrophes(s: string): (r: string)
    ensures EvenRuns(r, '\'')
    ensures |r| >= |s|
    ensures forall c :: c in r <==> c in s
  {
    ReplaceCharIsMapChar(s, '\'', "''");
    DoubledEvenRuns(s, '\'');
    DoubleLength(s);
    DoubleChars(s);
    ReplaceAll(s, "'", "''")
  }

  lemma {:induction false} DoubleChars(s: string)
    ensures forall c :: c in MapChar(s, '\'', "''") <==> c in s
    decreases |s|
  {
    if |s| > 0 {
      DoubleChars(s[1..]);
      var head := if s[0] == '\'' then "''" else [s[0]];
      assert MapChar(s, '\'', "''") == head + MapChar(s[1..], '\'', "''");
      assert forall c :: c in head <==> c == s[0];
      assert forall c :: c in s <==> c == s[0] || c in s[1..];
    }
  }

  lemma {:induction false} DoubleLength(s: string)
    ensures |MapChar(s, '\'', "''")| >= |s|
    decreases |s|
  {
    if |s| > 0 {
      DoubleLength(s[1..]);
    }
  }

  /** Collapsing `''` back to `'`, the first step of `js_stringify` and the
      reading of a message format, undoes the doubling. */
  lemma {:induction false} UndoubleApostrophes(s: string)
    ensures ReplaceAll(DoubleApostrophes(s), "''", "'") == s
    decreases |s|
  {
    var r := MapChar(s, '\'', "''");
    ReplaceCharIsMapChar(s, '\'', "''");
    if |s| > 0 {
      UndoubleApostrophes(s[1..]);
      var t := MapChar(s[1..], '\'', "''");
      ReplaceCharIsMapChar(s[1..], '\'', "''");
      DoubleLength(s[1..]);
      if s[0] == '\'' {
        assert r == "''" + t;
        assert r[..2] == "''" && r[2..] == t;
      } else {
        assert r == [s[0]] + t;
        if |r| >= 2 {
          assert r[0] == s[0];
          assert r[..2] != "''";
          assert r[1..] == t;
        } else {
          assert s[1..] == [];
        }
      }
    }
  }

  // ---------------------------------------------------------------------
  // Whitespace

  /** Python's `str.isspace` for one code point: tab to carriage return,
      the four separators 0x1C-0x1F, space, next line, no-break space and
      the Unicode space and line separators. */
  predicate IsSpace(c: char) {
    var n := c as int;
    || 9 <= n <= 13 || 28 <= n <= 32 || n == 0x85 || n == 0xA0 || n == 0x1680
    || 0x2000 <= n <= 0x200A || n == 0x2028 || n == 0x2029 || n == 0x202F
    || n == 0x205F || n == 0x3000
  }

  /** `lstrip()`: the longest suffix not starting with whitespace. */
  function StripStart(s: string): (r: string)
    ensures |r| <= |s| && r == s[|s| - |r|..]
    ensures forall k :: 0 <= k < |s| - |r| ==> IsSpace(s[k])
    ensures r != [] ==> !IsSpace(r[0])
    decreases |s|
  {
    if |s| > 0 && IsSpace(s[0]) then
      var r := StripStart(s[1..]);
      assert s[|s| - |r|..] == s[1..][|s| - 1 - |r|..];
      assert forall k :: 1 <= k < |s| - |r| ==> s[k] == s[1..][k - 1];
      r
    else s
  }

  /** `rstrip()`: the longest prefix not ending with whitespace. */
  function StripEnd(s: string): (r: string)
    ensures |r| <= |s| && r == s[..|r|]
    ensures forall k :: |r| <= k < |s| ==> IsSpace(s[k])
    ensures r != [] ==> !IsSpace(r[|r| - 1])
    decreases |s|
  {
    if |s| > 0 && IsSpace(s[|s| - 1]) then StripEnd(s[..|s| - 1]) else s
  }

  /** Neither end of `s` is whitespace. */
  predicate Stripped(s: string) {
    s == [] || (!IsSpace(s[0]) && !IsSpace(s[|s| - 1]))
  }

  /** `strip()`: `s` without its leading and trailing whitespace. */
  function Strip(s: string): (r: string)
    ensures Stripped(r)
  {
    var t := StripStart(s);
    var r := StripEnd(t);
    assert r != [] ==> r[0] == t[0];
    r
  }

  /** What `strip()` keeps is the piece of `s` after the leading
      whitespace, and everything around it is whitespace. */
  lemma StripPiece(s: string)
    ensures var r := Strip(s);
      var i := |s| - |StripStart(s)|;
      0 <= i && i + |r| <= |s| && r == s[i..i + |r|]
      && (forall k :: 0 <= k < i ==> IsSpace(s[k]))
      && (forall k :: i + |r| <= k < |s| ==> IsSpace(s[k]))
  {
    var t := StripStart(s);
    var i := |s| - |t|;
    StripEndSpaces(s, t, i);
  }

  /** The whitespace `rstrip()` removes from a suffix of `s` is at the end
      of `s`. */
  lemma StripEndSpaces(s: string, t: string, i: nat)
    requires i <= |s| && t == s[i..]
    ensures var r := StripEnd(t);
      r == s[i..i + |r|] && forall k :: i + |r| <= k < |s| ==> IsSpace(s[k])
  {
    var r := StripEnd(t);
    forall k | i + |r| <= k < |s| ensures IsSpace(s[k]) {
      assert s[k] == t[k - i];
    }
  }

  /** Text with no whitespace at either end is its own strip. */
  lemma StripStripped(s: string)
    requires Stripped(s)
    ensures Strip(s) == s
  {
  }

  /** `''.join(s.split())`: the words of `s` run together, which is `s`
      with every whitespace character removed. */
  function RemoveSpaces(s: string): (r: string)
    ensures forall c :: c in r <==> c in s && !IsSpace(c)
    ensures |r| <= |s|
    decreases |s|
  {
    if |s| == 0 then []
    else if IsSpace(s[0]) then RemoveSpaces(s[1..])
    else
      var rest := RemoveSpaces(s[1..]);
      assert forall c :: c in s <==> c == s[0] || c in s[1..];
      [s[0]] + rest
  }

  /** Text without whitespace is kept as it is. */
  lemma {:induction false} RemoveSpacesNone(s: string)
    requires forall k :: 0 <= k < |s| ==> !IsSpace(s[k])
    ensures RemoveSpaces(s) == s
    decreases |s|
  {
    if |s| > 0 {
      RemoveSpacesNone(s[1..]);
      assert s == [s[0]] + s[1..];
    }
  }

  // ---------------------------------------------------------------------
  // One split

  /** `s.split(sep, 1)`: the text before the first `sep` and the text after
      it, or `s` alone when `sep` does not occur. */
  function SplitOnce(s: string, sep: string): (r: seq<string>)
    requires |sep| > 0
    ensures |r| == 1 || |r| == 2
    ensures |r| == 1 <==> forall j :: !OccursAt(s, sep, j)
    ensures |r| == 1 ==> r[0] == s
    ensures |r| == 2 ==> s == r[0] + sep + r[1]
    ensures |r| == 2 ==> forall j :: 0 <= j < |r[0]| ==> !OccursAt(s, sep, j)
  {
    match IndexOf(s, sep)
    case None => [s]
    case Some(i) =>
      assert s == s[..i] + sep + s[i + |sep|..];
      [s[..i], s[i + |sep|..]]
  }

  /** A separator that cannot occur in the first part splits there. */
  lemma SplitOnceAt(a: string, sep: string, b: string)
    requires |sep| > 0 && sep[0] !in a
    ensures SplitOnce(a + sep + b, sep) == [a, b]
  {
    var s := a + sep + b;
    assert OccursAt(s, sep, |a|) by {
      assert s[|a|..|a| + |sep|] == sep;
    }
    forall j | 0 <= j < |a|
      ensures !OccursAt(s, sep, j)
    {
      assert s[j] == a[j];
      assert a[j] in a;
    }
    var r := SplitOnce(s, sep);
    assert OccursAt(s, sep, |r[0]|) by {
      assert s[|r[0]|..|r[0]| + |sep|] == sep;
    }
    assert r[0] == s[..|a|] == a;
    assert r[1] == s[|a| + |sep|..] == b;
  }

  // ---------------------------------------------------------------------
  // The lines of a translation file

  /** Tests `str.startswith`. */
  predicate StartsWith(s: string, prefix: string) {
    |prefix| <= |s| && s[..|prefix|] == prefix
  }

  /** Tests `str.endswith`. */
  predicate EndsWith(s: string, suffix: string) {
    |suffix| <= |s| && s[|s| - |suffix|..] == suffix
  }

  /** The keys of the component palettes, whose values stay as written. */
  const PaletteItems: set<string> := {
    "userInterfaceComponentPallette",
    "layoutComponentPallette",
    "mediaComponentPallette",
    "drawingAndAnimationComponentPallette",
    "mapsComponentPallette",
    "sensorComponentPallette",
    "socialComponentPallette",
    "storageComponentPallette",
    "connectivityComponentPallette",
    "legoMindstormsComponentPallette",
    "experimentalComponentPallette",
    "extensionComponentPallette"
  }

  /** The keys whose values are lists of names, written without whitespace. */
  predicate CompactKey(key: string) {
    || EndsWith(key, "Params") || EndsWith(key, "Properties")
    || EndsWith(key, "Methods") || EndsWith(key, "Events")
    || (EndsWith(key, "ComponentPallette")
        && !EndsWith(key, "HelpStringComponentPallette")
        && key !in PaletteItems)
  }

  /** A property list is compact, a palette name is not. */
  lemma CompactKeyExamples()
    ensures CompactKey("ButtonProperties")
    ensures !CompactKey("layoutComponentPallette")
  {
    assert EndsWith("ButtonProperties", "Properties");
    var k := "layoutComponentPallette";
    assert k in PaletteItems;
    assert !EndsWith(k, "Params");
    assert !EndsWith(k, "Properties");
    assert !EndsWith(k, "Methods");
    assert !EndsWith(k, "Events");
  }

  /** What `split` does with a line. */
  datatype LineKind =
    | Short    // two characters or fewer: skipped
    | Comment  // starts with `#`: kept for the next designer entry
    | Switch   // `appengine.switchTo…` or `appengine.SwitchTo…`: skipped
    | Entry    // any other `appengine.` line: a designer message
    | Message  // every other line: a blocks editor message

  function Classify(line: string): LineKind {
    if |line| <= 2 then Short
    else if line[0] == '#' then Comment
    else if StartsWith(line, "appengine.switchTo") || StartsWith(line, "appengine.SwitchTo") then Switch
    else if StartsWith(line, "appengine.") then Entry
    else Message
  }

  /** The key and the written value of a designer entry, given the line
      without its `appengine.` prefix: split at the first ` = `, both parts
      stripped, whitespace removed from the value of a compact key, and
      apostrophes doubled. A line without ` = ` raises an `IndexError`. */
  function OdeEntry(rest: string): (r: Result<(string, string)>)
    ensures r.Ok? <==> exists j :: OccursAt(rest, " = ", j)
    ensures r.Err? ==> r.error == IndexError
    ensures r.Ok? ==> Stripped(r.value.0) && EvenRuns(r.value.1, '\'')
    ensures r.Ok? && CompactKey(r.value.0) ==> forall c :: c in r.value.1 ==> !IsSpace(c)
    ensures r.Ok? ==> var parts := SplitOnce(rest, " = ");
      r.value.0 == Strip(parts[0])
      && ReplaceAll(r.value.1, "''", "'")
         == (if CompactKey(r.value.0) then RemoveSpaces(Strip(parts[1])) else Strip(parts[1]))
  {
    var parts := SplitOnce(rest, " = ");
    if |parts| < 2 then Err(IndexError)
    else
      var key := Strip(parts[0]);
      var value := Strip(parts[1]);
      var written := if CompactKey(key) then RemoveSpaces(value) else value;
      UndoubleApostrophes(written);
      Ok((key, DoubleApostrophes(written)))
  }

  /** A key without spaces and a stripped value read back from the entry
      `key = value`: the value only has its apostrophes doubled. */
  lemma OdeEntryOfPair(key: string, value: string)
    requires ' ' !in key && Stripped(key) && Stripped(value) && !CompactKey(key)
    ensures OdeEntry(key + " = " + value) == Ok((key, DoubleApostrophes(value)))
  {
    SplitOnceAt(key, " = ", value);
    StripStripped(key);
    StripStripped(value);
  }

  /** The text `split` writes for a designer entry. */
  function EntryText(entry: (string, string)): string {
    entry.0 + " = " + entry.1 + "\n\n"
  }

  /** Python's `line[n:]`, which is empty for a shorter line. */
  function DropPrefix(line: string, n: nat): (r: string)
    ensures |line| <= n ==> r == []
    ensures |line| > n ==> |r| == |line| - n && forall k :: 0 <= k < |r| ==> r[k] == line[n + k]
  {
    if |line| <= n then [] else line[n..]
  }

  /** The key and the JavaScript literal of a blocks editor message: the
      first 13 characters (the length of `blockseditor.`) dropped, whatever
      they are, the rest split at the first `=`, both parts stripped, and
      the value passed through `js_stringify`. A line without `=` after
      that raises an `IndexError`. */
  function BlocklyEntry(line: string): (r: Result<(string, string)>)
    ensures r.Ok? <==> '=' in DropPrefix(line, 13)
    ensures r.Err? ==> r.error == IndexError
    ensures r.Ok? ==> Stripped(r.value.0) && '=' !in r.value.0
    ensures r.Ok? ==> var lit := r.value.1;
      |lit| >= 2 && lit[0] == '\'' && lit[|lit| - 1] == '\''
      && '\n' !in lit && '\r' !in lit && PrecededBy(lit[1..|lit| - 1], '\'', '\\')
    ensures r.Ok? && (forall k :: 0 <= k < |line| - 1 ==> line[k] != '\n') ==> '\n' !in r.value.0
    ensures r.Ok? ==> var parts := SplitOnce(DropPrefix(line, 13), "=");
      |parts| == 2 && r.value == (Strip(parts[0]), JsStringify(Strip(parts[1])))
  {
    var rest := DropPrefix(line, 13);
    var parts := SplitOnce(rest, "=");
    if |parts| < 2 then
      assert '=' !in rest by {
        forall k | 0 <= k < |rest| ensures rest[k] != '=' {
          assert !OccursAt(rest, "=", k);
        }
      }
      Err(IndexError)
    else
      BlocklyKey(line, rest, parts[0], parts[1]);
      var lit := JsStringify(Strip(parts[1]));
      Ok((Strip(parts[0]), lit))
  }

  /** A message `key=value` after any 13-character prefix reads back as its
      key and the `js_stringify` literal of its value. */
  lemma BlocklyEntryOfPair(prefix: string, key: string, value: string)
    requires |prefix| == 13 && '=' !in key && Stripped(key) && Stripped(value)
    ensures BlocklyEntry(prefix + key + "=" + value) == Ok((key, JsStringify(value)))
  {
    var line := prefix + key + "=" + value;
    assert DropPrefix(line, 13) == key + "=" + value;
    SplitOnceAt(key, "=", value);
    StripStripped(key);
    StripStripped(value);
  }

  /** The key of a message comes from before the first `=`, so it holds no
      `=`, and a line break that can only be the line's last character never
      reaches it. */
  lemma BlocklyKey(line: string, rest: string, before: string, after: string)
    requires rest == DropPrefix(line, 13) && rest == before + "=" + after
    requires forall j :: 0 <= j < |before| ==> !OccursAt(rest, "=", j)
    ensures '=' in rest
    ensures '=' !in Strip(before)
    ensures (forall k :: 0 <= k < |line| - 1 ==> line[k] != '\n') ==> '\n' !in Strip(before)
  {
    assert rest[|before|] == '=';
    StripChars(before);
    forall k | 0 <= k < |before| ensures before[k] != '=' {
      assert rest[k] == before[k];
      assert !OccursAt(rest, "=", k);
    }
    if forall k :: 0 <= k < |line| - 1 ==> line[k] != '\n' {
      forall k | 0 <= k < |before| ensures before[k] != '\n' {
        assert before[k] == rest[k] == line[13 + k];
      }
    }
  }

  /** Every character `strip()` keeps comes from its argument. */
  lemma StripChars(s: string)
    ensures forall c :: c in Strip(s) ==> c in s
  {
    var t := StripStart(s);
    var r := Strip(s);
    assert r == StripEnd(t);
    forall c | c in r ensures c in s {
      var k :| 0 <= k < |r| && r[k] == c;
      assert t[k] == c;
      assert s[|s| - |t| + k] == c;
    }
  }

  /** The text `split` writes for a blocks editor message. */
  function MessageText(message: (string, string)): string {
    "    Blockly.Msg." + message.0 + " = " + message.1 + ";\n"
  }

  /** What `split` has produced so far: the comment lines waiting for the
      next designer entry, the designer output and the blocks editor output. */
  datatype Output = Output(description: Option<string>, ode: string, blockly: string)

  /** The comment lines waiting to be written. */
  function Pending(description: Option<string>): string {
    match description
    case None => ""
    case Some(text) => text
  }

  /** One line of `split`. Skipped lines change nothing; comment lines only
      accumulate; a designer entry writes the waiting comments and then
      itself, and touches nothing else; a blocks editor message touches
      only the blocks editor output. */
  function SplitLine(out: Output, line: string): (r: Result<Output>)
    ensures Classify(line) == Short || Classify(line) == Switch ==> r == Ok(out)
    ensures Classify(line) == Comment ==>
      r == Ok(out.(description := Some(Pending(out.description) + line)))
    ensures Classify(line) == Entry ==> (r.Ok? <==> OdeEntry(line[10..]).Ok?)
    ensures Classify(line) == Entry && r.Ok? ==>
      r.value.description == None && r.value.blockly == out.blockly
      && r.value.ode == out.ode + Pending(out.description) + EntryText(OdeEntry(line[10..]).value)
    ensures Classify(line) == Message ==> (r.Ok? <==> BlocklyEntry(line).Ok?)
    ensures Classify(line) == Message && r.Ok? ==>
      r.value.description == out.description && r.value.ode == out.ode
      && r.value.blockly == out.blockly + MessageText(BlocklyEntry(line).value)
    ensures r.Err? ==> r.error == IndexError
  {
    match Classify(line)
    case Short => Ok(out)
    case Switch => Ok(out)
    case Comment =>
      (match out.description
       case None =>
         assert Pending(out.description) + line == line;
         Ok(out.(description := Some(line)))
       case Some(d) => Ok(out.(description := Some(d + line))))
    case Entry =>
      var entry :- OdeEntry(line[|"appengine."|..]);
      Ok(Output(None, out.ode + Pending(out.description) + EntryText(entry), out.blockly))
    case Message =>
      var message :- BlocklyEntry(line);
      Ok(out.(blockly := out.blockly + MessageText(message)))
  }

  /** `split` over a sequence of lines, from a given output; the first
      `IndexError` ends it. */
  function SplitLines(out: Output, lines: seq<string>): Result<Output>
    decreases |lines|
  {
    if lines == [] then Ok(out)
    else
      var next :- SplitLine(out, lines[0]);
      SplitLines(next, lines[1..])
  }

  /** Lines of two characters or fewer and `switchTo` lines produce nothing. */
  lemma {:induction false} SkippedLines(out: Output, lines: seq<string>)
    requires forall k :: 0 <= k < |lines| ==> Classify(lines[k]) == Short || Classify(lines[k]) == Switch
    ensures SplitLines(out, lines) == Ok(out)
    decreases |lines|
  {
    if lines != [] {
      SkippedLines(out, lines[1..]);
    }
  }

  /** The lines run together. */
  function Concat(lines: seq<string>): string
    decreases |lines|
  {
    if lines == [] then "" else lines[0] + Concat(lines[1..])
  }

  /** Comment lines are only collected: the outputs stay as they were and
      the waiting text grows by the comments, in order. */
  lemma {:induction false} CommentsCollect(out: Output, comments: seq<string>)
    requires comments != []
    requires forall k :: 0 <= k < |comments| ==> Classify(comments[k]) == Comment
    ensures SplitLines(out, comments)
         == Ok(out.(description := Some(Pending(out.description) + Concat(comments))))
    decreases |comments|
  {
    var next := out.(description := Some(Pending(out.description) + comments[0]));
    assert SplitLine(out, comments[0]) == Ok(next);
    if |comments| == 1 {
      assert comments[1..] == [];
      assert SplitLines(next, comments[1..]) == Ok(next);
      assert Concat(comments) == comments[0] + Concat(comments[1..]);
      assert Concat(comments) == comments[0];
    } else {
      CommentsCollect(next, comments[1..]);
      assert Pending(out.description) + comments[0] + Concat(comments[1..])
          == Pending(out.description) + Concat(comments);
    }
  }

  /** Comments are written exactly once, right before the designer entry
      that follows them; a second entry writes only itself. */
  lemma CommentsBeforeEntry(out: Output, comments: seq<string>, first: string, second: string)
    requires out.description == None && comments != []
    requires forall k :: 0 <= k < |comments| ==> Classify(comments[k]) == Comment
    requires Classify(first) == Entry && OdeEntry(DropPrefix(first, 10)).Ok?
    requires Classify(second) == Entry && OdeEntry(DropPrefix(second, 10)).Ok?
    ensures var r := SplitLines(out, comments + [first, second]);
      r.Ok? && r.value.description == None && r.value.blockly == out.blockly
      && r.value.ode == out.ode + Concat(comments)
                        + EntryText(OdeEntry(DropPrefix(first, 10)).value)
                        + EntryText(OdeEntry(DropPrefix(second, 10)).value)
  {
    SplitLinesAppend(out, comments, [first, second]);
    CommentsCollectFresh(out, comments);
    TwoEntries(out.(description := Some(Concat(comments))), first, second);
  }

  /** Comments read with nothing waiting leave exactly their text waiting. */
  lemma CommentsCollectFresh(out: Output, comments: seq<string>)
    requires out.description == None && comments != []
    requires forall k :: 0 <= k < |comments| ==> Classify(comments[k]) == Comment
    ensures SplitLines(out, comments) == Ok(out.(description := Some(Concat(comments))))
  {
    CommentsCollect(out, comments);
    EmptyPrefix(Pending(None), Concat(comments));
  }

  /** Two entries in a row: the waiting text goes before the first, and
      nothing is left waiting before the second. */
  lemma TwoEntries(out: Output, first: string, second: string)
    requires Classify(first) == Entry && OdeEntry(DropPrefix(first, 10)).Ok?
    requires Classify(second) == Entry && OdeEntry(DropPrefix(second, 10)).Ok?
    ensures SplitLines(out, [first, second])
         == Ok(Output(None, out.ode + Pending(out.description)
                            + EntryText(OdeEntry(DropPrefix(first, 10)).value)
                            + EntryText(OdeEntry(DropPrefix(second, 10)).value), out.blockly))
  {
    assert [first] + [second] == [first, second];
    SplitLinesAppend(out, [first], [second]);
    EntryLine(out, first);
    var afterFirst := SplitLines(out, [first]).value;
    EntryLine(afterFirst, second);
    EmptySuffix(afterFirst.ode, Pending(afterFirst.description));
  }

  lemma EmptySuffix(x: string, p: string)
    requires p == []
    ensures x + p == x
  {
  }

  lemma EmptyPrefix(p: string, x: string)
    requires p == []
    ensures p + x == x
  {
  }

  /** A designer entry on its own: the waiting comments and the entry are
      written, and nothing waits any more. */
  lemma EntryLine(out: Output, line: string)
    requires Classify(line) == Entry && OdeEntry(DropPrefix(line, 10)).Ok?
    ensures SplitLines(out, [line])
         == Ok(Output(None, out.ode + Pending(out.description) + EntryText(OdeEntry(DropPrefix(line, 10)).value), out.blockly))
  {
    assert DropPrefix(line, 10) == line[10..];
    assert [line][1..] == [];
  }

  /** Running two blocks of lines is running the first, then the second. */
  lemma {:induction false} SplitLinesAppend(out: Output, xs: seq<string>, ys: seq<string>)
    ensures SplitLines(out, xs + ys)
         == (match SplitLines(out, xs) case Ok(mid) => SplitLines(mid, ys) case Err(e) => Err(e))
    decreases |xs|
  {
    if xs == [] {
      assert xs + ys == ys;
    } else {
      assert (xs + ys)[0] == xs[0];
      assert (xs + ys)[1..] == xs[1..] + ys;
      match SplitLine(out, xs[0])
      case Ok(next) => SplitLinesAppend(next, xs[1..], ys);
      case Err(_) =>
    }
  }
}
