/**
 * The string helpers of `CommunityLoginServlet`: the two hexadecimal
 * encoders of a byte array (`convertBytesToHex` with `String.format`,
 * `toHexString` with a `Formatter`) and the query-string splitter
 * `getQueryMap`.
 */
module CommunityLogin {
  import opened Wrappers
  import opened JavaText
  import opened JavaSplit
  import opened StringMappings

  /** A Java `byte`: a signed 8-bit integer. */
  newtype JByte = x: int | -128 <= x < 128

  /** The byte read as unsigned, as `%x` formats a negative `Byte`: by
      adding 2^8. */
  function Unsigned(b: JByte): (u: nat)
    ensures u < 256
    ensures u % 256 == (b as int) % 256
  {
    if b < 0 then b as int + 256 else b as int
  }

  const HexDigits := "0123456789abcdef"

  /** `String.format("%02x", b)`: two lowercase hexadecimal digits, the high
      nibble first. */
  function HexByte(b: JByte): (r: string)
    ensures |r| == 2
    ensures r[0] == HexDigits[Unsigned(b) / 16] && r[1] == HexDigits[Unsigned(b) % 16]
  {
    var u := Unsigned(b);
    [HexDigits[u / 16], HexDigits[u % 16]]
  }

  /** The bytes, each formatted with `%02x`, one after the other. */
  function Hex(bytes: seq<JByte>): (r: string)
    ensures |r| == 2 * |bytes|
    decreases |bytes|
  {
    if bytes == [] then "" else Hex(bytes[..|bytes| - 1]) + HexByte(bytes[|bytes| - 1])
  }

  /** The two characters encoding the `i`-th byte. */
  lemma {:induction false} HexAt(bytes: seq<JByte>, i: nat)
    requires i < |bytes|
    ensures Hex(bytes)[2 * i..2 * i + 2] == HexByte(bytes[i])
    decreases |bytes|
  {
    var init := bytes[..|bytes| - 1];
    var last := HexByte(bytes[|bytes| - 1]);
    assert Hex(bytes) == Hex(init) + last;
    if i < |init| {
      HexAt(init, i);
      SliceOfFront(Hex(init), last, 2 * i, 2 * i + 2);
    } else {
      SliceOfBack(Hex(init), last);
    }
  }

  /** A slice within the front part of a concatenation. */
  lemma SliceOfFront(x: string, y: string, a: nat, b: nat)
    requires a <= b <= |x|
    ensures (x + y)[a..b] == x[a..b]
  {
  }

  /** The back part of a concatenation, sliced off after the front. */
  lemma SliceOfBack(x: string, y: string)
    ensures (x + y)[|x|..|x| + |y|] == y
    ensures (x + y)[..|x|] == x
  {
  }

  /** `convertBytesToHex`: a `StringBuilder` filled byte by byte. */
  method ConvertBytesToHex(bytes: seq<JByte>) returns (r: string)
    ensures r == Hex(bytes)
    ensures |r| == 2 * |bytes|
    ensures forall i :: 0 <= i < |bytes| ==> r[2 * i..2 * i + 2] == HexByte(bytes[i])
  {
    r := "";
    for i := 0 to |bytes|
      invariant r == Hex(bytes[..i])
    {
      r := r + HexByte(bytes[i]);
      assert bytes[..i + 1][..i] == bytes[..i];
    }
    assert bytes[..|bytes|] == bytes;
    forall i | 0 <= i < |bytes|
      ensures r[2 * i..2 * i + 2] == HexByte(bytes[i])
    {
      HexAt(bytes, i);
    }
  }

  /** `toHexString`: a `Formatter` given `%02x` for each byte; it returns
      the same string as `convertBytesToHex`. */
  method ToHexString(bytes: seq<JByte>) returns (r: string)
    ensures r == Hex(bytes)
  {
    var formatter := "";
    var k := 0;
    while k < |bytes|
      invariant 0 <= k <= |bytes|
      invariant formatter == Hex(bytes[..k])
    {
      formatter := formatter + HexByte(bytes[k]);
      assert bytes[..k + 1][..k] == bytes[..k];
      k := k + 1;
    }
    assert bytes[..|bytes|] == bytes;
    r := formatter;
  }

  /** Every character of the encoding is a lowercase hexadecimal digit. */
  lemma {:induction false} HexIsLowercase(bytes: seq<JByte>)
    ensures forall k :: 0 <= k < |Hex(bytes)| ==> Hex(bytes)[k] in HexDigits
    decreases |bytes|
  {
    if bytes != [] {
      HexIsLowercase(bytes[..|bytes| - 1]);
    }
  }

  /** The value of a hexadecimal digit. */
  function DigitValue(c: char): (v: nat)
    ensures v < 16
    ensures c in HexDigits ==> HexDigits[v] == c
  {
    if '0' <= c <= '9' then c as int - '0' as int
    else if 'a' <= c <= 'f' then c as int - 'a' as int + 10
    else 0
  }

  /** Two digits read back as a signed byte. */
  function ParseHexByte(hi: char, lo: char): JByte {
    var u := DigitValue(hi) * 16 + DigitValue(lo);
    if u >= 128 then (u - 256) as JByte else u as JByte
  }

  /** The inverse of `Hex`: pairs of digits, from the end, read back as
      bytes; a single leftover digit at the front is ignored. */
  function ParseHex(s: string): (r: seq<JByte>)
    ensures 2 * |r| <= |s| < 2 * |r| + 2
    decreases |s|
  {
    if |s| < 2 then [] else ParseHex(s[..|s| - 2]) + [ParseHexByte(s[|s| - 2], s[|s| - 1])]
  }

  /** The digits of one byte read back give the byte. */
  lemma ParseHexByteOf(b: JByte) returns (hi: char, lo: char)
    ensures HexByte(b) == [hi, lo] && ParseHexByte(hi, lo) == b
  {
    hi, lo := HexByte(b)[0], HexByte(b)[1];
    var u := Unsigned(b);
    DigitOf(u / 16);
    DigitOf(u % 16);
    assert (u / 16) * 16 + u % 16 == u;
  }

  /** Each digit reads back as its value. */
  lemma DigitOf(k: nat)
    requires k < 16
    ensures DigitValue(HexDigits[k]) == k
  {
    if k < 10 {
      assert HexDigits[k] as int == '0' as int + k;
    } else {
      assert HexDigits[k] as int == 'a' as int + k - 10;
    }
  }

  /** The encoding loses nothing: reading it back gives the bytes. */
  lemma {:induction false} HexRoundTrip(bytes: seq<JByte>)
    ensures ParseHex(Hex(bytes)) == bytes
    decreases |bytes|
  {
    if |bytes| > 0 {
      HexRoundTrip(bytes[..|bytes| - 1]);
      HexSnocRoundTrip(bytes);
    }
  }

  /** One more byte encoded reads back as one more byte. */
  lemma HexSnocRoundTrip(bytes: seq<JByte>)
    requires |bytes| > 0
    requires ParseHex(Hex(bytes[..|bytes| - 1])) == bytes[..|bytes| - 1]
    ensures ParseHex(Hex(bytes)) == bytes
  {
    HexUnfold(bytes);
    var init, b := bytes[..|bytes| - 1], bytes[|bytes| - 1];
    var hi, lo := ParseHexByteOf(b);
    ParseHexSnoc(Hex(init), hi, lo);
    SnocLast(bytes);
  }

  /** A non-empty sequence is its front and its last element. */
  lemma SnocLast<T>(s: seq<T>)
    requires |s| > 0
    ensures s[..|s| - 1] + [s[|s| - 1]] == s
  {
  }

  /** The last byte's digits come last. */
  lemma HexUnfold(bytes: seq<JByte>)
    requires |bytes| > 0
    ensures Hex(bytes) == Hex(bytes[..|bytes| - 1]) + HexByte(bytes[|bytes| - 1])
  {
  }

  /** Two more digits read back as one more byte. */
  lemma ParseHexSnoc(x: string, hi: char, lo: char)
    ensures ParseHex(x + [hi, lo]) == ParseHex(x) + [ParseHexByte(hi, lo)]
  {
    var s := x + [hi, lo];
    assert s[..|s| - 2] == x;
    assert s[|s| - 2] == hi && s[|s| - 1] == lo;
  }

  /** Two examples: -1 is "ff" and 10 is "0a". */
  lemma HexExamples()
    ensures Hex([-1 as JByte, 10 as JByte]) == "ff0a"
  {
    assert [-1 as JByte, 10 as JByte][..1] == [-1 as JByte];
    assert [-1 as JByte][..0] == [];
    assert HexByte(-1 as JByte) == "ff";
    assert HexByte(10 as JByte) == "0a";
  }

  // ---------------------------------------------------------------------
  // getQueryMap

  /** One `name=value` part: the name is the first piece of its split on
      `=` and the value the second; a missing piece is an
      `ArrayIndexOutOfBoundsException`. */
  function ParamPair(param: string): (r: Result<Entry>)
    ensures r.Ok? ==> '=' !in r.value.0 && '=' !in r.value.1
    ensures r.Err? ==> r.error == ArrayIndexOutOfBounds
  {
    var parts := Split(param, Literal('='));
    SplitAvoids(param, Literal('='), '=');
    if |parts| < 1 then Err(ArrayIndexOutOfBounds)
    else if |parts| < 2 then Err(ArrayIndexOutOfBounds)
    else Ok((parts[0], parts[1]))
  }

  /** The values of a list of results, or the error of the first one that
      failed. */
  function AllOk<T>(rs: seq<Result<T>>): (r: Result<seq<T>>)
    ensures r.Ok? <==> forall k :: 0 <= k < |rs| ==> rs[k].Ok?
    ensures r.Ok? ==> |r.value| == |rs| && forall k :: 0 <= k < |rs| ==> r.value[k] == rs[k].value
    ensures r.Err? ==> exists k :: 0 <= k < |rs| && rs[k].Err? && r.error == rs[k].error
                                   && forall j :: 0 <= j < k ==> rs[j].Ok?
  {
    if rs == [] then Ok([])
    else if rs[0].Err? then Err(rs[0].error)
    else
      var rest := AllOk(rs[1..]);
      if rest.Err? then
        ghost var k :| 0 <= k < |rs[1..]| && rs[1..][k].Err? && rest.error == rs[1..][k].error
                       && forall j :: 0 <= j < k ==> rs[1..][j].Ok?;
        assert rs[k + 1].Err? && forall j :: 0 <= j < k + 1 ==> rs[j].Ok? by {
          forall j | 1 <= j < k + 1 ensures rs[j].Ok? {
            assert rs[j] == rs[1..][j - 1];
          }
        }
        Err(rest.error)
      else
        var r := [rs[0].value] + rest.value;
        assert forall k :: 1 <= k < |rs| ==> r[k] == rest.value[k - 1];
        Ok(r)
  }

  /** The pairs of all parts, or the exception of the first part that has
      none. */
  function Pairs(params: seq<string>): (r: Result<seq<Entry>>)
    ensures r.Ok? <==> forall k :: 0 <= k < |params| ==> ParamPair(params[k]).Ok?
    ensures r.Ok? ==> |r.value| == |params|
    ensures r.Ok? ==> forall k :: 0 <= k < |params| ==> r.value[k] == ParamPair(params[k]).value
    ensures r.Err? ==> r.error == ArrayIndexOutOfBounds
  {
    var rs := seq(|params|, k requires 0 <= k < |params| => ParamPair(params[k]));
    assert forall k :: 0 <= k < |params| ==> rs[k] == ParamPair(params[k]);
    AllOk(rs)
  }

  /** `getQueryMap`: the parts between `&` are put into a hash map in
      order, so a later part overwrites an earlier one with the same name. */
  function QueryMap(query: string): (r: Result<map<string, string>>)
  {
    var params := Split(query, Literal('&'));
    match Pairs(params)
    case Err(e) => Err(e)
    case Ok(pairs) => Ok(Collect(pairs).lookup)
  }

  /** The map has an entry for every name and no other, and holds the value
      of the last part with that name. */
  lemma QueryMapEntries(query: string, pairs: seq<Entry>)
    requires Pairs(Split(query, Literal('&'))) == Ok(pairs)
    ensures QueryMap(query).Ok?
    ensures var m := QueryMap(query).value;
      && (forall name :: name in m <==> exists k :: 0 <= k < |pairs| && pairs[k].0 == name)
      && (forall name :: name in m ==>
            LastIndexOfKey(pairs, name) >= 0 && m[name] == pairs[LastIndexOfKey(pairs, name)].1)
  {
    assert QueryMap(query) == Ok(Collect(pairs).lookup);
    CollectEntries(pairs);
  }

  /** The lookup table of `Collect` in terms of the entries. */
  lemma CollectEntries(pairs: seq<Entry>)
    ensures var m := Collect(pairs).lookup;
      && (forall name :: name in m <==> exists k :: 0 <= k < |pairs| && pairs[k].0 == name)
      && (forall name :: name in m ==>
            LastIndexOfKey(pairs, name) >= 0 && m[name] == pairs[LastIndexOfKey(pairs, name)].1)
  {
    CollectKeys(pairs);
    CollectLastValue(pairs);
    forall name | exists k :: 0 <= k < |pairs| && pairs[k].0 == name
      ensures name in Collect(pairs).lookup
    {
      var k :| 0 <= k < |pairs| && pairs[k].0 == name;
      assert FirstIndexOfKey(pairs, name) <= k;
    }
  }

  /** A part `name=value`, with perhaps more `=`-separated text after it,
      gives the name and the value: `a=b=c` maps `a` to `b`. */
  lemma ParamPairOfJoin(items: seq<string>)
    requires |items| >= 2 && items[|items| - 1] != ""
    requires forall k :: 0 <= k < |items| ==> '=' !in items[k]
    ensures ParamPair(Join(items, "=")) == Ok((items[0], items[1]))
  {
    SplitOfJoin(items, '=');
  }

  /** A part without `=`, or whose only `=` ends it, has no value and
      throws. */
  lemma ParamPairWithoutValue(name: string)
    requires '=' !in name
    ensures ParamPair(name).Err?
    ensures ParamPair(name + "=").Err?
  {
    var d := Literal('=');
    PiecesOfJoin(name, '=', [name], 0, 0);
    assert name[0..0] + name == name;
    if name != "" {
      SplitTrailingDelimiter(name, '=');
    } else {
      var s := "=";
      assert MatchAt(s, 0, d) == Some(1);
      assert s[0..0] == "" && s[1..] == "";
      assert Pieces(s, d, 1, 1) == [""];
      assert Pieces(s, d, 0, 0) == ["", ""];
    }
  }

  /** The empty query throws: it has one empty part, which has no value. */
  lemma EmptyQueryThrows()
    ensures QueryMap("") == Err(ArrayIndexOutOfBounds)
  {
    assert Split("", Literal('&')) == [""];
    ParamPairWithoutValue("");
  }

  /** A single `&` after a non-empty query changes nothing. */
  lemma TrailingAmpersandIgnored(query: string)
    requires query != ""
    ensures QueryMap(query + "&") == QueryMap(query)
  {
    SplitTrailingDelimiter(query, '&');
  }

  /** A query made of `name=value` parts joined by `&` is read as the list
      of its names and values. */
  lemma QueryMapOfJoin(params: seq<string>, names: seq<string>, values: seq<string>)
    requires |params| == |names| == |values| >= 1
    requires forall k :: 0 <= k < |params| ==> params[k] == names[k] + "=" + values[k]
    requires forall k :: 0 <= k < |names| ==> '=' !in names[k] && '&' !in names[k]
    requires forall k :: 0 <= k < |values| ==> '=' !in values[k] && '&' !in values[k] && values[k] != ""
    ensures QueryMap(Join(params, "&")).Ok?
    ensures var pairs := Pairs(Split(Join(params, "&"), Literal('&')));
      pairs.Ok? && |pairs.value| == |params|
      && forall k :: 0 <= k < |params| ==> pairs.value[k] == (names[k], values[k])
  {
    forall k | 0 <= k < |params|
      ensures '&' !in params[k]
      ensures ParamPair(params[k]) == Ok((names[k], values[k]))
    {
      ParamPairOfNameValue(names[k], values[k]);
    }
    SplitOfJoin(params, '&');
  }

  lemma ParamPairOfNameValue(name: string, value: string)
    requires '=' !in name && '=' !in value && value != ""
    ensures ParamPair(name + "=" + value) == Ok((name, value))
  {
    JoinCons(name, [value], "=");
    assert [name] + [value] == [name, value];
    ParamPairOfJoin([name, value]);
  }
}
