/**
 * The pure part of the `CSVFile` chart data source: the line-ending
 * normalisation applied to the text read, and the columns built from the
 * parsed rows. Rows are lists of strings; the first row names the columns.
 * A `YailList` is read through 0-based `getObject`/`getString`, which throw
 * on an index past the end, and searched with a 1-based `indexOf`.
 */
module CsvFile {
  import opened Wrappers
  import opened JavaText

  /** `replaceAll("\r\n", "\n")`: every CRLF, scanning left to right, becomes LF. */
  function NormalizeLineEndings(text: string): (r: string)
    ensures r == DropBefore(text, '\r', '\n')
  {
    ReplacePairIsDropBefore(text, '\r', '\n');
    ReplaceAll(text, "\r\n", "\n")
  }

  /** A text without carriage returns is left as it is. */
  lemma NormalizeWithoutCarriageReturn(text: string)
    requires '\r' !in text
    ensures NormalizeLineEndings(text) == text
  {
    forall j ensures !OccursAt(text, "\r\n", j) {
      if 0 <= j < |text| {
        assert text[j] in text;
      }
    }
    ReplaceAllAbsent(text, "\r\n", "\n");
  }

  /** The normalisation deletes characters and never adds or changes one:
      its result is never longer, and every character of it occurs in the
      input. */
  lemma {:induction false} NormalizeShrinks(text: string)
    ensures |NormalizeLineEndings(text)| <= |text|
    ensures forall c :: c in NormalizeLineEndings(text) ==> c in text
  {
    DropBeforeShrinks(text, '\r', '\n');
  }

  lemma {:induction false} DropBeforeShrinks(s: string, a: char, b: char)
    ensures |DropBefore(s, a, b)| <= |s|
    ensures forall c :: c in DropBefore(s, a, b) ==> c in s
    decreases |s|
  {
    if |s| > 0 {
      DropBeforeShrinks(s[1..], a, b);
    }
  }

  /** One pass does not remove every CRLF: in CR CR LF only the second CR is
      followed by LF, and the first CR then precedes the LF. */
  lemma NormalizeNotIdempotent()
    ensures NormalizeLineEndings("\r\r\n") == "\r\n"
    ensures NormalizeLineEndings("\r\n") == "\n"
  {
    var s := "\r\r\n";
    assert s[1..] == "\r\n" && s[1..][1..] == "\n";
    assert "\r\n"[1..] == "\n";
    assert DropBefore("\n", '\r', '\n') == "\n" by {
      assert "\n"[1..] == "";
    }
  }

  // ---------------------------------------------------------------------
  // Rows to columns

  /** Every row has at least `n` fields. */
  predicate AllRowsHave(rows: seq<seq<string>>, n: nat) {
    forall j :: 0 <= j < |rows| ==> |rows[j]| >= n
  }

  /** `getColumn(int index)`: the `index`-th field of every row, in row
      order; it throws when a row is too short. */
  function ColumnAt(rows: seq<seq<string>>, index: nat): (r: Result<seq<string>>)
    ensures r.Ok? <==> AllRowsHave(rows, index + 1)
    ensures r.Ok? ==> |r.value| == |rows| && forall j :: 0 <= j < |rows| ==> r.value[j] == rows[j][index]
    ensures r.Err? ==> r.error == ListIndexOutOfBounds
  {
    if rows == [] then Ok([])
    else if |rows[0]| <= index then Err(ListIndexOutOfBounds)
    else
      var rest := ColumnAt(rows[1..], index);
      if rest.Err? then
        assert !AllRowsHave(rows, index + 1) by {
          var j :| 0 <= j < |rows[1..]| && |rows[1..][j]| < index + 1;
          assert |rows[j + 1]| < index + 1;
        }
        rest
      else
        var col := [rows[0][index]] + rest.value;
        assert forall j :: 1 <= j < |rows| ==> col[j] == rows[1..][j - 1][index];
        Ok(col)
  }

  /** The first `count` columns, built one after the other; the first one
      that throws ends the construction. */
  function Columns(rows: seq<seq<string>>, count: nat): (r: Result<seq<seq<string>>>)
    ensures r.Ok? <==> count == 0 || AllRowsHave(rows, count)
    ensures r.Ok? ==> |r.value| == count
    ensures r.Ok? ==> forall i, j :: 0 <= i < count && 0 <= j < |rows| ==>
      |r.value[i]| == |rows| && r.value[i][j] == rows[j][i]
  {
    if count == 0 then Ok([])
    else
      var init := Columns(rows, count - 1);
      if init.Err? then init
      else
        var c := ColumnAt(rows, count - 1);
        if c.Err? then Err(c.error)
        else Ok(init.value + [c.value])
  }

  /** The names and the columns of a table. */
  datatype Table = Table(columnNames: seq<string>, columns: seq<seq<string>>)

  /** `constructColumnsFromRows`: the first row names the columns, and there
      is one column per name, holding every row's field at that position,
      the names' row included. It throws when there is no row or a row is
      shorter than the first. */
  function ConstructColumns(rows: seq<seq<string>>): (r: Result<Table>)
    ensures r.Ok? <==> |rows| > 0 && AllRowsHave(rows, |rows[0]|)
    ensures r.Ok? ==> r.value.columnNames == rows[0] && |r.value.columns| == |rows[0]|
    ensures r.Ok? ==> forall i, j :: 0 <= i < |rows[0]| && 0 <= j < |rows| ==>
      |r.value.columns[i]| == |rows| && r.value.columns[i][j] == rows[j][i]
  {
    if rows == [] then Err(ListIndexOutOfBounds)
    else
      var names := rows[0];
      var cols := Columns(rows, |names|);
      if cols.Err? then Err(cols.error) else Ok(Table(names, cols.value))
  }

  /** Every column starts with its own name. */
  lemma ColumnsStartWithNames(rows: seq<seq<string>>)
    requires ConstructColumns(rows).Ok?
    ensures var t := ConstructColumns(rows).value;
      forall i :: 0 <= i < |t.columns| ==> |t.columns[i]| > 0 && t.columns[i][0] == t.columnNames[i]
  {
  }

  /** All rows have the same, positive, number of fields. */
  predicate Rectangular(rows: seq<seq<string>>) {
    |rows| > 0 && |rows[0]| > 0 && forall j :: 0 <= j < |rows| ==> |rows[j]| == |rows[0]|
  }

  /** Building columns is a transpose: for a rectangular table, building
      the columns of the columns gives the rows back. */
  lemma {:induction false} TransposeTwice(rows: seq<seq<string>>)
    requires Rectangular(rows)
    ensures ConstructColumns(rows).Ok?
    ensures var cols := ConstructColumns(rows).value.columns;
      ConstructColumns(cols).Ok? && ConstructColumns(cols).value.columns == rows
  {
    var cols := ConstructColumns(rows).value.columns;
    assert |cols[0]| == |rows|;
    assert AllRowsHave(cols, |cols[0]|);
    var back := ConstructColumns(cols).value.columns;
    assert |back| == |rows|;
    forall j | 0 <= j < |rows|
      ensures back[j] == rows[j]
    {
      assert |back[j]| == |cols| == |rows[j]|;
      forall i | 0 <= i < |rows[j]|
        ensures back[j][i] == rows[j][i]
      {
        assert back[j][i] == cols[i][j];
      }
    }
  }

  /** The 1-based position of the first occurrence of `x`, as `YailList.indexOf`
      reports it, or 0 when there is none. */
  function IndexOf1(xs: seq<string>, x: string): (r: nat)
    ensures r <= |xs|
    ensures r > 0 ==> xs[r - 1] == x && x !in xs[..r - 1]
    ensures r == 0 <==> x !in xs
  {
    if xs == [] then 0
    else if xs[0] == x then 1
    else
      var r := IndexOf1(xs[1..], x);
      if r == 0 then 0
      else
        assert xs[..r] == [xs[0]] + xs[1..][..r - 1];
        r + 1
  }

  /** The state the component keeps after reading a file. */
  datatype CsvState = CsvState(rows: seq<seq<string>>, columnNames: seq<string>, columns: seq<seq<string>>)

  /** `getColumn(String)`: `None` (Java's null) for a name that is not a
      column name, otherwise the column at its first position. */
  function ColumnByName(st: CsvState, name: string): (r: Result<Option<seq<string>>>)
    ensures name !in st.columnNames ==> r == Ok(None)
    ensures name in st.columnNames && |st.columns| == |st.columnNames| ==>
      r.Ok? && r.value.Some?
      && (exists i :: (0 <= i < |st.columnNames| && st.columnNames[i] == name
                       && name !in st.columnNames[..i] && r.value.value == st.columns[i]))
  {
    var index := IndexOf1(st.columnNames, name) - 1;
    if index < 0 then Ok(None)
    else if index < |st.columns| then Ok(Some(st.columns[index]))
    else Err(ListIndexOutOfBounds)
  }

  /** After a successful read, the column found by name is the named
      column: entry `j` is the field of row `j` under that name. */
  lemma ColumnByNameAfterRead(rows: seq<seq<string>>, name: string)
    requires ConstructColumns(rows).Ok?
    requires name in rows[0]
    ensures var t := ConstructColumns(rows).value;
      var r := ColumnByName(CsvState(rows, t.columnNames, t.columns), name);
      r.Ok? && r.value.Some?
      && (exists i :: (0 <= i < |rows[0]| && rows[0][i] == name && name !in rows[0][..i]
                       && forall j :: 0 <= j < |rows| ==> r.value.value[j] == rows[j][i]))
  {
  }

  /** `readCSV` after parsing: the rows are stored; when building the
      columns throws, the exception is caught, and the names and columns
      stay as they were unless the names were already taken from the
      first row. */
  function ReadParsed(st: CsvState, rows: seq<seq<string>>): (r: CsvState)
    ensures r.rows == rows
    ensures ConstructColumns(rows).Ok? ==>
      r.columnNames == ConstructColumns(rows).value.columnNames && r.columns == ConstructColumns(rows).value.columns
    ensures rows == [] ==> r.columnNames == st.columnNames && r.columns == st.columns
    ensures rows != [] ==> r.columnNames == rows[0]
    ensures ConstructColumns(rows).Err? ==> r.columns == st.columns
  {
    match ConstructColumns(rows)
    case Ok(t) => CsvState(rows, t.columnNames, t.columns)
    case Err(_) =>
      if rows == [] then st.(rows := rows) else st.(rows := rows, columnNames := rows[0])
  }
}
