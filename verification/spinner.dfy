/**
 * The selection state of the `Spinner` component: its list of items, the
 * selected text and the 1-based index of the selection (0 for none). The
 * Android adapter holds the same strings as `items`, so the item at
 * position `pos` of the adapter is `items[pos]`.
 */
module Spinner {
  import opened Wrappers
  import opened JavaText
  import opened JavaSplit

  datatype State = State(items: seq<string>, selection: string, selectionIndex: int)

  /** The state of a new spinner. */
  const Initial := State([], "", 0)

  /** The selection index names an item or is 0, and when it names one the
      selection is that item. */
  predicate Consistent(sp: State) {
    && 0 <= sp.selectionIndex <= |sp.items|
    && (sp.selectionIndex > 0 ==> sp.selection == sp.items[sp.selectionIndex - 1])
  }

  /** The 0-based position of the first item equal to `value` at or after
      `from`, if any. */
  function FirstItem(items: seq<string>, value: string, from: nat): (r: int)
    requires from <= |items|
    ensures r == -1 || from <= r < |items|
    ensures r >= 0 ==> items[r] == value && forall k :: from <= k < r ==> items[k] != value
    ensures r == -1 ==> forall k :: from <= k < |items| ==> items[k] != value
    decreases |items| - from
  {
    if from == |items| then -1
    else if items[from] == value then from
    else FirstItem(items, value, from + 1)
  }

  /** The `Selection` setter: the selection becomes `value`, and the index
      the 1-based position of the first equal item (case-sensitive), or 0. */
  function SetSelection(sp: State, value: string): (r: State)
    ensures r.items == sp.items && r.selection == value
    ensures r.selectionIndex == 0 <==> value !in sp.items
    ensures r.selectionIndex > 0 ==>
      r.selectionIndex <= |sp.items| && sp.items[r.selectionIndex - 1] == value
      && value !in sp.items[..r.selectionIndex - 1]
    ensures Consistent(r)
  {
    var i := FirstItem(sp.items, value, 0);
    if i >= 0 then sp.(selection := value, selectionIndex := i + 1)
    else sp.(selection := value, selectionIndex := 0)
  }

  /** The `SelectionIndex` setter: an index outside 1..|items| clears the
      selection; any other selects that item. */
  function SetSelectionIndex(sp: State, index: int): (r: State)
    ensures r.items == sp.items
    ensures (index <= 0 || index > |sp.items|) ==> r.selectionIndex == 0 && r.selection == ""
    ensures 1 <= index <= |sp.items| ==> r.selectionIndex == index && r.selection == sp.items[index - 1]
    ensures Consistent(r)
  {
    if index <= 0 || index > |sp.items| then sp.(selectionIndex := 0, selection := "")
    else sp.(selectionIndex := index, selection := sp.items[index - 1])
  }

  /** Setting the selection to its own value after selecting by index keeps
      the index exactly when no earlier item has the same text. */
  lemma SelectionRoundTrip(sp: State, i: int)
    requires 1 <= i <= |sp.items|
    ensures var s := SetSelectionIndex(sp, i);
      SetSelection(s, s.selection).selectionIndex == i <==> sp.items[i - 1] !in sp.items[..i - 1]
  {
    var s := SetSelectionIndex(sp, i);
    var t := SetSelection(s, s.selection);
    assert sp.items[i - 1] in sp.items;
  }

  /** The `ElementsFromString` setter: the empty string gives no items,
      any other is split at commas with the spaces around them. The
      selection is left as it is. */
  function ElementsFromString(sp: State, itemString: string): (r: State)
    ensures r.selection == sp.selection && r.selectionIndex == sp.selectionIndex
    ensures itemString == "" ==> r.items == []
    ensures forall k :: 0 <= k < |r.items| ==> ',' !in r.items[k]
  {
    if |itemString| == 0 then sp.(items := [])
    else
      SplitAvoids(itemString, SpacedComma, ',');
      sp.(items := Split(itemString, SpacedComma))
  }

  /** A list written out with ", " between its items reads back as the same
      list, provided no item has a comma or an outer space and the last is
      not empty. */
  lemma ElementsFromJoin(sp: State, items: seq<string>)
    requires |items| >= 1 && items[|items| - 1] != ""
    requires forall k :: 0 <= k < |items| ==> ',' !in items[k] && Trimmed(items[k])
    ensures ElementsFromString(sp, Join(items, ", ")).items == items
  {
    JoinLength(items, ", ");
    SplitOfSpacedJoin(items);
  }

  /** The spaces around each comma are dropped. */
  lemma ElementsFromStringExample(sp: State)
    ensures ElementsFromString(sp, "a ,b").items == ["a", "b"]
  {
    SplitOfSpacedJoinExample();
  }

  lemma SplitOfSpacedJoinExample()
    ensures Split("a ,b", SpacedComma) == ["a", "b"]
  {
    var s := "a ,b";
    assert |s| == 4 && s[0] == 'a' && s[1] == ' ' && s[2] == ',' && s[3] == 'b';
    assert MatchAt(s, 0, SpacedComma) == None;
    assert SkipSpaces(s, 1) == 2 && SkipSpaces(s, 3) == 3;
    assert MatchAt(s, 1, SpacedComma) == Some(3);
    assert MatchAt(s, 3, SpacedComma) == None;
    assert s[3..] == "b" && s[0..1] == "a";
    assert Pieces(s, SpacedComma, 3, 4) == ["b"];
    assert Pieces(s, SpacedComma, 3, 3) == ["b"];
    assert Pieces(s, SpacedComma, 0, 1) == ["a"] + ["b"];
    assert Pieces(s, SpacedComma, 0, 0) == ["a", "b"];
    DropTrailingEmptyNone(["a", "b"]);
  }

  /** `onItemSelected` as written: the adapter position `pos`, which counts
      from 0, is stored unchanged as the 1-based selection index. */
  function OnItemSelectedAsWritten(sp: State, pos: nat): (r: State)
    requires pos < |sp.items|
    ensures r.items == sp.items && r.selection == sp.items[pos]
    ensures r.selectionIndex == pos
  {
    sp.(selection := sp.items[pos], selectionIndex := pos)
  }

  /** Picking an item in the drop-down leaves the spinner inconsistent:
      picking the first of ["a", "b"] reports index 0, "nothing selected",
      and picking the second reports index 1, which names "a". */
  lemma OnItemSelectedAsWrittenInconsistent(sp: State)
    requires sp.items == ["a", "b"]
    ensures var r := OnItemSelectedAsWritten(sp, 0);
      r.selection == "a" && r.selectionIndex == 0
    ensures var r := OnItemSelectedAsWritten(sp, 1);
      r.selection == "b" && !Consistent(r)
  {
  }

  /** `onItemSelected` with the position converted to the 1-based index. */
  function OnItemSelected(sp: State, pos: nat): (r: State)
    requires pos < |sp.items|
    ensures r.items == sp.items && r.selection == sp.items[pos]
    ensures Consistent(r)
    ensures r == SetSelectionIndex(sp, pos + 1)
  {
    sp.(selection := sp.items[pos], selectionIndex := pos + 1)
  }

  /** `onNothingSelected`: no selection and index 0. */
  function OnNothingSelected(sp: State): (r: State)
    ensures r.items == sp.items && r.selection == "" && r.selectionIndex == 0
    ensures Consistent(r)
    ensures r == SetSelectionIndex(sp, 0)
  {
    sp.(selection := "", selectionIndex := 0)
  }
}
