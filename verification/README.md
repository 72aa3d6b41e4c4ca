# App Inventor string and state helpers, modelled in Dafny

This project models the pure logic of several MIT App Inventor sources and proves what that logic promises.

- **The multi-key replacer of `JavaStringUtils`** (`replaceAllMappings`, `applyMappings`, the three `MappingOrder` policies, `joinStrings`). It covers:
  - collecting the stringified keys once each, in order of first appearance, with the last value winning;
  - ordering the keys: dictionary, longest-first (a stable sort), or earliest-occurrence;
  - finding every literal occurrence of each key in the original text;
  - accepting an occurrence unless one of its endpoints is already covered;
  - splicing the replacements in, in descending order of range end.
- **The bookkeeping of `YaBlocksEditor`.** It covers:
  - `packageNameFromPath`;
  - the set of component UUIDs forwarded to the Blockly panel;
  - the drawer toggle on `selectedDrawer`;
  - the reactions to component events;
  - the static `formToBlocksEditor` registry.
- **The selection state of `Spinner`**: `Selection`, `SelectionIndex`, `ElementsFromString`, `onItemSelected` and `onNothingSelected`.
- **`CSVFile`**: the CRLF normalisation, the rows-to-columns transpose, and the two `getColumn` lookups.
- **The helpers of `CommunityLoginServlet`**: the two hex encoders and `getQueryMap`.
- **The `split` script of `i18n.py`**: `js_stringify`, `propescape`, and the per-line classification and transformation inside `split`.
- **The origin properties of `MockImageSprite`**: the "(u, v)" text, its two parsers, and the propagation between `MarkOrigin` and `OriginX`/`OriginY`.
- **`Array.toStringArray`** of the iOS component kit.

The model is purely functional. Strings are `seq<char>`, and Java's `byte` is a newtype. Every exception the code can throw is an `Err` of a `Result` (see `Wrappers`).

Three shared modules reproduce the Java library semantics the sources rely on:

- `JavaText` covers `indexOf`, `lastIndexOf`, `substring`, and literal `replace`/`replaceAll`/`replaceFirst`. It also covers the character-wise characterisations of those replacements.
- `JavaSplit` covers `String.split` on one character and on the pattern `" *, *"`, including the dropping of trailing empty strings.
- `StableSort` is a stable insertion sort, standing in for `Collections.sort`.

State that the sources keep in mutable fields is passed in and returned:

- The blocks editor's calls on its Blockly panel are returned as a list of `AreaCall`s.
- `drawerShowing()` is an input.
- `MockImageSprite`'s `changeProperty` calls are returned as a list of `Change`s.
- Parsing and printing a `double` are function parameters.

## Model

| member | source | states |
|---|---|---|
| JavaText.IndexOfFrom | appinventor/components/src/com/google/appinventor/components/runtime/util/JavaStringUtils.java:320-323 | The next match of a literal key at or after a position is the least index there where the key occurs; there is none only when the key occurs nowhere from that position on. |
| JavaText.LastIndexOf | appinventor/appengine/src/com/google/appinventor/client/editor/youngandroid/YaBlocksEditor.java:409 | `lastIndexOf('.')` finds a `.` with none after it, and reports -1 exactly when the text has no `.`. |
| JavaText.ReplaceCharIsMapChar | appinventor/appengine/src/com/google/appinventor/client/editor/youngandroid/YaBlocksEditor.java:413 | Replacing every occurrence of a one-character pattern is the same as mapping that character, character by character. |
| JavaText.ReplacePairIsDropBefore | appinventor/components/src/com/google/appinventor/components/runtime/CSVFile.java:124 | Replacing "\r\n" by "\n", scanning left to right, deletes exactly the CRs that stand before an LF and keeps every other character. |
| JavaText.ReplaceAllAbsent | appinventor/components/src/com/google/appinventor/components/runtime/CSVFile.java:124 | A replacement whose pattern does not occur returns the text unchanged. |
| JavaText.MapCharEstablishes | appinventor/misc/i18n/i18n.py:84 | After `'` is replaced by `\'`, every apostrophe is preceded by a backslash. |
| JavaText.MapCharPreserves | appinventor/misc/i18n/i18n.py:84 | Escaping a newline or a carriage return does not break "every apostrophe is preceded by a backslash". |
| JavaText.DropBeforePreserves | appinventor/misc/i18n/i18n.py:84 | Deleting the backslash before `:` or `=` does not break "every apostrophe is preceded by a backslash". |
| JavaText.JoinCons | appinventor/components/src/com/google/appinventor/components/runtime/util/JavaStringUtils.java:158-171 | An item put in front of a non-empty list is joined to the rest by exactly one separator. |
| JavaText.JoinSnoc | appinventor/components/src/com/google/appinventor/components/runtime/util/JavaStringUtils.java:158-171 | An item put at the end of a non-empty list is joined by exactly one separator, so a separator never leads or trails. |
| JavaText.JoinLength | appinventor/components/src/com/google/appinventor/components/runtime/util/JavaStringUtils.java:158-171 | A join of n items holds every item and exactly n - 1 separators. |
| JavaSplit.DropTrailingEmpty | appinventor/appengine/src/com/google/appinventor/server/CommunityLoginServlet.java:103 | `split` drops only a run of trailing empty strings: what remains is a prefix of the pieces that does not end in an empty string. |
| JavaSplit.JoinPieces | appinventor/appengine/src/com/google/appinventor/server/CommunityLoginServlet.java:103 | Joining the raw pieces of a split on a character with that character gives the text back. |
| JavaSplit.SplitAvoids | appinventor/appengine/src/com/google/appinventor/server/CommunityLoginServlet.java:103 | No piece of a split contains the delimiter character; for `" *, *"` no piece contains a comma. |
| JavaSplit.SplitTrailingDelimiter | appinventor/appengine/src/com/google/appinventor/server/CommunityLoginServlet.java:103 | One trailing delimiter on a non-empty text changes nothing, because the trailing empty piece is dropped. |
| JavaSplit.SplitOfJoin | appinventor/appengine/src/com/google/appinventor/server/CommunityLoginServlet.java:103 | Splitting a join of delimiter-free items whose last item is non-empty gives the items back. |
| JavaSplit.SplitOfSpacedJoin | appinventor/components/src/com/google/appinventor/components/runtime/Spinner.java:178 | Splitting a ", "-join on `" *, *"` gives the items back when they have no comma, no outer spaces, and a non-empty last item. |
| JavaSplit.PiecesOfSpacedJoin | appinventor/components/src/com/google/appinventor/components/runtime/Spinner.java:178 | The matcher of `" *, *"` cuts a ", "-join exactly at its separators. |
| StableSort.Sort | appinventor/components/src/com/google/appinventor/components/runtime/util/JavaStringUtils.java:54-60 | `Collections.sort` returns a permutation of its input. |
| StableSort.SortSorted | appinventor/components/src/com/google/appinventor/components/runtime/util/JavaStringUtils.java:54-60 | The sorted list is in non-decreasing order of the comparator's key. |
| StableSort.SortStable | appinventor/components/src/com/google/appinventor/components/runtime/util/JavaStringUtils.java:54-60 | The sort is stable: elements with equal keys keep their input order. |
| StableSort.SortOfSorted | appinventor/components/src/com/google/appinventor/components/runtime/util/JavaStringUtils.java:54-60 | An already sorted list is left as it is. |
| StringMappings.Collect | appinventor/components/src/com/google/appinventor/components/runtime/util/JavaStringUtils.java:237-254 | The collected key list has no duplicates, and its keys are exactly the keys of the lookup map. |
| StringMappings.CollectKeys | appinventor/components/src/com/google/appinventor/components/runtime/util/JavaStringUtils.java:246-250 | A key is listed if and only if some entry has it, and keys are listed in order of their first appearance. |
| StringMappings.CollectLastValue | appinventor/components/src/com/google/appinventor/components/runtime/util/JavaStringUtils.java:252-253 | The value looked up for a key is the value of its last entry. |
| MappingOrders.ChangeOrder | appinventor/components/src/com/google/appinventor/components/runtime/util/JavaStringUtils.java:260 | Every order policy returns a permutation of the keys. |
| MappingOrders.DictionaryOrder | appinventor/components/src/com/google/appinventor/components/runtime/util/JavaStringUtils.java:43-45 | Dictionary order leaves the key list unchanged. |
| MappingOrders.LongestFirstOrder | appinventor/components/src/com/google/appinventor/components/runtime/util/JavaStringUtils.java:51-62 | Longest-first gives a permutation in non-increasing key length that keeps the input order among keys of equal length. |
| MappingOrders.OccurrenceIndicesValue | appinventor/components/src/com/google/appinventor/components/runtime/util/JavaStringUtils.java:81-92 | The i-th key is mapped to its first index in the text, or, when absent, to the text length plus i. |
| MappingOrders.OccurrenceIndicesSize | appinventor/components/src/com/google/appinventor/components/runtime/util/JavaStringUtils.java:81-92 | The occurrence map has one entry per distinct key. |
| MappingOrders.OccurrenceIndexOfKey | appinventor/components/src/com/google/appinventor/components/runtime/util/JavaStringUtils.java:82-88 | An occurring key gets an index below the text length; an absent key gets the text length plus its position. |
| MappingOrders.EarliestPair | appinventor/components/src/com/google/appinventor/components/runtime/util/JavaStringUtils.java:94-109 | Of two keys the comparator puts in order, an occurring key never follows an absent one. Occurring keys go by first index, the longer first at equal indices. Absent keys keep their input order. |
| MappingOrders.EarliestOccurrenceOrder | appinventor/components/src/com/google/appinventor/components/runtime/util/JavaStringUtils.java:73-111 | Earliest-occurrence gives a permutation in which occurring keys come first, by first index, longer first at equal index; absent keys follow in input order. |
| JavaStringUtils.Occurrences | appinventor/components/src/com/google/appinventor/components/runtime/util/JavaStringUtils.java:313-323 | The matches of a key are occurrences, found left to right, each starting after the previous one ends. |
| JavaStringUtils.OccurrencesComplete | appinventor/components/src/com/google/appinventor/components/runtime/util/JavaStringUtils.java:319-323 | No occurrence is skipped: each one is found or overlaps one that is found. |
| JavaStringUtils.AcceptKey | appinventor/components/src/com/google/appinventor/components/runtime/util/JavaStringUtils.java:319-339 | One key's loop only adds ranges, and each added range is an occurrence of the key's length carrying the key's replacement. |
| JavaStringUtils.AcceptKeyMatches | appinventor/components/src/com/google/appinventor/components/runtime/util/JavaStringUtils.java:313-338 | Every accepted range covers an occurrence of a key in the original text and carries that key's value. |
| JavaStringUtils.AcceptKeyEndsDistinct | appinventor/components/src/com/google/appinventor/components/runtime/util/JavaStringUtils.java:329-338 | The accepted ranges never share an end. This is what makes a map keyed by the range end alone lose nothing. |
| JavaStringUtils.AcceptKeyDisjoint | appinventor/components/src/com/google/appinventor/components/runtime/util/JavaStringUtils.java:329-338 | With the intersection test, the accepted ranges stay pairwise disjoint. |
| JavaStringUtils.EndpointTestExact | appinventor/components/src/com/google/appinventor/components/runtime/util/JavaStringUtils.java:329-332 | When no accepted range is shorter than the new occurrence, testing only its two endpoints detects every overlap. |
| JavaStringUtils.AcceptKeyRulesAgree | appinventor/components/src/com/google/appinventor/components/runtime/util/JavaStringUtils.java:329-338 | Under that length condition, one key's loop accepts the same ranges with the endpoint test as with the intersection test. |
| JavaStringUtils.AcceptAllInvariants | appinventor/components/src/com/google/appinventor/components/runtime/util/JavaStringUtils.java:310-340 | Across all keys, every accepted range is an occurrence in the original text with its key's value, and no two accepted ranges share an end. |
| JavaStringUtils.AcceptAllDisjoint | appinventor/components/src/com/google/appinventor/components/runtime/util/JavaStringUtils.java:310-340 | Across all keys, the intersection test keeps the accepted ranges pairwise disjoint. |
| JavaStringUtils.AcceptAllRulesAgree | appinventor/components/src/com/google/appinventor/components/runtime/util/JavaStringUtils.java:272-280 | With the keys longest first, the endpoint test accepts exactly what the intersection test accepts, so the ranges do not overlap, as the comment claims. |
| JavaStringUtils.SpliceAppend | appinventor/components/src/com/google/appinventor/components/runtime/util/JavaStringUtils.java:349-362 | Splicing ranges that lie in a prefix of the text leaves the rest untouched and never throws. |
| JavaStringUtils.SpliceDescending | appinventor/components/src/com/google/appinventor/components/runtime/util/JavaStringUtils.java:342-362 | Disjoint ranges spliced in descending order of end never throw, and the result is built from slices of the original text only, so inserted text is never re-matched. |
| JavaStringUtils.RebuildLength | appinventor/components/src/com/google/appinventor/components/runtime/util/JavaStringUtils.java:354-361 | The output length is the text length, less the matched lengths, plus the replacement lengths. |
| JavaStringUtils.SortByEndDescending | appinventor/components/src/com/google/appinventor/components/runtime/util/JavaStringUtils.java:300-306 | Disjoint ranges with distinct ends, ordered by descending end, each lie wholly after the next one. |
| JavaStringUtils.CorrectedRanges | appinventor/components/src/com/google/appinventor/components/runtime/util/JavaStringUtils.java:291-340 | With the intersection test, the ranges handed to the splice are in descending order, disjoint, and each is a key occurrence carrying that key's value. |
| JavaStringUtils.ApplyMappings | appinventor/components/src/com/google/appinventor/components/runtime/util/JavaStringUtils.java:291-365 | `applyMappings` with the corrected acceptance does not throw. It replaces each accepted occurrence by its key's value and nothing else, with the stated length accounting. |
| JavaStringUtils.CollectedKeysNonEmpty | appinventor/components/src/com/google/appinventor/components/runtime/util/JavaStringUtils.java:243-250 | Every collected key comes from an entry, so non-empty entry keys give non-empty collected keys. |
| JavaStringUtils.OrderedKeys | appinventor/components/src/com/google/appinventor/components/runtime/util/JavaStringUtils.java:256-263 | The reordered keys are collected keys, each present in the lookup map, as `applyMappings` requires. |
| JavaStringUtils.LongestFirstAsWritten | appinventor/components/src/com/google/appinventor/components/runtime/util/JavaStringUtils.java:197-199 | In longest-first order the code as written never throws and agrees with the corrected replacer. |
| JavaStringUtils.AcceptAllAbsent | appinventor/components/src/com/google/appinventor/components/runtime/util/JavaStringUtils.java:319-320 | Keys that never occur add no ranges. |
| JavaStringUtils.NoOccurrenceUnchanged | appinventor/components/src/com/google/appinventor/components/runtime/util/JavaStringUtils.java:226-264 | A mapping none of whose keys occurs returns the text unchanged, in every order. |
| JavaStringUtils.EmptyMappingUnchanged | appinventor/components/src/com/google/appinventor/components/runtime/util/JavaStringUtils.java:226-264 | An empty mapping returns the text unchanged, in every order. |
| JavaStringUtils.EnclosureAcceptedAsWritten | appinventor/components/src/com/google/appinventor/components/runtime/util/JavaStringUtils.java:329-338 | For keys "b" then "abc" on "abc", the endpoint test accepts both [1,2) and the enclosing [0,3). |
| JavaStringUtils.EnclosureRanges | appinventor/components/src/com/google/appinventor/components/runtime/util/JavaStringUtils.java:300-306 | The end-descending order hands [0,3) to the splice before [1,2). |
| JavaStringUtils.EnclosureSplices | appinventor/components/src/com/google/appinventor/components/runtime/util/JavaStringUtils.java:349-362 | Splicing the overlapping pair either throws or rewrites text that was never matched. |
| JavaStringUtils.EnclosureThrows | appinventor/components/src/com/google/appinventor/components/runtime/util/JavaStringUtils.java:226-264 | {"b": "X", "abc": ""} on "abc" in dictionary order throws `StringIndexOutOfBoundsException` as written; the corrected replacer gives "aXc". |
| JavaStringUtils.EnclosureCorrupts | appinventor/components/src/com/google/appinventor/components/runtime/util/JavaStringUtils.java:226-264 | {"b": "", "abc": "QQQQ"} on "abcxx" gives "QQQxx" as written; the corrected replacer gives "acxx". |
| JavaStringUtils.JoinStrings | appinventor/components/src/com/google/appinventor/components/runtime/util/JavaStringUtils.java:150-171 | The loop with the `first` flag builds the join: the items with one separator between neighbours. |
| BlocksEditor.PackageNameFromPath | appinventor/appengine/src/com/google/appinventor/client/editor/youngandroid/YaBlocksEditor.java:407-414 | A package name never contains `/`. |
| BlocksEditor.PackageNameOfExtended | appinventor/appengine/src/com/google/appinventor/client/editor/youngandroid/YaBlocksEditor.java:407-414 | For "src/" + body + "." + ext, the leading "src/" and the extension are removed and every `/` in the body becomes `.`. |
| BlocksEditor.PackageNameOfSourcePath | appinventor/appengine/src/com/google/appinventor/client/editor/youngandroid/YaBlocksEditor.java:400-414 | A path "src/" + segments joined by `/` + "." + extension becomes the segments joined by `.`, as the doc comment's example says. |
| BlocksEditor.PackageNameKeepsLaterSrc | appinventor/appengine/src/com/google/appinventor/client/editor/youngandroid/YaBlocksEditor.java:408 | Only the first "src/" is removed: "src/a/src/B.x" becomes "a.src.B". |
| BlocksEditor.Add | appinventor/appengine/src/com/google/appinventor/client/editor/youngandroid/YaBlocksEditor.java:447-451 | After `addComponent` the UUID is in the set. It is forwarded to the panel exactly when it was not there before. |
| BlocksEditor.Remove | appinventor/appengine/src/com/google/appinventor/client/editor/youngandroid/YaBlocksEditor.java:453-457 | After `removeComponent` the UUID is absent. Removal is forwarded exactly when it was present. |
| BlocksEditor.AddRemoveMirrorArea | appinventor/appengine/src/com/google/appinventor/client/editor/youngandroid/YaBlocksEditor.java:102-106 | The forwarded calls keep the panel's components equal to the UUID set, and never add a present component or remove an absent one. |
| BlocksEditor.AddIdempotent | appinventor/appengine/src/com/google/appinventor/client/editor/youngandroid/YaBlocksEditor.java:447-451 | A repeated add of the same UUID changes nothing and makes no call. |
| BlocksEditor.AddThenRemove | appinventor/appengine/src/com/google/appinventor/client/editor/youngandroid/YaBlocksEditor.java:447-457 | Adding a new UUID and removing it restores the editor, after exactly one add and one remove call. |
| BlocksEditor.ShowBlocks | appinventor/appengine/src/com/google/appinventor/client/editor/youngandroid/YaBlocksEditor.java:463-504 | The drawer toggle hides the drawer and clears the selection exactly when the prefixed drawer is selected and showing. Otherwise it shows that drawer and selects it. |
| BlocksEditor.DrawerNamesDistinct | appinventor/appengine/src/com/google/appinventor/client/editor/youngandroid/YaBlocksEditor.java:464-495 | Drawer names of different kinds never coincide, whatever the instance or drawer name. |
| BlocksEditor.ShowTwiceCloses | appinventor/appengine/src/com/google/appinventor/client/editor/youngandroid/YaBlocksEditor.java:463-473 | Showing the same drawer again while it shows closes it. |
| BlocksEditor.ShowOtherKindOpens | appinventor/appengine/src/com/google/appinventor/client/editor/youngandroid/YaBlocksEditor.java:480-491 | Showing a drawer of another kind than the selected one always opens it. |
| BlocksEditor.HideComponentBlocks | appinventor/appengine/src/com/google/appinventor/client/editor/youngandroid/YaBlocksEditor.java:475-478 | `hideComponentBlocks` hides the drawer and clears the selected drawer, changing nothing else. |
| BlocksEditor.HideBuiltinBlocks | appinventor/appengine/src/com/google/appinventor/client/editor/youngandroid/YaBlocksEditor.java:506-508 | `hideBuiltinBlocks` hides the drawer but leaves the selected drawer as it was. |
| BlocksEditor.HideThenShow | appinventor/appengine/src/com/google/appinventor/client/editor/youngandroid/YaBlocksEditor.java:475-508 | After `hideComponentBlocks` the next show always opens. After `hideBuiltinBlocks` the stale selection makes a show of the same drawer close it when the panel still reports a drawer showing. |
| BlocksEditor.OnComponentAdded | appinventor/appengine/src/com/google/appinventor/client/editor/youngandroid/YaBlocksEditor.java:562-568 | An added component's UUID joins the set, and the source structure is refreshed exactly when loading is complete. |
| BlocksEditor.OnComponentRemoved | appinventor/appengine/src/com/google/appinventor/client/editor/youngandroid/YaBlocksEditor.java:547-554 | Only a permanent deletion removes the UUID, and it refreshes the source structure when loading is complete. |
| BlocksEditor.OnComponentRenamed | appinventor/appengine/src/com/google/appinventor/client/editor/youngandroid/YaBlocksEditor.java:576-584 | A rename is always forwarded first. After loading it also hides the drawer and clears the selected drawer; before loading nothing else happens. |
| BlocksEditor.FinishLoad | appinventor/appengine/src/com/google/appinventor/client/editor/youngandroid/YaBlocksEditor.java:184-185 | The end of loading marks the editor loaded with no drawer selected and keeps its components. |
| BlocksEditor.LongToString | appinventor/appengine/src/com/google/appinventor/client/editor/youngandroid/YaBlocksEditor.java:117 | A printed project id contains no `_`. |
| BlocksEditor.LongToStringInjective | appinventor/appengine/src/com/google/appinventor/client/editor/youngandroid/YaBlocksEditor.java:117 | `Long.toString` prints different project ids differently: the sign is the leading `-` and the magnitude its digits. |
| BlocksEditor.FullFormNameInjective | appinventor/appengine/src/com/google/appinventor/client/editor/youngandroid/YaBlocksEditor.java:117 | Equal registry keys `projectId_formName` mean equal project ids and equal form names. |
| BlocksEditor.Open | appinventor/appengine/src/com/google/appinventor/client/editor/youngandroid/YaBlocksEditor.java:117-118 | The constructor registers a new editor under its full form name and leaves every other entry alone. |
| BlocksEditor.Close | appinventor/appengine/src/com/google/appinventor/client/editor/youngandroid/YaBlocksEditor.java:265-270 | `onClose` drops exactly its own entry from the registry. |
| BlocksEditor.SetBlocksDamaged | appinventor/appengine/src/com/google/appinventor/client/editor/youngandroid/YaBlocksEditor.java:653-658 | `setBlocksDamaged` marks only the named editor damaged, and changes nothing for an unregistered name. |
| BlocksEditor.LoadInRegistry | appinventor/appengine/src/com/google/appinventor/client/editor/youngandroid/YaBlocksEditor.java:177-185 | After loading, the editor is loaded with no drawer selected, and it is damaged exactly when it was before or the load failed. |
| BlocksEditor.RegistryIndependence | appinventor/appengine/src/com/google/appinventor/client/editor/youngandroid/YaBlocksEditor.java:117-118 | Opening another form of the same project leaves a registered editor alone, and a closed editor can no longer be marked damaged. |
| Spinner.SetSelection | appinventor/components/src/com/google/appinventor/components/runtime/Spinner.java:90-104 | The selection becomes the value. The index is 1 plus the first position of an equal item (case-sensitive), or 0 exactly when no item equals it. |
| Spinner.SetSelectionIndex | appinventor/components/src/com/google/appinventor/components/runtime/Spinner.java:124-133 | An index outside 1..size gives index 0 and selection ""; any other gives that index and the item it names. |
| Spinner.SelectionRoundTrip | appinventor/components/src/com/google/appinventor/components/runtime/Spinner.java:90-133 | After a valid `SelectionIndex(i)`, setting `Selection` to the current selection keeps index i exactly when no earlier item is equal. |
| Spinner.ElementsFromString | appinventor/components/src/com/google/appinventor/components/runtime/Spinner.java:173-182 | An empty string gives no items; no item ever contains a comma; the selection is left as it was. |
| Spinner.ElementsFromJoin | appinventor/components/src/com/google/appinventor/components/runtime/Spinner.java:173-182 | The items of a ", "-join of trimmed, comma-free items with a non-empty last item are those items. |
| Spinner.ElementsFromStringExample | appinventor/components/src/com/google/appinventor/components/runtime/Spinner.java:178 | "a ,b" gives the items "a" and "b". |
| Spinner.OnItemSelectedAsWritten | appinventor/components/src/com/google/appinventor/components/runtime/Spinner.java:222-226 | As written, the selection is the picked item and the index is the 0-based adapter position. |
| Spinner.OnItemSelectedAsWrittenInconsistent | appinventor/components/src/com/google/appinventor/components/runtime/Spinner.java:222-226 | Picking the first of ["a", "b"] reports index 0 ("nothing selected"). Picking the second reports index 1, which names "a". |
| Spinner.OnItemSelected | appinventor/components/src/com/google/appinventor/components/runtime/Spinner.java:222-226 | With the position converted to the 1-based index, a pick is the same as `SelectionIndex(pos + 1)` and leaves the state consistent. |
| Spinner.OnNothingSelected | appinventor/components/src/com/google/appinventor/components/runtime/Spinner.java:236-240 | `onNothingSelected` is `SelectionIndex(0)`: selection "" and index 0. |
| CsvFile.NormalizeLineEndings | appinventor/components/src/com/google/appinventor/components/runtime/CSVFile.java:124 | The normalisation deletes exactly the CRs that stand before an LF and leaves every other character untouched. |
| CsvFile.NormalizeWithoutCarriageReturn | appinventor/components/src/com/google/appinventor/components/runtime/CSVFile.java:124 | A text without a CR is left as it is. |
| CsvFile.NormalizeShrinks | appinventor/components/src/com/google/appinventor/components/runtime/CSVFile.java:124 | The normalisation never lengthens the text and introduces no character. |
| CsvFile.NormalizeNotIdempotent | appinventor/components/src/com/google/appinventor/components/runtime/CSVFile.java:124 | One pass maps CR CR LF to CR LF, so a second pass would still change it. |
| CsvFile.ColumnAt | appinventor/components/src/com/google/appinventor/components/runtime/CSVFile.java:274-286 | `getColumn(i)` succeeds exactly when every row has more than i fields; then it holds one entry per row, entry j being row j's i-th field. |
| CsvFile.Columns | appinventor/components/src/com/google/appinventor/components/runtime/CSVFile.java:260-262 | The first n columns are built exactly when every row has at least n fields, and column i, entry j, is row j's i-th field. |
| CsvFile.ConstructColumns | appinventor/components/src/com/google/appinventor/components/runtime/CSVFile.java:248-265 | The column names are the first row, there is one column per name, and `columns[i][j] == rows[j][i]`. It throws when there is no row or a row is shorter than the first. |
| CsvFile.ColumnsStartWithNames | appinventor/components/src/com/google/appinventor/components/runtime/CSVFile.java:248-265 | Every column starts with its own name. |
| CsvFile.TransposeTwice | appinventor/components/src/com/google/appinventor/components/runtime/CSVFile.java:248-286 | For a rectangular table, building the columns of the columns gives the rows back. |
| CsvFile.IndexOf1 | appinventor/components/src/com/google/appinventor/components/runtime/CSVFile.java:234 | The 1-based `indexOf` points at the first equal element, and is 0 exactly when there is none. |
| CsvFile.ColumnByName | appinventor/components/src/com/google/appinventor/components/runtime/CSVFile.java:230-242 | `getColumn(name)` is null for a name that is not a column name, and otherwise the column at the name's first position. |
| CsvFile.ColumnByNameAfterRead | appinventor/components/src/com/google/appinventor/components/runtime/CSVFile.java:230-265 | After a successful read, the column found by name holds, for each row j, row j's field under that name. |
| CsvFile.ReadParsed | appinventor/components/src/com/google/appinventor/components/runtime/CSVFile.java:124-135 | The rows are stored. On success the names and columns are rebuilt from them. When construction throws, the exception is caught and the old columns stay. |
| CommunityLogin.Unsigned | appinventor/appengine/src/com/google/appinventor/server/CommunityLoginServlet.java:82 | `%x` reads a byte as the unsigned value congruent to it modulo 256. |
| CommunityLogin.HexByte | appinventor/appengine/src/com/google/appinventor/server/CommunityLoginServlet.java:82 | `%02x` gives exactly two lowercase digits, the high nibble first. |
| CommunityLogin.ConvertBytesToHex | appinventor/appengine/src/com/google/appinventor/server/CommunityLoginServlet.java:79-85 | The output has length 2n, and characters 2i and 2i+1 encode byte i. |
| CommunityLogin.ToHexString | appinventor/appengine/src/com/google/appinventor/server/CommunityLoginServlet.java:94-100 | The `Formatter` version returns the same string as `convertBytesToHex` for every byte array. |
| CommunityLogin.HexAt | appinventor/appengine/src/com/google/appinventor/server/CommunityLoginServlet.java:79-85 | Characters 2i and 2i+1 of the encoding are the two digits of byte i. |
| CommunityLogin.HexIsLowercase | appinventor/appengine/src/com/google/appinventor/server/CommunityLoginServlet.java:79-85 | Every character of the encoding is a lowercase hexadecimal digit. |
| CommunityLogin.HexRoundTrip | appinventor/appengine/src/com/google/appinventor/server/CommunityLoginServlet.java:79-85 | The encoding loses nothing: reading the digit pairs back gives the signed bytes. |
| CommunityLogin.HexExamples | appinventor/appengine/src/com/google/appinventor/server/CommunityLoginServlet.java:82 | The bytes -1 and 10 encode as "ff0a". |
| CommunityLogin.ParamPair | appinventor/appengine/src/com/google/appinventor/server/CommunityLoginServlet.java:107-108 | A part's name and value contain no `=`, and the only exception is `ArrayIndexOutOfBoundsException`. |
| CommunityLogin.AllOk | appinventor/appengine/src/com/google/appinventor/server/CommunityLoginServlet.java:105-110 | The loop succeeds exactly when every part does. It keeps the parts in order, and stops with the first part's exception. |
| CommunityLogin.Pairs | appinventor/appengine/src/com/google/appinventor/server/CommunityLoginServlet.java:105-110 | There is one name-value pair per part, in order, unless some part throws. |
| CommunityLogin.CollectEntries | appinventor/appengine/src/com/google/appinventor/server/CommunityLoginServlet.java:104-110 | The map has one entry per distinct name, and a later part with the same name overwrites an earlier one. |
| CommunityLogin.QueryMapEntries | appinventor/appengine/src/com/google/appinventor/server/CommunityLoginServlet.java:101-112 | When every part splits, `getQueryMap` succeeds with one entry per distinct name, holding the last part's value. |
| CommunityLogin.ParamPairOfJoin | appinventor/appengine/src/com/google/appinventor/server/CommunityLoginServlet.java:107-108 | A part "a=b=c" maps name a to b: the value is the text between the first and second `=`. |
| CommunityLogin.ParamPairOfNameValue | appinventor/appengine/src/com/google/appinventor/server/CommunityLoginServlet.java:107-108 | A part name=value with `=`-free name and non-empty `=`-free value gives that name and value. |
| CommunityLogin.ParamPairWithoutValue | appinventor/appengine/src/com/google/appinventor/server/CommunityLoginServlet.java:107-108 | A part without `=`, or with an empty value, throws. |
| CommunityLogin.EmptyQueryThrows | appinventor/appengine/src/com/google/appinventor/server/CommunityLoginServlet.java:103-108 | The empty query throws, since it splits into one empty part. |
| CommunityLogin.TrailingAmpersandIgnored | appinventor/appengine/src/com/google/appinventor/server/CommunityLoginServlet.java:103 | A single trailing `&` on a non-empty query is ignored. |
| CommunityLogin.QueryMapOfJoin | appinventor/appengine/src/com/google/appinventor/server/CommunityLoginServlet.java:101-112 | A query built as name=value parts joined by `&` succeeds, and its parts read back as the names and values. |
| I18n.JsStringify | appinventor/misc/i18n/i18n.py:83-84 | The output starts and ends with an apostrophe, contains no raw newline or CR, and every apostrophe of its body is preceded by a backslash. |
| I18n.JsStringifyUnescapes | appinventor/misc/i18n/i18n.py:84 | On a text without apostrophes or line breaks, `js_stringify` only quotes it and drops the backslashes before `:` and `=`. |
| I18n.JsStringifyPlain | appinventor/misc/i18n/i18n.py:84 | A text without apostrophes, line breaks or backslashes is only quoted. |
| I18n.JsStringifyOfDoubled | appinventor/misc/i18n/i18n.py:84 | `js_stringify` collapses doubled apostrophes before escaping, so a doubled value comes out with each original apostrophe escaped once. |
| I18n.PropEscape | appinventor/misc/i18n/i18n.py:140-141 | In the output every `:` and `=` is preceded by a backslash, and every maximal run of apostrophes has even length. |
| I18n.PropEscapePlain | appinventor/misc/i18n/i18n.py:141 | A text with nothing to escape is returned unchanged. |
| I18n.EvenRunsMaximal | appinventor/misc/i18n/i18n.py:141 | Under the even-runs property, every maximal run of apostrophes has even length. |
| I18n.DoubleApostrophes | appinventor/misc/i18n/i18n.py:128 | Doubling apostrophes gives even runs, never shortens the text, and keeps the set of characters. |
| I18n.UndoubleApostrophes | appinventor/misc/i18n/i18n.py:128 | Collapsing `''` to `'` undoes the doubling. |
| I18n.Strip | appinventor/misc/i18n/i18n.py:119 | `strip()` leaves no whitespace at either end. |
| I18n.StripStripped | appinventor/misc/i18n/i18n.py:119 | A text without outer whitespace is left as it is. |
| I18n.StripChars | appinventor/misc/i18n/i18n.py:119 | `strip()` introduces no character. |
| I18n.RemoveSpaces | appinventor/misc/i18n/i18n.py:127 | `''.join(s.split())` keeps exactly the non-whitespace characters. |
| I18n.RemoveSpacesNone | appinventor/misc/i18n/i18n.py:127 | A text without whitespace is left as it is. |
| I18n.SplitOnce | appinventor/misc/i18n/i18n.py:119 | `split(' = ', 1)` gives one piece exactly when the separator does not occur. Otherwise it gives the parts before and after its first occurrence. |
| I18n.SplitOnceAt | appinventor/misc/i18n/i18n.py:119 | Splitting a + sep + b where a cannot start a separator gives a and b. |
| I18n.CompactKeyExamples | appinventor/misc/i18n/i18n.py:122-126 | A property-list key has its whitespace removed; a palette name does not. |
| I18n.OdeEntry | appinventor/misc/i18n/i18n.py:118-129 | A designer entry needs a ` = ` or raises `IndexError`. Its key is stripped; its value, once undoubled, is the stripped value, with whitespace removed for the compact keys; its apostrophes are doubled. |
| I18n.OdeEntryOfPair | appinventor/misc/i18n/i18n.py:118-129 | "key = value" with a plain key gives that key and the value with doubled apostrophes. |
| I18n.BlocklyEntry | appinventor/misc/i18n/i18n.py:131-135 | A blocks editor message needs a `=` after its 13-character prefix, or it raises `IndexError`. Its name is the stripped text before the first `=`, so it holds no `=`. Its value is `js_stringify` of the stripped rest: a quoted literal with no raw line break and every apostrophe escaped. |
| I18n.BlocklyEntryOfPair | appinventor/misc/i18n/i18n.py:131-135 | A message "key=value" after any 13-character prefix, with a stripped `=`-free key and a stripped value, reads back as that key and `js_stringify(value)`. |
| I18n.SplitLine | appinventor/misc/i18n/i18n.py:104-136 | Short and switchTo lines change nothing. Comments accumulate. An entry writes the pending comments and then itself. A message writes only to the blocks editor output. |
| I18n.SkippedLines | appinventor/misc/i18n/i18n.py:105-113 | Lines of length at most 2 and switchTo lines produce no output at all. |
| I18n.CommentsCollect | appinventor/misc/i18n/i18n.py:107-111 | Consecutive comment lines are concatenated into the pending description. |
| I18n.CommentsBeforeEntry | appinventor/misc/i18n/i18n.py:107-117 | Comments are written once, before the next entry, and not again before the entry after it. |
| I18n.EntryLine | appinventor/misc/i18n/i18n.py:114-129 | An entry line writes the pending comments and then "key = value" and a blank line. |
| I18n.SplitLinesAppend | appinventor/misc/i18n/i18n.py:104-136 | Processing two runs of lines in turn is processing their concatenation, with the first error ending the run. |
| ImageSprite.CommaIndex | appinventor/appengine/src/com/google/appinventor/client/editor/simple/components/MockImageSprite.java:97 | `indexOf(",")` is the first comma's index, and -1 exactly when there is no comma. |
| ImageSprite.GetU | appinventor/appengine/src/com/google/appinventor/client/editor/simple/components/MockImageSprite.java:96-98 | The u part is the text from index 1 up to the first comma. It throws when there is no comma or the comma comes first. |
| ImageSprite.GetV | appinventor/appengine/src/com/google/appinventor/client/editor/simple/components/MockImageSprite.java:100-102 | The v part is the text from two past the first comma up to the last character, and it throws when those bounds cross. |
| ImageSprite.GetVWithoutComma | appinventor/appengine/src/com/google/appinventor/client/editor/simple/components/MockImageSprite.java:100-102 | Without a comma, `indexOf` gives -1 and the v part starts at index 1: "(1.5)" gives "1.5". |
| ImageSprite.OriginRoundTrip | appinventor/appengine/src/com/google/appinventor/client/editor/simple/components/MockImageSprite.java:96-107 | Reading "(su, sv)" back gives su and sv whenever su has no comma. |
| ImageSprite.OnPropertyChange | appinventor/appengine/src/com/google/appinventor/client/editor/simple/components/MockImageSprite.java:118-137 | `OriginX`/`OriginY` update their number and rewrite `MarkOrigin` from both. `MarkOrigin` sets `OriginX` then `OriginY`, stopping at the first part that throws. Other properties leave the origin alone. |
| ImageSprite.OriginPropagates | appinventor/appengine/src/com/google/appinventor/client/editor/simple/components/MockImageSprite.java:127-135 | The `MarkOrigin` text written after an `OriginX` or `OriginY` change hands the printed u and v back without an exception. |
| ImageSprite.MarkOriginSplits | appinventor/appengine/src/com/google/appinventor/client/editor/simple/components/MockImageSprite.java:133-135 | Setting `MarkOrigin` to "(su, sv)" sets `OriginX` to su and `OriginY` to sv. |
| StringArray.Texts | appinventor/components-ios/AIComponentKit/Array+AIHelpers.swift:19-23 | Every element is copied as its string, in order. |
| StringArray.FirstSymbol | appinventor/components-ios/AIComponentKit/Array+AIHelpers.swift:16-18 | The position of the first symbol, with no symbol before it, and none exactly when the array holds no symbol. |
| StringArray.ToStringArray | appinventor/components-ios/AIComponentKit/Array+AIHelpers.swift:13-26 | The loop copies every element's string except the first symbol's, wherever it stands. |
| StringArray.ToStringArrayIsSkipFirstSymbol | appinventor/components-ios/AIComponentKit/Array+AIHelpers.swift:13-26 | The loop agrees with the reference definition "all strings but the first symbol's". |
| StringArray.HeaderOmitted | appinventor/components-ios/AIComponentKit/Array+AIHelpers.swift:16-18 | A leading symbol is omitted and everything after it is copied. |
| StringArray.AtMostOneDropped | appinventor/components-ios/AIComponentKit/Array+AIHelpers.swift:15-18 | At most one element is dropped, and one is dropped exactly when the array holds a symbol. |
| StringArray.KeptInOrder | appinventor/components-ios/AIComponentKit/Array+AIHelpers.swift:19-23 | Strings are copied verbatim, and the kept elements keep their relative order. |
| StringArray.AllStringsCopied | appinventor/components-ios/AIComponentKit/Array+AIHelpers.swift:7-9 | An array of strings only is copied as it is. |
| StringArray.LaterSymbolDropped | appinventor/components-ios/AIComponentKit/Array+AIHelpers.swift:15-18 | Without a header, a later symbol is lost: ["a", b] with b a symbol gives ["a"]. |
| StringArray.SkipHeaderKeepsLaterSymbols | appinventor/components-ios/AIComponentKit/Array+AIHelpers.swift:17 | Skipping only a symbol at position 0 keeps every later element, and agrees with the loop whenever the array starts with its header. |

## Left out

- **Guava and `java.util.regex` in `applyMappings`.** `Pattern.quote` matching is modelled as literal search. `TreeRangeSet` is a list of accepted ranges. The `TreeMap` ordered by range end is a stable sort by descending end.
- JavaStringUtils.ApplyMappings requires non-empty keys, as do its companions. An empty key's behaviour depends on regex empty matches and on Guava's empty ranges, which are not modelled.
- **How the keys and values are stringified.** `toString()` on the mapping's objects is not modelled: entries arrive as a list of string pairs in the map's iteration order.
- **`Log.i` in `joinStrings`.** It sits behind the constant `DEBUG = false`.
- **GWT and Blockly glue in `YaBlocksEditor`.** This covers:
  - the asynchronous `loadFile` RPC and window resizing;
  - the XML parsing of block type sets;
  - the JSNI natives;
  - form JSON upgrading;
  - `toggleWarning`.
  The panel's behaviour beyond the calls made on it is not modelled. `drawerShowing()` is an input.
- BlocksEditor.LongToString models `Long.toString` on an unbounded integer; the 64-bit range of a project id is not enforced.
- **`Spinner`'s `ArrayAdapter` calls and event dispatch.** The adapter is taken to hold the same strings as `items`.
- **Reading the CSV file.** This covers the stream reading, `CsvUtil.fromCsvTable` parsing (the rows are an input), permissions, the executor, and `waitUntilReadingDone`.
- CsvFile.ReadParsed: the `YailList` class is not part of this model. Rows are sequences of sequences of strings, and its 1-based `indexOf` and throwing `getObject`/`getString` are modelled directly.
- **`calculateHMAC` and `doGet` of `CommunityLoginServlet`.** These are `javax.crypto` and servlet I/O.
- **The file I/O of `i18n.py`.** This covers opening and writing the files, the header and footer text, `combine`, `read_block_translations` and `tmx_merge`. `split` is modelled as a function from the lines to the two outputs. The partial output already written before an `IndexError` is not modelled.
- I18n.IsSpace: whitespace follows Python 3's `str.isspace`; Python 2's byte-string `strip()` and `split()` would treat only ASCII whitespace.
- **`MockImageSprite`:**
  - the x/y/z setters and offset rounding of `MockImageBase`;
  - `super.onPropertyChange`;
  - canvas refreshing.
  `Double.parseDouble` and `Double.toString` are parameters, so floating point is not modelled.
- ImageSprite.GetU, ImageSprite.GetV and ImageSprite.CommaIndex count indices in characters, not in UTF-16 code units. Java's `indexOf` and `substring` count code units, so a character outside the Basic Multilingual Plane before or at the cut offsets (1, comma + 2, `length() - 1`) is cut differently: in Java `getUFromOrigin` on "😀a,b)" returns a lone low surrogate and "a", while the model returns "a". The same holds for every index the `JavaText` primitives compute.
- **`String(describing:)` in `toStringArray`.** An element's description is part of the element; Swift's printing is not modelled.

## Findings

| source | as written | input that shows it | evidently intended | confidence | as-written member | corrected member |
|---|---|---|---|---|---|---|
| appinventor/components/src/com/google/appinventor/components/runtime/util/JavaStringUtils.java:329-338 | An occurrence is rejected only when its first or last index is covered, so a later, longer key can enclose an accepted range | text "abc" with mapping {"b": "X", "abc": ""} in dictionary order: `substring` throws; text "abcxx" with {"b": "", "abc": "QQQQ"} gives "QQQxx" | reject every occurrence that overlaps an accepted range, so that no ranges overlap, as the comment at lines 272-280 says | not executed; high | JavaStringUtils.EnclosureThrows | JavaStringUtils.ApplyMappings |
| appinventor/components/src/com/google/appinventor/components/runtime/Spinner.java:222-226 | The 0-based adapter position is stored as the 1-based `selectionIndex` | items ["a", "b"], picking "b" (pos 1): Selection "b" but SelectionIndex 1, which names "a"; picking "a" gives index 0, "nothing selected" | `selectionIndex = pos + 1`, as `SelectionIndex` counts from 1 (lines 109-113, 128-131) | not executed; medium | Spinner.OnItemSelectedAsWrittenInconsistent | Spinner.OnItemSelected |
| appinventor/components-ios/AIComponentKit/Array+AIHelpers.swift:15-18 | `first` is cleared only when a symbol is skipped, so the first symbol anywhere is dropped | ["a", b] with b a symbol gives ["a"] | skip only the `*list*` header, a symbol at position 0, and copy every other element | not executed; medium | StringArray.LaterSymbolDropped | StringArray.SkipHeaderKeepsLaterSymbols |
