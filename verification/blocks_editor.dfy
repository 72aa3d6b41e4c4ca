/**
 * The bookkeeping of `YaBlocksEditor`, the blocks editor of one form: the
 * conversion of a source path to a package name, the set of component
 * UUIDs it has forwarded to the blocks area, the drawer it believes is
 * open, and the static registry from `projectId_formName` to editors.
 *
 * The Blockly panel is foreign code: every call the editor makes on it is
 * returned as an `AreaCall`, in order, and `drawerShowing()` is an input.
 */
module BlocksEditor {
  import opened Wrappers
  import opened JavaText

  // ---------------------------------------------------------------------
  // packageNameFromPath

  /** `packageNameFromPath`: drop the first `src/`, cut at the last `.`,
      then turn every `/` into `.`. */
  function PackageNameFromPath(path: string): (r: string)
    ensures '/' !in r
  {
    var p := ReplaceFirst(path, "src/", "");
    var p := match LastIndexOf(p, '.')
      case Some(i) => p[..i]
      case None => p;
    MapCharAbsent(p, '/', ".", '/');
    MapChar(p, '/', ".")
  }

  /** Neither `/` nor `.` occurs in `s`. */
  predicate PlainSegment(s: string) {
    '/' !in s && '.' !in s
  }

  /** Segments joined by `c` and then mapped from `c` to `rep` are the same
      segments joined by `rep`. */
  lemma {:induction false} MapCharJoin(segments: seq<string>, c: char, rep: string)
    requires forall i :: 0 <= i < |segments| ==> c !in segments[i]
    ensures MapChar(Join(segments, [c]), c, rep) == Join(segments, rep)
    decreases |segments|
  {
    if |segments| == 1 {
      MapCharNone(segments[0], c, rep);
    } else if |segments| > 1 {
      var tail := Join(segments[1..], [c]);
      MapCharJoin(segments[1..], c, rep);
      MapCharAppend(segments[0] + [c], tail, c, rep);
      MapCharAppend(segments[0], [c], c, rep);
      MapCharNone(segments[0], c, rep);
      assert MapChar([c], c, rep) == rep by {
        assert [c][1..] == [];
      }
      assert Join(segments, [c]) == (segments[0] + [c]) + tail;
    }
  }

  /** A join of segments without `c` has no `c`. */
  lemma {:induction false} JoinAvoids(segments: seq<string>, sep: string, c: char)
    requires c !in sep
    requires forall i :: 0 <= i < |segments| ==> c !in segments[i]
    ensures c !in Join(segments, sep)
    decreases |segments|
  {
    if |segments| > 1 {
      JoinAvoids(segments[1..], sep, c);
    }
  }

  /** A path that starts with `src/` loses exactly that prefix. */
  lemma ReplaceFirstSrc(rest: string)
    ensures ReplaceFirst("src/" + rest, "src/", "") == rest
  {
    var path := "src/" + rest;
    assert path[0..4] == "src/";
    assert IndexOf(path, "src/") == Some(0);
    assert path[..0] + "" + path[4..] == rest;
  }

  /** The last `.` of `body.ext`, for an extension without dots. */
  lemma LastDot(body: string, ext: string)
    requires '.' !in ext
    ensures LastIndexOf(body + "." + ext, '.') == Some(|body|)
  {
    var p := body + "." + ext;
    assert p[|body|] == '.';
    var r := LastIndexOf(p, '.');
    assert r.Some?;
  }

  /** A path `src/body.ext` whose extension has no `.` loses the prefix and
      the extension before its `/` are mapped. */
  lemma PackageNameOfExtended(body: string, ext: string)
    requires '.' !in ext
    ensures PackageNameFromPath("src/" + (body + "." + ext)) == MapChar(body, '/', ".")
  {
    var rest := body + "." + ext;
    LastDot(body, ext);
    ReplaceFirstSrc(rest);
    assert rest[..|body|] == body;
  }

  /** The documented conversion: `src/` followed by directories and a file
      name with one extension gives the directories and the name joined by
      dots. */
  lemma PackageNameOfSourcePath(segments: seq<string>, ext: string)
    requires |segments| > 0
    requires forall i :: 0 <= i < |segments| ==> PlainSegment(segments[i])
    requires '.' !in ext
    ensures PackageNameFromPath("src/" + Join(segments, "/") + "." + ext) == Join(segments, ".")
  {
    var body := Join(segments, "/");
    assert "src/" + body + "." + ext == "src/" + (body + "." + ext);
    PackageNameOfExtended(body, ext);
    assert forall i :: 0 <= i < |segments| ==> '/' !in segments[i];
    MapCharJoin(segments, '/', ".");
  }

  /** Only the first `src/` is removed: a later one stays in the package. */
  lemma PackageNameKeepsLaterSrc()
    ensures PackageNameFromPath("src/a/src/B.x") == "a.src.B"
  {
    var segments := ["a", "src", "B"];
    LaterSrcSegments();
    assert "src/a/src/B.x" == "src/" + "a/src/B" + "." + "x";
    PackageNameOfSourcePath(segments, "x");
  }

  lemma LaterSrcSegments()
    ensures var segments := ["a", "src", "B"];
      && (forall i :: 0 <= i < |segments| ==> PlainSegment(segments[i]))
      && Join(segments, "/") == "a/src/B"
      && Join(segments, ".") == "a.src.B"
  {
    JoinCons("src", ["B"], "/");
    JoinCons("a", ["src", "B"], "/");
    JoinCons("src", ["B"], ".");
    JoinCons("a", ["src", "B"], ".");
    assert ["src"] + ["B"] == ["src", "B"] && ["a"] + ["src", "B"] == ["a", "src", "B"];
  }

  // ---------------------------------------------------------------------
  // One editor

  /** The calls the editor makes on its Blockly panel and on the source
      structure explorer. */
  datatype AreaCall =
    | AddComponent(uuid: string, instanceName: string, typeName: string)
    | RemoveComponent(uuid: string)
    | RenameComponent(uuid: string, oldName: string, newName: string)
    | ShowComponentBlocks(instanceName: string)
    | ShowBuiltinBlocks(drawerName: string)
    | ShowGenericBlocks(drawerName: string)
    | HideDrawer
    | UpdateSourceStructure

  /** The fields of a `YaBlocksEditor` that its logic reads and writes. */
  datatype Editor = Editor(
    componentUuids: set<string>,
    selectedDrawer: Option<string>,
    loadComplete: bool,
    damaged: bool)

  /** A new editor: nothing forwarded, no drawer, not loaded. */
  const NewEditor := Editor({}, None, false, false)

  /** The editor after an operation, and the calls it made, in order. */
  datatype Step = Step(editor: Editor, calls: seq<AreaCall>)

  /** `addComponent`: the component is forwarded only if its UUID is new. */
  function Add(e: Editor, typeName: string, instanceName: string, uuid: string): (s: Step)
    ensures s.editor == e.(componentUuids := e.componentUuids + {uuid})
    ensures uuid !in e.componentUuids <==> s.calls == [AddComponent(uuid, instanceName, typeName)]
    ensures uuid in e.componentUuids <==> s.calls == []
  {
    if uuid !in e.componentUuids then
      Step(e.(componentUuids := e.componentUuids + {uuid}), [AddComponent(uuid, instanceName, typeName)])
    else Step(e, [])
  }

  /** `removeComponent`: the removal is forwarded only if the UUID was known. */
  function Remove(e: Editor, typeName: string, instanceName: string, uuid: string): (s: Step)
    ensures s.editor == e.(componentUuids := e.componentUuids - {uuid})
    ensures uuid in e.componentUuids <==> s.calls == [RemoveComponent(uuid)]
    ensures uuid !in e.componentUuids <==> s.calls == []
  {
    if uuid in e.componentUuids then
      Step(e.(componentUuids := e.componentUuids - {uuid}), [RemoveComponent(uuid)])
    else Step(e, [])
  }

  /** The set of components the blocks area holds after it receives `calls`. */
  function AreaComponents(area: set<string>, calls: seq<AreaCall>): set<string>
    decreases |calls|
  {
    if calls == [] then area
    else
      var area := match calls[0]
        case AddComponent(uuid, _, _) => area + {uuid}
        case RemoveComponent(uuid) => area - {uuid}
        case _ => area;
      AreaComponents(area, calls[1..])
  }

  /** `calls` never adds a component the area already holds and never
      removes one it does not hold. */
  predicate NoRedundantCalls(area: set<string>, calls: seq<AreaCall>)
    decreases |calls|
  {
    if calls == [] then true
    else match calls[0]
      case AddComponent(uuid, _, _) => uuid !in area && NoRedundantCalls(area + {uuid}, calls[1..])
      case RemoveComponent(uuid) => uuid in area && NoRedundantCalls(area - {uuid}, calls[1..])
      case _ => NoRedundantCalls(area, calls[1..])
  }

  /** The editor's UUID set mirrors the blocks area: starting from the same
      set, an add or a remove leaves them the same again, and the area is
      never asked to add twice or to remove what it does not have. */
  lemma AddRemoveMirrorArea(e: Editor, typeName: string, instanceName: string, uuid: string)
    ensures var s := Add(e, typeName, instanceName, uuid);
      AreaComponents(e.componentUuids, s.calls) == s.editor.componentUuids
      && NoRedundantCalls(e.componentUuids, s.calls)
    ensures var s := Remove(e, typeName, instanceName, uuid);
      AreaComponents(e.componentUuids, s.calls) == s.editor.componentUuids
      && NoRedundantCalls(e.componentUuids, s.calls)
  {
    var a := Add(e, typeName, instanceName, uuid);
    if uuid !in e.componentUuids {
      assert a.calls[1..] == [];
    }
    var r := Remove(e, typeName, instanceName, uuid);
    if uuid in e.componentUuids {
      assert r.calls[1..] == [];
    }
  }

  /** A second add of the same UUID, as when a component moves between
      containers, changes nothing and calls nothing. */
  lemma AddIdempotent(e: Editor, typeName: string, instanceName: string, uuid: string,
                      typeName2: string, instanceName2: string)
    ensures var s := Add(e, typeName, instanceName, uuid);
      Add(s.editor, typeName2, instanceName2, uuid) == Step(s.editor, [])
  {
  }

  /** Adding a new UUID and removing it again restores the editor, and the
      area receives exactly one add and one remove. */
  lemma AddThenRemove(e: Editor, typeName: string, instanceName: string, uuid: string)
    requires uuid !in e.componentUuids
    ensures var s := Add(e, typeName, instanceName, uuid);
      var t := Remove(s.editor, typeName, instanceName, uuid);
      t.editor == e && s.calls + t.calls == [AddComponent(uuid, instanceName, typeName), RemoveComponent(uuid)]
  {
    var s := Add(e, typeName, instanceName, uuid);
    assert s.editor.componentUuids - {uuid} == e.componentUuids;
  }

  // ---------------------------------------------------------------------
  // Drawers

  /** The three kinds of drawer, told apart by the prefix of their name. */
  datatype DrawerKind = ComponentDrawer | BuiltinDrawer | GenericDrawer

  function Prefix(kind: DrawerKind): string {
    match kind
    case ComponentDrawer => "component_"
    case BuiltinDrawer => "builtin_"
    case GenericDrawer => "generic_"
  }

  /** The call that opens a drawer of the given kind. */
  function ShowCall(kind: DrawerKind, name: string): AreaCall {
    match kind
    case ComponentDrawer => ShowComponentBlocks(name)
    case BuiltinDrawer => ShowBuiltinBlocks(name)
    case GenericDrawer => ShowGenericBlocks(name)
  }

  /** `showComponentBlocks` / `showBuiltinBlocks` / `showGenericBlocks`: a
      toggle that closes the drawer when it is the selected one and is
      showing, and opens it otherwise. */
  function ShowBlocks(e: Editor, kind: DrawerKind, name: string, drawerShowing: bool): (s: Step)
    ensures s.editor.componentUuids == e.componentUuids
    ensures s.editor.loadComplete == e.loadComplete && s.editor.damaged == e.damaged
    ensures s.editor.selectedDrawer.None?
        <==> e.selectedDrawer == Some(Prefix(kind) + name) && drawerShowing
    ensures s.editor.selectedDrawer.None? ==> s.calls == [HideDrawer]
    ensures s.editor.selectedDrawer.Some? ==>
        s.editor.selectedDrawer.value == Prefix(kind) + name && s.calls == [ShowCall(kind, name)]
  {
    var drawer := Prefix(kind) + name;
    if e.selectedDrawer.None? || !drawerShowing || e.selectedDrawer.value != drawer then
      Step(e.(selectedDrawer := Some(drawer)), [ShowCall(kind, name)])
    else
      Step(e.(selectedDrawer := None), [HideDrawer])
  }

  /** Drawers of different kinds never share a name: the prefixes already
      differ in their first character. */
  lemma DrawerNamesDistinct(k1: DrawerKind, n1: string, k2: DrawerKind, n2: string)
    requires k1 != k2
    ensures Prefix(k1) + n1 != Prefix(k2) + n2
  {
    assert (Prefix(k1) + n1)[0] == Prefix(k1)[0];
    assert (Prefix(k2) + n2)[0] == Prefix(k2)[0];
  }

  /** Asking twice for the same drawer while the panel shows it opens it
      and then closes it again. */
  lemma ShowTwiceCloses(e: Editor, kind: DrawerKind, name: string, wasShowing: bool)
    ensures var s := ShowBlocks(e, kind, name, wasShowing);
      s.editor.selectedDrawer.Some? ==>
        var t := ShowBlocks(s.editor, kind, name, true);
        t.editor.selectedDrawer.None? && t.calls == [HideDrawer]
  {
  }

  /** A drawer of another kind is opened, never closed, whatever is showing. */
  lemma ShowOtherKindOpens(e: Editor, kind: DrawerKind, other: DrawerKind, name: string,
                           otherName: string, drawerShowing: bool)
    requires kind != other && e.selectedDrawer == Some(Prefix(other) + otherName)
    ensures ShowBlocks(e, kind, name, drawerShowing).editor.selectedDrawer == Some(Prefix(kind) + name)
  {
    DrawerNamesDistinct(kind, name, other, otherName);
  }

  /** `hideComponentBlocks`: closes the drawer and forgets the selection. */
  function HideComponentBlocks(e: Editor): (s: Step)
    ensures s.editor.selectedDrawer.None? && s.calls == [HideDrawer]
    ensures s.editor == e.(selectedDrawer := None)
  {
    Step(e.(selectedDrawer := None), [HideDrawer])
  }

  /** `hideBuiltinBlocks`: closes the drawer but keeps the selection. */
  function HideBuiltinBlocks(e: Editor): (s: Step)
    ensures s.editor == e && s.calls == [HideDrawer]
  {
    Step(e, [HideDrawer])
  }

  /** After `hideBuiltinBlocks` the editor still believes its drawer is
      selected, so the next request for that drawer, once the panel reports
      it hidden, reopens it; after `hideComponentBlocks` it opens in any
      case. */
  lemma HideThenShow(e: Editor, kind: DrawerKind, name: string, drawerShowing: bool)
    ensures ShowBlocks(HideComponentBlocks(e).editor, kind, name, drawerShowing).editor.selectedDrawer
         == Some(Prefix(kind) + name)
    ensures ShowBlocks(HideBuiltinBlocks(e).editor, kind, name, false).editor.selectedDrawer
         == Some(Prefix(kind) + name)
    ensures e.selectedDrawer == Some(Prefix(kind) + name) ==>
      ShowBlocks(HideBuiltinBlocks(e).editor, kind, name, true).editor.selectedDrawer.None?
  {
  }

  // ---------------------------------------------------------------------
  // Form change events

  /** `onComponentAdded`. */
  function OnComponentAdded(e: Editor, typeName: string, instanceName: string, uuid: string): (s: Step)
    ensures s.editor.componentUuids == e.componentUuids + {uuid}
    ensures s.editor.selectedDrawer == e.selectedDrawer
    ensures UpdateSourceStructure in s.calls <==> e.loadComplete
  {
    var a := Add(e, typeName, instanceName, uuid);
    Step(a.editor, a.calls + if e.loadComplete then [UpdateSourceStructure] else [])
  }

  /** `onComponentRemoved`: only a permanent deletion removes the component. */
  function OnComponentRemoved(e: Editor, typeName: string, instanceName: string, uuid: string,
                              permanentlyDeleted: bool): (s: Step)
    ensures permanentlyDeleted ==> s.editor.componentUuids == e.componentUuids - {uuid}
    ensures !permanentlyDeleted ==> s == Step(e, [])
    ensures s.editor.selectedDrawer == e.selectedDrawer
    ensures UpdateSourceStructure in s.calls <==> permanentlyDeleted && e.loadComplete
  {
    if permanentlyDeleted then
      var r := Remove(e, typeName, instanceName, uuid);
      Step(r.editor, r.calls + if e.loadComplete then [UpdateSourceStructure] else [])
    else Step(e, [])
  }

  /** `onComponentRenamed`: the rename is always forwarded; once the file is
      loaded the open drawer is closed as well. */
  function OnComponentRenamed(e: Editor, oldName: string, newName: string, uuid: string): (s: Step)
    ensures s.editor.componentUuids == e.componentUuids
    ensures |s.calls| > 0 && s.calls[0] == RenameComponent(uuid, oldName, newName)
    ensures e.loadComplete ==> s.editor.selectedDrawer.None? && HideDrawer in s.calls
    ensures !e.loadComplete ==> s == Step(e, [RenameComponent(uuid, oldName, newName)])
  {
    var rename := [RenameComponent(uuid, oldName, newName)];
    if e.loadComplete then
      var h := HideComponentBlocks(e);
      Step(h.editor.(selectedDrawer := None), rename + [UpdateSourceStructure] + h.calls)
    else Step(e, rename)
  }

  /** The end of `loadFile`: the file counts as loaded and no drawer is
      selected. A failed load marks the editor damaged through the
      registry (see `LoadInRegistry`). */
  function FinishLoad(e: Editor): (r: Editor)
    ensures r.loadComplete && r.selectedDrawer.None?
    ensures r.componentUuids == e.componentUuids && r.damaged == e.damaged
  {
    e.(loadComplete := true, selectedDrawer := None)
  }

  // ---------------------------------------------------------------------
  // The registry `formToBlocksEditor`

  /** The decimal digits of `n`. */
  function NatDigits(n: nat): (r: string)
    ensures |r| > 0
    ensures forall i :: 0 <= i < |r| ==> '0' <= r[i] <= '9'
    decreases n
  {
    if n < 10 then ["0123456789"[n]]
    else NatDigits(n / 10) + ["0123456789"[n % 10]]
  }

  /** Java's `Long.toString`. */
  function LongToString(n: int): (r: string)
    ensures '_' !in r
  {
    if n < 0 then "-" + NatDigits(-n) else NatDigits(n)
  }

  /** A digit character names exactly one digit. */
  lemma DigitInjective(d: nat, e: nat)
    requires d < 10 && e < 10 && "0123456789"[d] == "0123456789"[e]
    ensures d == e
  {
  }

  /** Different numbers have different decimal digits. */
  lemma {:induction false} NatDigitsInjective(n: nat, m: nat)
    requires NatDigits(n) == NatDigits(m)
    ensures n == m
    decreases n
  {
    if n < 10 && m < 10 {
      DigitInjective(n, m);
    } else if n < 10 {
      assert false;
    } else if m < 10 {
      assert false;
    } else {
      var dn, dm := NatDigits(n / 10), NatDigits(m / 10);
      assert NatDigits(n) == dn + ["0123456789"[n % 10]];
      assert NatDigits(m) == dm + ["0123456789"[m % 10]];
      assert |dn| == |dm|;
      assert dn == NatDigits(n)[..|dn|] && dm == NatDigits(m)[..|dm|];
      NatDigitsInjective(n / 10, m / 10);
      DigitInjective(n % 10, m % 10);
    }
  }

  /** A printed number starts with `-` exactly when it is negative. */
  lemma LeadingMinus(n: int)
    ensures LongToString(n)[0] == '-' <==> n < 0
  {
  }

  /** `Long.toString` prints different numbers differently: the sign is the
      leading `-`, the magnitude its digits. */
  lemma LongToStringInjective(n: int, m: int)
    requires LongToString(n) == LongToString(m)
    ensures n == m
  {
    LeadingMinus(n);
    LeadingMinus(m);
    if n < 0 && m < 0 {
      assert NatDigits(-n) == LongToString(n)[1..];
      assert NatDigits(-m) == LongToString(m)[1..];
      NatDigitsInjective(-n, -m);
    } else if n < 0 {
      assert false;
    } else if m < 0 {
      assert false;
    } else {
      NatDigitsInjective(n, m);
    }
  }

  /** The registry key `projectId + "_" + formName`. */
  function FullFormName(projectId: int, formName: string): string {
    LongToString(projectId) + "_" + formName
  }

  /** The first `_` of `a_x` is the one after `a` when `a` has none. */
  lemma FirstUnderscore(a: string, x: string)
    requires '_' !in a
    ensures IndexOf(a + "_" + x, "_") == Some(|a|)
  {
    var k := a + "_" + x;
    assert OccursAt(k, "_", |a|) by {
      assert k[|a|..|a| + 1] == "_";
    }
    forall j | 0 <= j < |a|
      ensures !OccursAt(k, "_", j)
    {
      assert k[j..j + 1] == [a[j]];
    }
  }

  /** The key is split at its first `_`: it determines the project id and
      the form name. */
  lemma FullFormNameInjective(p1: int, f1: string, p2: int, f2: string)
    requires FullFormName(p1, f1) == FullFormName(p2, f2)
    ensures p1 == p2 && f1 == f2
  {
    var a, b := LongToString(p1), LongToString(p2);
    var k := FullFormName(p1, f1);
    FirstUnderscore(a, f1);
    FirstUnderscore(b, f2);
    assert a == k[..|a|] && b == k[..|b|];
    assert f1 == k[|a| + 1..] && f2 == k[|b| + 1..];
    LongToStringInjective(p1, p2);
  }

  /** The static map from full form names to their editors. */
  type Registry = map<string, Editor>

  /** The constructor registers a new editor under its full form name. */
  function Open(reg: Registry, projectId: int, formName: string): (r: Registry)
    ensures r.Keys == reg.Keys + {FullFormName(projectId, formName)}
    ensures r[FullFormName(projectId, formName)] == NewEditor
    ensures forall k :: k in reg && k != FullFormName(projectId, formName) ==> r[k] == reg[k]
  {
    reg[FullFormName(projectId, formName) := NewEditor]
  }

  /** `onClose` removes the editor from the registry. */
  function Close(reg: Registry, fullFormName: string): (r: Registry)
    ensures r.Keys == reg.Keys - {fullFormName}
    ensures forall k :: k in r ==> r[k] == reg[k]
  {
    reg - {fullFormName}
  }

  /** `setBlocksDamaged`: marks the registered editor damaged, and does
      nothing for a name that is not registered. */
  function SetBlocksDamaged(reg: Registry, formName: string): (r: Registry)
    ensures r.Keys == reg.Keys
    ensures formName !in reg ==> r == reg
    ensures formName in reg ==> r[formName] == reg[formName].(damaged := true)
    ensures forall k :: k in reg && k != formName ==> r[k] == reg[k]
  {
    if formName in reg then reg[formName := reg[formName].(damaged := true)] else reg
  }

  /** The end of `loadFile` for the editor registered under `fullFormName`:
      on a failed load the editor is marked damaged through the registry
      before it is marked loaded. */
  function LoadInRegistry(reg: Registry, fullFormName: string, loadFailed: bool): (r: Registry)
    requires fullFormName in reg
    ensures r.Keys == reg.Keys
    ensures r[fullFormName].loadComplete && r[fullFormName].selectedDrawer.None?
    ensures r[fullFormName].damaged == (reg[fullFormName].damaged || loadFailed)
  {
    var reg := if loadFailed then SetBlocksDamaged(reg, fullFormName) else reg;
    reg[fullFormName := FinishLoad(reg[fullFormName])]
  }

  /** Opening a second form of a project leaves the first form's editor
      alone, and a closed editor can no longer be damaged. */
  lemma RegistryIndependence(reg: Registry, projectId: int, f1: string, f2: string)
    requires f1 != f2 && FullFormName(projectId, f1) in reg
    ensures var k := FullFormName(projectId, f1);
      Open(reg, projectId, f2)[k] == reg[k]
    ensures var k := FullFormName(projectId, f1);
      SetBlocksDamaged(Close(reg, k), k) == Close(reg, k)
  {
    var k := FullFormName(projectId, f1);
    if k == FullFormName(projectId, f2) {
      FullFormNameInjective(projectId, f1, projectId, f2);
    }
  }
}
