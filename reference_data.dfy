/** The `update_panel_parameter_reference_data` management command: loads
    the Panel and Parameter dictionary from a reference spreadsheet, inside
    one transaction. */
module ReferenceData {
  import opened Wrappers
  import opened Seqs
  import opened Strings
  import opened Tables
  import opened Models

  /** One spreadsheet row, with the columns the command reads. */
  datatype RefRow = RefRow(
    panel: Cell,
    gatingHierarchy: string,
    markerString: string,
    publicPopulationName: string,
    presentedOnWebpageAs: string)

  /** What the command raises. */
  datatype Error =
    | CommandError(message: string)   // the spreadsheet could not be read
    | AttributeError(value: Cell)      // `.upper()` on a panel value that is not text
    | PanelDoesNotExist(name: string)  // `Panel.objects.get` found nothing

  // ---------------------------------------------------------------------
  // Panels
  // ---------------------------------------------------------------------

  /** `df_panels.panel`. */
  function PanelColumn(rows: seq<RefRow>): (r: seq<Cell>)
    ensures |r| == |rows| && forall i :: 0 <= i < |rows| ==> r[i] == rows[i].panel
  {
    seq(|rows|, i requires 0 <= i < |rows| => rows[i].panel)
  }

  /** `[p.upper() for p in values]`, raising on the first value that is not text. */
  function UpperAll(values: seq<Cell>): (r: Result<seq<string>, Error>)
    ensures r.Success? ==> |r.value| == |values|
    ensures r.Success? ==> forall i :: 0 <= i < |values| ==> values[i].Str? && r.value[i] == Upper(values[i].text)
    ensures r.Failure? <==> exists i :: 0 <= i < |values| && !values[i].Str?
    ensures r.Failure? ==> r.error.AttributeError? && r.error.value in values && !r.error.value.Str?
  {
    if |values| == 0 then Success([])
    else if !values[0].Str? then Failure(AttributeError(values[0]))
    else match UpperAll(values[1..])
      case Failure(e) =>
        assert forall i :: 0 <= i < |values[1..]| ==> values[1..][i] == values[i + 1];
        Failure(e)
      case Success(rest) =>
        assert forall i :: 0 < i < |values| ==> values[i] == values[1..][i - 1];
        Success([Upper(values[0].text)] + rest)
  }

  /** `panel_names` once sorted: the upper-cased distinct panel values. */
  function PanelNames(rows: seq<RefRow>): Result<seq<string>, Error>
  {
    match UpperAll(Distinct(PanelColumn(rows)))
    case Failure(e) => Failure(e)
    case Success(names) => Success(Sort(names))
  }

  /** Row `i`'s panel value is text, upper-casing to `name`. */
  predicate NamesPanel(rows: seq<RefRow>, i: nat, name: string)
    requires i < |rows|
  {
    rows[i].panel.Str? && Upper(rows[i].panel.text) == name
  }

  /** The names cannot be computed exactly when some panel value is not text,
      and then `.upper()` raises. */
  lemma PanelNamesFailExactlyWhen(rows: seq<RefRow>)
    ensures PanelNames(rows).Failure? <==> exists i :: 0 <= i < |rows| && !rows[i].panel.Str?
    ensures PanelNames(rows).Failure? ==> PanelNames(rows).error.AttributeError?
  {
    var col := PanelColumn(rows);
    var d := Distinct(col);
    if exists i :: 0 <= i < |rows| && !rows[i].panel.Str? {
      var i :| 0 <= i < |rows| && !rows[i].panel.Str?;
      assert col[i] in d;
    }
    if UpperAll(d).Failure? {
      var k :| 0 <= k < |d| && !d[k].Str?;
      assert d[k] in col;
    }
  }

  /** Some row's panel value upper-cases to `name`. */
  ghost predicate IsPanelName(rows: seq<RefRow>, name: string)
  {
    exists i :: 0 <= i < |rows| && NamesPanel(rows, i, name)
  }

  /** Every name comes from some row. */
  lemma PanelNamesFromRows(rows: seq<RefRow>, n: string)
    requires PanelNames(rows).Success? && n in PanelNames(rows).value
    ensures IsPanelName(rows, n)
  {
    var col := PanelColumn(rows);
    var d := Distinct(col);
    var names := UpperAll(d).value;
    SortSameMembers(names);
    var k :| 0 <= k < |names| && names[k] == n;
    assert d[k] in col;
    var i :| 0 <= i < |col| && col[i] == d[k];
    assert NamesPanel(rows, i, n);
  }

  /** Every row's upper-cased panel value is a name. */
  lemma RowsInPanelNames(rows: seq<RefRow>, i: nat)
    requires PanelNames(rows).Success? && i < |rows|
    ensures rows[i].panel.Str? && Upper(rows[i].panel.text) in PanelNames(rows).value
  {
    var col := PanelColumn(rows);
    var d := Distinct(col);
    var names := UpperAll(d).value;
    SortSameMembers(names);
    assert col[i] in d;
    var k :| 0 <= k < |d| && d[k] == col[i];
    assert names[k] == Upper(rows[i].panel.text);
  }

  /** The names are sorted and are exactly the upper-cased panel values. */
  lemma PanelNamesAreUpperPanels(rows: seq<RefRow>)
    requires PanelNames(rows).Success?
    ensures Sorted(PanelNames(rows).value)
    ensures forall n :: n in PanelNames(rows).value <==> IsPanelName(rows, n)
  {
    forall n ensures n in PanelNames(rows).value <==> IsPanelName(rows, n) {
      if n in PanelNames(rows).value {
        PanelNamesFromRows(rows, n);
      }
      if IsPanelName(rows, n) {
        var i :| 0 <= i < |rows| && NamesPanel(rows, i, n);
        RowsInPanelNames(rows, i);
      }
    }
  }

  /** `Panel.objects.get_or_create(name=n)` for each name in turn. */
  function WithPanels(panels: seq<Panel>, names: seq<string>): (r: seq<Panel>)
    ensures |panels| <= |r| && r[..|panels|] == panels
  {
    if |names| == 0 then panels
    else
      var t := WithPanels(panels, names[..|names| - 1]);
      var n := names[|names| - 1];
      if FindPanel(t, n).Some? then t
      else
        assert (t + [Panel(n)])[..|panels|] == t[..|panels|];
        t + [Panel(n)]
  }

  /** After get_or_create of every name, exactly the old names and the new
      ones have a Panel. */
  lemma {:induction false} WithPanelsFinds(panels: seq<Panel>, names: seq<string>)
    ensures forall n :: FindPanel(WithPanels(panels, names), n).Some? <==> FindPanel(panels, n).Some? || n in names
  {
    if |names| > 0 {
      var rest := names[..|names| - 1];
      var n := names[|names| - 1];
      assert names == rest + [n];
      WithPanelsFinds(panels, rest);
      var t := WithPanels(panels, rest);
      if FindPanel(t, n).None? {
        var u := t + [Panel(n)];
        forall w ensures FindPanel(u, w).Some? <==> FindPanel(t, w).Some? || w == n {
          assert forall k :: 0 <= k < |t| ==> u[k] == t[k];
          assert u[|t|].name == n;
        }
      }
    }
  }

  /** Every Panel get_or_create adds has one of the names, which had no
      Panel before. */
  lemma {:induction false} WithPanelsAdds(panels: seq<Panel>, names: seq<string>)
    ensures forall k :: |panels| <= k < |WithPanels(panels, names)| ==>
      WithPanels(panels, names)[k].name in names && FindPanel(panels, WithPanels(panels, names)[k].name).None?
  {
    if |names| > 0 {
      var rest := names[..|names| - 1];
      var n := names[|names| - 1];
      assert names == rest + [n];
      WithPanelsAdds(panels, rest);
      var t := WithPanels(panels, rest);
      assert forall x :: x in rest ==> x in names;
      if FindPanel(t, n).None? {
        WithPanelsFinds(panels, rest);
        var r := t + [Panel(n)];
        assert WithPanels(panels, names) == r;
        assert forall k :: 0 <= k < |t| ==> r[k] == t[k];
        assert r[|t|].name == n && n in names;
      }
    }
  }

  /** get_or_create keeps names unique. */
  lemma {:induction false} WithPanelsUnique(panels: seq<Panel>, names: seq<string>)
    requires UniquePanels(panels)
    ensures UniquePanels(WithPanels(panels, names))
  {
    if |names| > 0 {
      WithPanelsUnique(panels, names[..|names| - 1]);
    }
  }

  /** Names processed in ascending order are created in ascending order. */
  lemma {:induction false} WithPanelsSorted(panels: seq<Panel>, names: seq<string>)
    requires Sorted(names)
    ensures forall i, j :: |panels| <= i < j < |WithPanels(panels, names)| ==>
      LessEq(WithPanels(panels, names)[i].name, WithPanels(panels, names)[j].name)
  {
    if |names| > 0 {
      var rest := names[..|names| - 1];
      var n := names[|names| - 1];
      assert Sorted(rest);
      WithPanelsSorted(panels, rest);
      WithPanelsAdds(panels, rest);
      var t := WithPanels(panels, rest);
      if FindPanel(t, n).None? {
        var r := t + [Panel(n)];
        assert WithPanels(panels, names) == r;
        forall i, j | |panels| <= i < j < |r| ensures LessEq(r[i].name, r[j].name) {
          assert r[i] == t[i];
          if j == |t| {
            assert t[i].name in rest;
            var m := IndexOf(rest, t[i].name);
            assert names[m] == rest[m];
            assert names[|names| - 1] == n;
          } else {
            assert r[j] == t[j];
          }
        }
      }
    }
  }

  /** When every name already has a Panel, get_or_create changes nothing. */
  lemma {:induction false} WithPanelsPresent(panels: seq<Panel>, names: seq<string>)
    requires forall n :: n in names ==> FindPanel(panels, n).Some?
    ensures WithPanels(panels, names) == panels
  {
    if |names| > 0 {
      var rest := names[..|names| - 1];
      assert forall n :: n in rest ==> n in names;
      WithPanelsPresent(panels, rest);
      assert names[|names| - 1] in names;
    }
  }

  // ---------------------------------------------------------------------
  // Parameters
  // ---------------------------------------------------------------------

  /** A row once its panel has been looked up: the key of its Parameter and
      the values the command assigns. */
  datatype Update = Update(
    gatingHierarchy: string,
    panel: nat,
    markerString: string,
    publicName: string,
    unit: string)

  /** The four assignments of the loop body. */
  function Assign(p: Parameter, u: Update): (r: Parameter)
  {
    p.(internalName := u.markerString, publicName := u.publicName,
       isReferenceParameter := Some(false), unit := u.unit)
  }

  /** A Parameter just created by get_or_create: the key set and every other
      field at its default. */
  function Fresh(gh: string, panel: nat): Parameter
  {
    Parameter(panel, "", "", "", "", "", "", None, gh, "")
  }

  /** `Parameter.objects.get_or_create(...)` for one update, the assignments,
      and `save()`. */
  function Upsert(params: seq<Parameter>, u: Update): (r: seq<Parameter>)
  {
    match FindParameter(params, u.gatingHierarchy, u.panel)
    case Some(k) => params[k := Assign(params[k], u)]
    case None => params + [Assign(Fresh(u.gatingHierarchy, u.panel), u)]
  }

  /** The parameter loop over already resolved rows. */
  function Apply(params: seq<Parameter>, us: seq<Update>): (r: seq<Parameter>)
    ensures |params| <= |r|
  {
    if |us| == 0 then params else Upsert(Apply(params, us[..|us| - 1]), us[|us| - 1])
  }

  /** The update a list of updates makes last to the Parameter with the key
      (gh, panel), if any: a reference definition of "the last row wins". */
  function LastFor(us: seq<Update>, gh: string, panel: nat): (r: Option<Update>)
    ensures r.Some? ==> r.value in us && r.value.gatingHierarchy == gh && r.value.panel == panel
    ensures r.None? <==> forall i :: 0 <= i < |us| ==> us[i].gatingHierarchy != gh || us[i].panel != panel
  {
    if |us| == 0 then None
    else
      var rest := us[..|us| - 1];
      assert forall i :: 0 <= i < |rest| ==> rest[i] == us[i];
      if us[|us| - 1].gatingHierarchy == gh && us[|us| - 1].panel == panel then Some(us[|us| - 1])
      else LastFor(rest, gh, panel)
  }

  /** An update that no later update with the same key follows is the last one. */
  lemma {:induction false} LastForLast(us: seq<Update>, i: nat)
    requires i < |us|
    requires forall j :: i < j < |us| ==> us[j].gatingHierarchy != us[i].gatingHierarchy || us[j].panel != us[i].panel
    ensures LastFor(us, us[i].gatingHierarchy, us[i].panel) == Some(us[i])
  {
    if i < |us| - 1 {
      var rest := us[..|us| - 1];
      assert rest[i] == us[i];
      assert forall j :: i < j < |rest| ==> rest[j] == us[j];
      LastForLast(rest, i);
    }
  }

  /** A Parameter after the update that last touched it, if any. */
  function Merge(p: Parameter, last: Option<Update>): Parameter
  {
    match last
    case None => p
    case Some(u) => Assign(p, u)
  }

  lemma UpsertFinds(params: seq<Parameter>, u: Update)
    ensures forall gh, pk :: FindParameter(Upsert(params, u), gh, pk).Some? <==>
      FindParameter(params, gh, pk).Some? || (gh == u.gatingHierarchy && pk == u.panel)
  {
    var r := Upsert(params, u);
    assert forall k :: 0 <= k < |params| ==>
      r[k].gatingHierarchy == params[k].gatingHierarchy && r[k].panel == params[k].panel;
    if FindParameter(params, u.gatingHierarchy, u.panel).None? {
      assert r[|params|].gatingHierarchy == u.gatingHierarchy && r[|params|].panel == u.panel;
    }
  }

  lemma UpsertUnique(params: seq<Parameter>, u: Update)
    requires UniqueParameters(params)
    ensures UniqueParameters(Upsert(params, u))
  {
  }

  /** The old rows of the table: the one with the update's key is assigned,
      the others are untouched. */
  lemma UpsertKeeps(params: seq<Parameter>, u: Update)
    requires UniqueParameters(params)
    ensures |params| <= |Upsert(params, u)|
    ensures forall k :: 0 <= k < |params| ==>
      Upsert(params, u)[k] == (if params[k].gatingHierarchy == u.gatingHierarchy && params[k].panel == u.panel
                               then Assign(params[k], u) else params[k])
  {
    match FindParameter(params, u.gatingHierarchy, u.panel)
    case None =>
    case Some(j) =>
      forall k | 0 <= k < |params| && params[k].gatingHierarchy == u.gatingHierarchy && params[k].panel == u.panel
        ensures k == j
      {
        FindParameterUnique(params, u.gatingHierarchy, u.panel, k);
      }
  }

  /** A row is added only when no Parameter has the update's key. */
  lemma UpsertAdds(params: seq<Parameter>, u: Update)
    ensures |Upsert(params, u)| <= |params| + 1
    ensures |Upsert(params, u)| > |params| ==>
      && FindParameter(params, u.gatingHierarchy, u.panel).None?
      && Upsert(params, u)[|params|] == Assign(Fresh(u.gatingHierarchy, u.panel), u)
  {
  }

  /** After the loop exactly the old keys and the updated keys have a
      Parameter. */
  lemma {:induction false} ApplyFinds(params: seq<Parameter>, us: seq<Update>)
    ensures forall gh, pk :: FindParameter(Apply(params, us), gh, pk).Some? <==>
      FindParameter(params, gh, pk).Some? || LastFor(us, gh, pk).Some?
  {
    if |us| > 0 {
      ApplyFinds(params, us[..|us| - 1]);
      UpsertFinds(Apply(params, us[..|us| - 1]), us[|us| - 1]);
    }
  }

  lemma {:induction false} ApplyUnique(params: seq<Parameter>, us: seq<Update>)
    requires UniqueParameters(params)
    ensures UniqueParameters(Apply(params, us))
  {
    if |us| > 0 {
      ApplyUnique(params, us[..|us| - 1]);
      UpsertUnique(Apply(params, us[..|us| - 1]), us[|us| - 1]);
    }
  }

  /** Every old Parameter ends up as the last update with its key made it. */
  lemma {:induction false} ApplyKeeps(params: seq<Parameter>, us: seq<Update>)
    requires UniqueParameters(params)
    ensures |params| <= |Apply(params, us)|
    ensures forall k :: 0 <= k < |params| ==>
      Apply(params, us)[k] == Merge(params[k], LastFor(us, params[k].gatingHierarchy, params[k].panel))
  {
    if |us| > 0 {
      var rest := us[..|us| - 1];
      var t := Apply(params, rest);
      ApplyKeeps(params, rest);
      ApplyUnique(params, rest);
      UpsertKeeps(t, us[|us| - 1]);
    }
  }

  /** Every added Parameter has a key no old one has, and is a fresh row as
      the last update with that key left it. */
  lemma {:induction false} ApplyAdds(params: seq<Parameter>, us: seq<Update>)
    requires UniqueParameters(params)
    ensures forall k :: |params| <= k < |Apply(params, us)| ==>
      var p := Apply(params, us)[k];
      && FindParameter(params, p.gatingHierarchy, p.panel).None?
      && LastFor(us, p.gatingHierarchy, p.panel).Some?
      && p == Merge(Fresh(p.gatingHierarchy, p.panel), LastFor(us, p.gatingHierarchy, p.panel))
  {
    if |us| > 0 {
      var rest := us[..|us| - 1];
      var v := us[|us| - 1];
      var t := Apply(params, rest);
      var r := Upsert(t, v);
      assert Apply(params, us) == r;
      ApplyAdds(params, rest);
      ApplyKeeps(params, rest);
      ApplyUnique(params, rest);
      UpsertKeeps(t, v);
      UpsertAdds(t, v);
      if |r| > |t| {
        ApplyFinds(params, rest);
      }
      forall k | |params| <= k < |r|
        ensures FindParameter(params, r[k].gatingHierarchy, r[k].panel).None?
        ensures LastFor(us, r[k].gatingHierarchy, r[k].panel).Some?
        ensures r[k] == Merge(Fresh(r[k].gatingHierarchy, r[k].panel), LastFor(us, r[k].gatingHierarchy, r[k].panel))
      {
        if k < |t| {
          assert r[k].gatingHierarchy == t[k].gatingHierarchy && r[k].panel == t[k].panel;
        }
      }
    }
  }

  /** Updates whose keys all exist already add no row. */
  lemma {:induction false} ApplyPresent(params: seq<Parameter>, us: seq<Update>)
    requires forall i :: 0 <= i < |us| ==> FindParameter(params, us[i].gatingHierarchy, us[i].panel).Some?
    ensures |Apply(params, us)| == |params|
  {
    if |us| > 0 {
      var rest := us[..|us| - 1];
      var v := us[|us| - 1];
      assert forall i :: 0 <= i < |rest| ==> rest[i] == us[i];
      ApplyPresent(params, rest);
      ApplyFinds(params, rest);
    }
  }

  /** Every Parameter of the result belongs to a Panel when the old ones
      and the updates do. */
  lemma {:induction false} ApplyPanels(params: seq<Parameter>, us: seq<Update>, panelCount: nat)
    requires forall k :: 0 <= k < |params| ==> params[k].panel < panelCount
    requires forall i :: 0 <= i < |us| ==> us[i].panel < panelCount
    ensures forall k :: 0 <= k < |Apply(params, us)| ==> Apply(params, us)[k].panel < panelCount
  {
    if |us| > 0 {
      var rest := us[..|us| - 1];
      assert forall i :: 0 <= i < |rest| ==> rest[i] == us[i];
      ApplyPanels(params, rest, panelCount);
    }
  }

  /** Running the same updates a second time changes nothing. */
  lemma ApplyIdempotent(params: seq<Parameter>, us: seq<Update>)
    requires UniqueParameters(params)
    ensures Apply(Apply(params, us), us) == Apply(params, us)
  {
    var r := Apply(params, us);
    ApplyUnique(params, us);
    ApplyFinds(params, us);
    ApplyKeeps(params, us);
    ApplyAdds(params, us);
    forall i | 0 <= i < |us| ensures FindParameter(r, us[i].gatingHierarchy, us[i].panel).Some? {
      assert LastFor(us, us[i].gatingHierarchy, us[i].panel).Some?;
    }
    ApplyPresent(r, us);
    ApplyKeeps(r, us);
    var r2 := Apply(r, us);
    forall k | 0 <= k < |r| ensures r2[k] == r[k] {
      if k < |params| {
        assert r[k].gatingHierarchy == params[k].gatingHierarchy && r[k].panel == params[k].panel;
      }
    }
  }

  /** The Parameter with a key some update has ends up assigned by the last
      such update. */
  lemma ApplyLast(params: seq<Parameter>, us: seq<Update>, gh: string, pk: nat)
    requires UniqueParameters(params) && LastFor(us, gh, pk).Some?
    ensures FindParameter(Apply(params, us), gh, pk).Some?
    ensures Apply(params, us)[FindParameter(Apply(params, us), gh, pk).value] ==
      Assign(Apply(params, us)[FindParameter(Apply(params, us), gh, pk).value], LastFor(us, gh, pk).value)
  {
    var r := Apply(params, us);
    ApplyFinds(params, us);
    ApplyKeeps(params, us);
    ApplyAdds(params, us);
    var k := FindParameter(r, gh, pk).value;
    if k < |params| {
      assert r[k].gatingHierarchy == params[k].gatingHierarchy && r[k].panel == params[k].panel;
    }
  }

  /** The panel lookup of the parameter loop for each row in turn; the first
      failing lookup raises. */
  function ResolveRows(panels: seq<Panel>, rows: seq<RefRow>): (r: Result<seq<Update>, Error>)
    ensures r.Success? ==> |r.value| == |rows|
    ensures r.Success? ==> forall i :: 0 <= i < |rows| ==>
      && rows[i].panel.Str?
      && FindPanel(panels, Upper(rows[i].panel.text)) == Some(r.value[i].panel)
      && r.value[i] == Update(rows[i].gatingHierarchy, r.value[i].panel,
                              rows[i].markerString, rows[i].publicPopulationName, rows[i].presentedOnWebpageAs)
    ensures r.Failure? <==>
      exists i :: 0 <= i < |rows| && (!rows[i].panel.Str? || FindPanel(panels, Upper(rows[i].panel.text)).None?)
  {
    if |rows| == 0 then Success([])
    else
      var rest := rows[..|rows| - 1];
      var row := rows[|rows| - 1];
      assert forall i :: 0 <= i < |rest| ==> rest[i] == rows[i];
      match ResolveRows(panels, rest)
      case Failure(e) => Failure(e)
      case Success(us) =>
        if !row.panel.Str? then Failure(AttributeError(row.panel))
        else
          match FindPanel(panels, Upper(row.panel.text))
          case None => Failure(PanelDoesNotExist(Upper(row.panel.text)))
          case Some(pk) =>
            Success(us + [Update(row.gatingHierarchy, pk, row.markerString, row.publicPopulationName, row.presentedOnWebpageAs)])
  }

  /** What the command leaves in the tables, or what it raises; the
      transaction leaves the tables unchanged when it raises. */
  function Loaded(s: Store, sheet: Result<seq<RefRow>, string>): (r: Result<Store, Error>)
    ensures sheet.Failure? ==> r == Failure(CommandError(sheet.error))
    ensures r.Success? ==> |s.panels| <= |r.value.panels| && |s.parameters| <= |r.value.parameters|
    ensures r.Success? ==>
      && r.value.clinicalSamples == s.clinicalSamples
      && r.value.processedSamples == s.processedSamples
      && r.value.dataProcessings == s.dataProcessings
      && r.value.numericParameters == s.numericParameters
  {
    match sheet
    case Failure(msg) => Failure(CommandError(msg))
    case Success(rows) =>
      match PanelNames(rows)
      case Failure(e) => Failure(e)
      case Success(names) =>
        var panels := WithPanels(s.panels, names);
        match ResolveRows(panels, rows)
        case Failure(e) => Failure(e)
        case Success(us) => Success(s.(panels := panels, parameters := Apply(s.parameters, us)))
  }

  // ---------------------------------------------------------------------
  // What the command promises
  // ---------------------------------------------------------------------

  /** A spreadsheet row writes to the Parameter with key (gh, pk). */
  ghost predicate RowUpdates(panels: seq<Panel>, row: RefRow, gh: string, pk: nat)
  {
    row.panel.Str? && row.gatingHierarchy == gh && FindPanel(panels, Upper(row.panel.text)) == Some(pk)
  }

  ghost predicate Touches(panels: seq<Panel>, rows: seq<RefRow>, gh: string, pk: nat)
  {
    exists i :: 0 <= i < |rows| && RowUpdates(panels, rows[i], gh, pk)
  }

  /** Some update has a key exactly when some row writes to that key. */
  lemma ResolvedTouches(panels: seq<Panel>, rows: seq<RefRow>)
    requires ResolveRows(panels, rows).Success?
    ensures forall gh, pk :: LastFor(ResolveRows(panels, rows).value, gh, pk).Some? <==> Touches(panels, rows, gh, pk)
  {
    var us := ResolveRows(panels, rows).value;
    forall gh, pk ensures LastFor(us, gh, pk).Some? <==> Touches(panels, rows, gh, pk) {
      if LastFor(us, gh, pk).Some? {
        var i :| 0 <= i < |us| && us[i] == LastFor(us, gh, pk).value;
        assert RowUpdates(panels, rows[i], gh, pk);
      }
      if Touches(panels, rows, gh, pk) {
        var i :| 0 <= i < |rows| && RowUpdates(panels, rows[i], gh, pk);
        assert us[i].gatingHierarchy == gh && us[i].panel == pk;
      }
    }
  }

  /** Once the panels of the sheet exist, every row's panel lookup succeeds:
      the loop never raises `DoesNotExist`. */
  lemma LookupsSucceed(s: Store, rows: seq<RefRow>)
    requires PanelNames(rows).Success?
    ensures ResolveRows(WithPanels(s.panels, PanelNames(rows).value), rows).Success?
  {
    var names := PanelNames(rows).value;
    WithPanelsFinds(s.panels, names);
    forall i | 0 <= i < |rows|
      ensures rows[i].panel.Str? && FindPanel(WithPanels(s.panels, names), Upper(rows[i].panel.text)).Some?
    {
      RowsInPanelNames(rows, i);
    }
  }

  /** The command raises exactly when the sheet cannot be read (a
      `CommandError`) or a panel value is not text (`AttributeError`). */
  lemma LoadedFailsExactlyWhen(s: Store, sheet: Result<seq<RefRow>, string>)
    ensures Loaded(s, sheet).Failure? <==>
      sheet.Failure? || exists i :: 0 <= i < |sheet.value| && !sheet.value[i].panel.Str?
    ensures sheet.Success? && Loaded(s, sheet).Failure? ==> Loaded(s, sheet).error.AttributeError?
  {
    if sheet.Success? {
      PanelNamesFailExactlyWhen(sheet.value);
      if PanelNames(sheet.value).Success? {
        LookupsSucceed(s, sheet.value);
      }
    }
  }

  /** The Panel table keeps its rows, and afterwards holds exactly the old
      names and the upper-cased names of the sheet. */
  lemma LoadedCreatesPanels(s: Store, sheet: Result<seq<RefRow>, string>)
    requires Loaded(s, sheet).Success?
    ensures |s.panels| <= |Loaded(s, sheet).value.panels|
    ensures Loaded(s, sheet).value.panels[..|s.panels|] == s.panels
    ensures forall n :: FindPanel(Loaded(s, sheet).value.panels, n).Some? <==>
      FindPanel(s.panels, n).Some? || IsPanelName(sheet.value, n)
  {
    PanelNamesAreUpperPanels(sheet.value);
    WithPanelsFinds(s.panels, PanelNames(sheet.value).value);
  }

  /** Panels are created only for names that had none, in ascending order. */
  lemma LoadedAddsPanelsInOrder(s: Store, sheet: Result<seq<RefRow>, string>)
    requires Loaded(s, sheet).Success?
    ensures var panels := Loaded(s, sheet).value.panels;
      && (forall k :: |s.panels| <= k < |panels| ==>
            IsPanelName(sheet.value, panels[k].name) && FindPanel(s.panels, panels[k].name).None?)
      && (forall i, j :: |s.panels| <= i < j < |panels| ==> LessEq(panels[i].name, panels[j].name))
  {
    var names := PanelNames(sheet.value).value;
    PanelNamesAreUpperPanels(sheet.value);
    WithPanelsAdds(s.panels, names);
    WithPanelsSorted(s.panels, names);
  }

  /** The results-file code looks a panel up by `name=value.upper()`. A file
      that carries the name the command stored finds that very Panel, since
      stored names are already upper case. */
  lemma CreatedPanelFoundByUpper(s: Store, sheet: Result<seq<RefRow>, string>, k: nat)
    requires s.Valid() && Loaded(s, sheet).Success?
    requires |s.panels| <= k < |Loaded(s, sheet).value.panels|
    ensures FindPanel(Loaded(s, sheet).value.panels, Upper(Loaded(s, sheet).value.panels[k].name)) == Some(k)
  {
    var panels := Loaded(s, sheet).value.panels;
    LoadedAddsPanelsInOrder(s, sheet);
    assert IsPanelName(sheet.value, panels[k].name);
    var i :| 0 <= i < |sheet.value| && NamesPanel(sheet.value, i, panels[k].name);
    UpperIdempotent(sheet.value[i].panel.text);
    LoadedKeepsValid(s, sheet);
    FindPanelUnique(panels, panels[k].name, k);
  }

  /** The Parameter a row's key designates after a run, if any. No single
      statement of the command does this lookup: it observes the result of
      the row loop, for LoadedLastRowWins. */
  function ParameterFor(st: Store, row: RefRow): (r: Option<nat>)
    ensures r.Some? ==> r.value < |st.parameters|
  {
    if !row.panel.Str? then None
    else match FindPanel(st.panels, Upper(row.panel.text))
      case None => None
      case Some(pk) => FindParameter(st.parameters, row.gatingHierarchy, pk)
  }

  /** A Parameter carries the values of a row. */
  predicate CarriesRow(p: Parameter, row: RefRow)
  {
    && p.internalName == row.markerString
    && p.publicName == row.publicPopulationName
    && p.isReferenceParameter == Some(false)
    && p.unit == row.presentedOnWebpageAs
  }

  predicate SameRowKey(a: RefRow, b: RefRow)
  {
    a.gatingHierarchy == b.gatingHierarchy && a.panel.Str? && b.panel.Str? && Upper(a.panel.text) == Upper(b.panel.text)
  }

  /** Every row's Parameter exists afterwards, and when no later row has the
      same key it carries that row's values: the last row for a key wins. */
  lemma LoadedLastRowWins(s: Store, sheet: Result<seq<RefRow>, string>, i: nat)
    requires s.Valid() && Loaded(s, sheet).Success?
    requires i < |sheet.value|
    requires forall j :: i < j < |sheet.value| ==> !SameRowKey(sheet.value[j], sheet.value[i])
    ensures ParameterFor(Loaded(s, sheet).value, sheet.value[i]).Some?
    ensures CarriesRow(Loaded(s, sheet).value.parameters[ParameterFor(Loaded(s, sheet).value, sheet.value[i]).value],
                       sheet.value[i])
  {
    var rows := sheet.value;
    var panels := WithPanels(s.panels, PanelNames(rows).value);
    var us := ResolveRows(panels, rows).value;
    forall j | i < j < |us|
      ensures us[j].gatingHierarchy != us[i].gatingHierarchy || us[j].panel != us[i].panel
    {
      assert !SameRowKey(rows[j], rows[i]);
    }
    LastForLast(us, i);
    ApplyLast(s.parameters, us, us[i].gatingHierarchy, us[i].panel);
  }

  /** The fields the command does not assign keep their values, and a
      Parameter no row writes to is left as it was. */
  lemma LoadedKeepsUntouched(s: Store, sheet: Result<seq<RefRow>, string>, k: nat)
    requires s.Valid() && Loaded(s, sheet).Success?
    requires k < |s.parameters|
    ensures var p := s.parameters[k];
      var q := Loaded(s, sheet).value.parameters[k];
      && q.panel == p.panel && q.gatingHierarchy == p.gatingHierarchy
      && q.dataType == p.dataType && q.displayName == p.displayName
      && q.excelColumnName == p.excelColumnName && q.description == p.description
      && (!Touches(Loaded(s, sheet).value.panels, sheet.value, p.gatingHierarchy, p.panel) ==> q == p)
  {
    var panels := WithPanels(s.panels, PanelNames(sheet.value).value);
    ApplyKeeps(s.parameters, ResolveRows(panels, sheet.value).value);
    ResolvedTouches(panels, sheet.value);
  }

  /** The Store has a Parameter with gating hierarchy `gh` under the Panel
      called `name`. */
  ghost predicate HasParameter(st: Store, gh: string, name: string)
  {
    match FindPanel(st.panels, name)
    case None => false
    case Some(pk) => FindParameter(st.parameters, gh, pk).Some?
  }

  /** Some row of the sheet has gating hierarchy `gh` and panel `name`. */
  ghost predicate InSheet(rows: seq<RefRow>, gh: string, name: string)
  {
    exists i :: 0 <= i < |rows| && rows[i].gatingHierarchy == gh && NamesPanel(rows, i, name)
  }

  /** An old Parameter is still found under its panel's name. */
  lemma LoadedKeepsOldParameter(s: Store, sheet: Result<seq<RefRow>, string>, gh: string, name: string)
    requires s.Valid() && Loaded(s, sheet).Success? && HasParameter(s, gh, name)
    ensures HasParameter(Loaded(s, sheet).value, gh, name)
  {
    var names := PanelNames(sheet.value).value;
    var panels := WithPanels(s.panels, names);
    var pk := FindPanel(s.panels, name).value;
    WithPanelsUnique(s.panels, names);
    assert panels[pk] == s.panels[pk];
    FindPanelUnique(panels, name, pk);
    ApplyFinds(s.parameters, ResolveRows(panels, sheet.value).value);
  }

  /** A row's Parameter is found under the row's upper-cased panel name. */
  lemma LoadedHasRowParameter(s: Store, sheet: Result<seq<RefRow>, string>, gh: string, name: string)
    requires Loaded(s, sheet).Success? && InSheet(sheet.value, gh, name)
    ensures HasParameter(Loaded(s, sheet).value, gh, name)
  {
    var rows := sheet.value;
    var panels := WithPanels(s.panels, PanelNames(rows).value);
    var us := ResolveRows(panels, rows).value;
    var i :| 0 <= i < |rows| && rows[i].gatingHierarchy == gh && NamesPanel(rows, i, name);
    var pk := us[i].panel;
    assert FindPanel(panels, name) == Some(pk);
    assert LastFor(us, gh, pk).Some? by {
      assert us[i].gatingHierarchy == gh;
    }
    ApplyFinds(s.parameters, us);
    assert FindParameter(Apply(s.parameters, us), gh, pk).Some?;
  }

  lemma LoadedKeepsParameters(s: Store, sheet: Result<seq<RefRow>, string>, gh: string, name: string)
    requires s.Valid() && Loaded(s, sheet).Success?
    requires HasParameter(s, gh, name) || InSheet(sheet.value, gh, name)
    ensures HasParameter(Loaded(s, sheet).value, gh, name)
  {
    if HasParameter(s, gh, name) {
      LoadedKeepsOldParameter(s, sheet, gh, name);
    } else {
      LoadedHasRowParameter(s, sheet, gh, name);
    }
  }

  lemma LoadedParametersFromSheet(s: Store, sheet: Result<seq<RefRow>, string>, gh: string, name: string)
    requires s.Valid() && Loaded(s, sheet).Success?
    requires HasParameter(Loaded(s, sheet).value, gh, name)
    ensures HasParameter(s, gh, name) || InSheet(sheet.value, gh, name)
  {
    var rows := sheet.value;
    var names := PanelNames(rows).value;
    var panels := WithPanels(s.panels, names);
    var us := ResolveRows(panels, rows).value;
    var pk := FindPanel(panels, name).value;
    ApplyFinds(s.parameters, us);
    ResolvedTouches(panels, rows);
    if LastFor(us, gh, pk).Some? {
      var i :| 0 <= i < |rows| && RowUpdates(panels, rows[i], gh, pk);
      assert NamesPanel(rows, i, name);
    } else {
      var k := FindParameter(s.parameters, gh, pk).value;
      assert pk < |s.panels| && panels[pk] == s.panels[pk];
      FindPanelUnique(s.panels, name, pk);
    }
  }

  /** Afterwards the (gating hierarchy, panel name) keys are exactly the old
      ones and those of the sheet. */
  lemma LoadedParameterKeys(s: Store, sheet: Result<seq<RefRow>, string>)
    requires s.Valid() && Loaded(s, sheet).Success?
    ensures forall gh, name :: HasParameter(Loaded(s, sheet).value, gh, name) <==>
      HasParameter(s, gh, name) || InSheet(sheet.value, gh, name)
  {
    forall gh, name ensures HasParameter(Loaded(s, sheet).value, gh, name) <==>
      HasParameter(s, gh, name) || InSheet(sheet.value, gh, name)
    {
      if HasParameter(Loaded(s, sheet).value, gh, name) {
        LoadedParametersFromSheet(s, sheet, gh, name);
      }
      if HasParameter(s, gh, name) || InSheet(sheet.value, gh, name) {
        LoadedKeepsParameters(s, sheet, gh, name);
      }
    }
  }

  /** A well-formed Store stays well-formed. */
  lemma LoadedKeepsValid(s: Store, sheet: Result<seq<RefRow>, string>)
    requires s.Valid() && Loaded(s, sheet).Success?
    ensures Loaded(s, sheet).value.Valid()
  {
    var names := PanelNames(sheet.value).value;
    var panels := WithPanels(s.panels, names);
    var us := ResolveRows(panels, sheet.value).value;
    WithPanelsUnique(s.panels, names);
    ApplyUnique(s.parameters, us);
    ApplyKeeps(s.parameters, us);
    ApplyPanels(s.parameters, us, |panels|);
  }

  /** Loading the same sheet again changes nothing: no Panel or Parameter is
      duplicated and no value changes. */
  lemma LoadedIdempotent(s: Store, sheet: Result<seq<RefRow>, string>)
    requires s.Valid() && Loaded(s, sheet).Success?
    ensures Loaded(Loaded(s, sheet).value, sheet) == Loaded(s, sheet)
  {
    var rows := sheet.value;
    var names := PanelNames(rows).value;
    var panels := WithPanels(s.panels, names);
    var us := ResolveRows(panels, rows).value;
    WithPanelsFinds(s.panels, names);
    WithPanelsPresent(panels, names);
    ApplyIdempotent(s.parameters, us);
    LoadedStages(Loaded(s, sheet).value, rows, names);
  }

  /** Loading a second sheet leaves the keys of both sheets and the old ones. */
  lemma LoadTwiceIsUnion(s: Store, first: Result<seq<RefRow>, string>, second: Result<seq<RefRow>, string>)
    requires s.Valid() && Loaded(s, first).Success? && Loaded(Loaded(s, first).value, second).Success?
    ensures forall gh, name :: HasParameter(Loaded(Loaded(s, first).value, second).value, gh, name) <==>
      HasParameter(s, gh, name) || InSheet(first.value, gh, name) || InSheet(second.value, gh, name)
  {
    LoadedParameterKeys(s, first);
    LoadedKeepsValid(s, first);
    LoadedParameterKeys(Loaded(s, first).value, second);
  }

  // ---------------------------------------------------------------------
  // The imperative command
  // ---------------------------------------------------------------------

  /** The first failing lookup decides what the whole lookup raises. */
  lemma {:induction false} ResolveRowsFirstFailure(panels: seq<Panel>, rows: seq<RefRow>, i: nat)
    requires i < |rows| && ResolveRows(panels, rows[..i + 1]).Failure?
    ensures ResolveRows(panels, rows) == ResolveRows(panels, rows[..i + 1])
    decreases |rows|
  {
    if |rows| > i + 1 {
      var rest := rows[..|rows| - 1];
      assert rest[..i + 1] == rows[..i + 1];
      ResolveRowsFirstFailure(panels, rest, i);
    } else {
      assert rows[..i + 1] == rows;
    }
  }

  /** One more row whose panel lookup succeeds extends the resolved rows. */
  lemma ResolveRowsStep(panels: seq<Panel>, rows: seq<RefRow>, i: nat, us: seq<Update>, pk: nat)
    requires i < |rows| && ResolveRows(panels, rows[..i]) == Success(us)
    requires rows[i].panel.Str? && FindPanel(panels, Upper(rows[i].panel.text)) == Some(pk)
    ensures ResolveRows(panels, rows[..i + 1]) ==
      Success(us + [Update(rows[i].gatingHierarchy, pk, rows[i].markerString, rows[i].publicPopulationName, rows[i].presentedOnWebpageAs)])
  {
    assert rows[..i + 1][..i] == rows[..i];
  }

  /** One more row whose panel lookup raises makes the whole lookup raise that. */
  lemma ResolveRowsStepFails(panels: seq<Panel>, rows: seq<RefRow>, i: nat, us: seq<Update>, e: Error)
    requires i < |rows| && ResolveRows(panels, rows[..i]) == Success(us)
    requires if !rows[i].panel.Str? then e == AttributeError(rows[i].panel)
             else FindPanel(panels, Upper(rows[i].panel.text)).None? && e == PanelDoesNotExist(Upper(rows[i].panel.text))
    ensures ResolveRows(panels, rows) == Failure(e)
  {
    assert rows[..i + 1][..i] == rows[..i];
    ResolveRowsFirstFailure(panels, rows, i);
  }

  /** The parameter fold, one update further. */
  lemma ApplyStep(params: seq<Parameter>, us: seq<Update>, u: Update)
    ensures Apply(params, us + [u]) == Upsert(Apply(params, us), u)
  {
    assert (us + [u])[..|us|] == us;
  }

  /** How `Loaded` comes out once the stages are known. */
  lemma LoadedStages(s: Store, rows: seq<RefRow>, names: seq<string>)
    requires PanelNames(rows) == Success(names)
    ensures var panels := WithPanels(s.panels, names);
      Loaded(s, Success(rows)) ==
        match ResolveRows(panels, rows)
        case Failure(e) => Failure(e)
        case Success(us) => Success(s.(panels := panels, parameters := Apply(s.parameters, us)))
  {
  }

  /** The panel loop: `get_or_create` of each sorted name. */
  method CreatePanels(db: Database, names: seq<string>)
    modifies db
    ensures db.panels == WithPanels(old(db.panels), names)
    ensures db.parameters == old(db.parameters)
    ensures unchanged(db`clinicalSamples, db`processedSamples, db`dataProcessings, db`numericParameters)
  {
    ghost var panels0 := db.panels;
    for i := 0 to |names|
      invariant db.panels == WithPanels(panels0, names[..i])
      invariant db.parameters == old(db.parameters)
      invariant unchanged(db`clinicalSamples, db`processedSamples, db`dataProcessings, db`numericParameters)
    {
      assert names[..i + 1][..i] == names[..i];
      if FindPanel(db.panels, names[i]).None? {
        db.panels := db.panels + [Panel(names[i])];
      }
    }
    assert names[..|names|] == names;
  }

  /** The parameter loop. It stops at the first row whose panel lookup
      raises, with what that lookup raises. */
  method UpdateParameters(db: Database, rows: seq<RefRow>) returns (r: Result<(), Error>)
    modifies db
    ensures ResolveRows(old(db.panels), rows).Failure? ==> r == Failure(ResolveRows(old(db.panels), rows).error)
    ensures ResolveRows(old(db.panels), rows).Success? ==>
      r == Success(()) && db.parameters == Apply(old(db.parameters), ResolveRows(old(db.panels), rows).value)
    ensures db.panels == old(db.panels)
    ensures unchanged(db`clinicalSamples, db`processedSamples, db`dataProcessings, db`numericParameters)
  {
    ghost var params0 := db.parameters;
    ghost var us: seq<Update> := [];
    for i := 0 to |rows|
      invariant db.parameters == Apply(params0, us)
      invariant ResolveRows(db.panels, rows[..i]) == Success(us)
      invariant db.panels == old(db.panels)
      invariant unchanged(db`clinicalSamples, db`processedSamples, db`dataProcessings, db`numericParameters)
    {
      var row := rows[i];
      if !row.panel.Str? {
        ResolveRowsStepFails(db.panels, rows, i, us, AttributeError(row.panel));
        return Failure(AttributeError(row.panel));
      }
      var pk := FindPanel(db.panels, Upper(row.panel.text));
      if pk.None? {
        ResolveRowsStepFails(db.panels, rows, i, us, PanelDoesNotExist(Upper(row.panel.text)));
        return Failure(PanelDoesNotExist(Upper(row.panel.text)));
      }
      var u := Update(row.gatingHierarchy, pk.value, row.markerString, row.publicPopulationName, row.presentedOnWebpageAs);
      ResolveRowsStep(db.panels, rows, i, us, pk.value);
      ApplyStep(params0, us, u);
      ghost var before := db.parameters;
      var found := FindParameter(db.parameters, u.gatingHierarchy, u.panel);
      if found.Some? {
        db.parameters := db.parameters[found.value := Assign(db.parameters[found.value], u)];
      } else {
        db.parameters := db.parameters + [Assign(Fresh(u.gatingHierarchy, u.panel), u)];
      }
      assert db.parameters == Upsert(before, u);
      us := us + [u];
    }
    assert rows[..|rows|] == rows;
    r := Success(());
  }

  /** `Command.handle`, with the spreadsheet already read (or the read's
      error message). Either the tables become `Loaded` or the command
      raises and the transaction leaves them as they were. */
  method UpdateReferenceData(db: Database, sheet: Result<seq<RefRow>, string>) returns (r: Result<(), Error>)
    modifies db
    ensures Loaded(old(db.State()), sheet).Failure? ==>
      r == Failure(Loaded(old(db.State()), sheet).error) && db.State() == old(db.State())
    ensures Loaded(old(db.State()), sheet).Success? ==>
      r == Success(()) && db.State() == Loaded(old(db.State()), sheet).value
  {
    if sheet.Failure? {
      return Failure(CommandError(sheet.error));
    }
    var snapshot := db.State();
    var rows := sheet.value;
    var namesOrError := PanelNames(rows);
    if namesOrError.Failure? {
      return Failure(namesOrError.error);
    }
    var names := namesOrError.value;
    LoadedStages(snapshot, rows, names);
    CreatePanels(db, names);
    r := UpdateParameters(db, rows);
    if r.Failure? {
      db.Rollback(snapshot);
    }
  }
}
