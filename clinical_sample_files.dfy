/** `ClinicalSampleFile` from openfacstrack/apps/track/utils.py: a results
    file for one panel, checked against the Panel/Parameter dictionary and
    then ingested into the sample tables in one transaction. */
module ClinicalSampleFiles {
  import opened Wrappers
  import opened Seqs
  import opened Strings
  import opened Tables
  import opened Models

  /** The columns every results file is expected to carry. */
  const StaticColumns: seq<string> :=
    ["batch", "X1", "Operator name", "Comments", "Date", "Panel", "Clinical_sample"]

  /** The Python exceptions the two operations can raise. */
  datatype Exception =
    | KeyError(column: string)              // a column the code indexes is absent
    | AttributeError(value: Cell)           // `.upper()` on a panel value that is not text
    | PanelDoesNotExist(name: string)       // `Panel.objects.get` found nothing
    | ParameterDoesNotExist(column: string) // `Parameter.objects.get` found nothing
    | MultipleObjectsReturned(column: string) // `Parameter.objects.get` found several
    | IndexError                            // `self.panels[0]` on an empty list
    | ValueError(column: string)            // `read_csv` told to parse a date column that is absent

  /** The object built by the constructor: the frame, the parameter columns
      and the distinct panel values. */
  datatype ClinicalSampleFile = ClinicalSampleFile(
    df: Table,
    parameterColumns: seq<string>,
    panels: seq<Cell>)

  /** The constructor, given the frame as parsed. Reading asks for the Date
      column to be parsed as dates, which raises when that column is absent;
      after that, indexing `df["Panel"]` raises when that column is absent. */
  function Load(df: Table): (r: Result<ClinicalSampleFile, Exception>)
    requires WellFormed(df)
    ensures r.Failure? <==> "Date" !in df.columns || "Panel" !in df.columns
    ensures "Date" !in df.columns ==> r == Failure(ValueError("Date"))
    ensures "Date" in df.columns && "Panel" !in df.columns ==> r == Failure(KeyError("Panel"))
    ensures r.Success? ==> r.value.df == df
  {
    if "Date" !in df.columns then Failure(ValueError("Date"))
    else if "Panel" !in df.columns then Failure(KeyError("Panel"))
    else Success(ClinicalSampleFile(df, Without(df.columns, StaticColumns), Distinct(Column(df, "Panel"))))
  }

  /** `f` is an object the constructor can build. */
  predicate Valid(f: ClinicalSampleFile)
  {
    WellFormed(f.df) && Load(f.df) == Success(f)
  }

  /** The constructor's parameter columns are exactly the non-static columns,
      and its panels are the distinct Panel values, without repeats, first
      the one of the first row. */
  lemma LoadDerivesColumnsAndPanels(df: Table)
    requires WellFormed(df) && "Date" in df.columns && "Panel" in df.columns
    ensures Load(df).Success? && Valid(Load(df).value)
    ensures var f := Load(df).value;
      && (forall c :: c in f.parameterColumns <==> c in df.columns && c !in StaticColumns)
      && NoDuplicates(f.parameterColumns)
      && (forall p :: p in f.panels <==> exists i :: 0 <= i < |df.rows| && At(df, i, "Panel") == p)
      && NoDuplicates(f.panels)
      && (|df.rows| > 0 ==> f.panels[0] == At(df, 0, "Panel"))
  {
    forall p ensures p in Load(df).value.panels <==> exists i :: 0 <= i < |df.rows| && At(df, i, "Panel") == p {
      InColumn(df, "Panel", p);
    }
  }

  /** The panels `validate` looks at: the distinct Panel values, or none when
      the column is absent. */
  function PanelsInData(df: Table): (r: seq<Cell>)
    requires WellFormed(df)
  {
    if "Panel" in df.columns then Distinct(Column(df, "Panel")) else []
  }

  // ---------------------------------------------------------------------
  // validate()
  // ---------------------------------------------------------------------

  /** The returned dictionary, one optional entry per error kind. */
  datatype ValidationErrors = ValidationErrors(
    staticColumnsMissing: Option<seq<string>>,
    uniquePanelError: Option<seq<Cell>>,
    unknownPanelError: Option<seq<Cell>>,
    unregisteredParameters: Option<seq<string>>)
  {
    predicate IsEmpty()
    {
      staticColumnsMissing.None? && uniquePanelError.None? && unknownPanelError.None?
      && unregisteredParameters.None?
    }
  }

  /** What the panel loop of `validate` collects: the primary keys of the
      known panels and the values naming no panel. */
  datatype PanelCheck = PanelCheck(knownPks: seq<nat>, unknown: seq<Cell>)

  /** Some panel value of the file has upper-cased form `panels[pk].name`. */
  ghost predicate IsKnownPanel(panels: seq<Panel>, inData: seq<Cell>, pk: nat)
  {
    exists i :: 0 <= i < |inData| && inData[i].Str? && FindPanel(panels, Upper(inData[i].text)) == Some(pk)
  }

  /** The panel loop: look each value up by its upper-cased form. */
  function CheckPanels(panels: seq<Panel>, inData: seq<Cell>): (r: Result<PanelCheck, Exception>)
    ensures r.Failure? <==> exists v :: v in inData && !v.Str?
    ensures r.Failure? ==> r.error.AttributeError? && r.error.value in inData && !r.error.value.Str?
    ensures r.Success? ==> forall v :: v in r.value.unknown <==>
              v in inData && v.Str? && FindPanel(panels, Upper(v.text)).None?
    ensures r.Success? ==> forall pk :: pk in r.value.knownPks <==> IsKnownPanel(panels, inData, pk)
  {
    if |inData| == 0 then Success(PanelCheck([], []))
    else
      var rest := inData[..|inData| - 1];
      var v := inData[|inData| - 1];
      assert inData == rest + [v];
      match CheckPanels(panels, rest)
      case Failure(e) => Failure(e)
      case Success(c) =>
        if !v.Str? then Failure(AttributeError(v))
        else
          match FindPanel(panels, Upper(v.text))
          case Some(pk) =>
            IsKnownPanelAppend(panels, rest, v);
            Success(PanelCheck(c.knownPks + [pk], c.unknown))
          case None =>
            IsKnownPanelAppend(panels, rest, v);
            Success(PanelCheck(c.knownPks, c.unknown + [v]))
  }

  /** Appending a value adds the key it resolves to, if any, to the known keys. */
  lemma IsKnownPanelAppend(panels: seq<Panel>, rest: seq<Cell>, v: Cell)
    ensures forall q: nat :: IsKnownPanel(panels, rest + [v], q) <==>
              IsKnownPanel(panels, rest, q) || (v.Str? && FindPanel(panels, Upper(v.text)) == Some(q))
  {
    var inData := rest + [v];
    forall q: nat ensures IsKnownPanel(panels, inData, q) <==>
        IsKnownPanel(panels, rest, q) || (v.Str? && FindPanel(panels, Upper(v.text)) == Some(q))
    {
      if IsKnownPanel(panels, inData, q) {
        var i :| 0 <= i < |inData| && inData[i].Str? && FindPanel(panels, Upper(inData[i].text)) == Some(q);
        if i < |rest| { assert rest[i] == inData[i]; }
      }
      if IsKnownPanel(panels, rest, q) {
        var i :| 0 <= i < |rest| && rest[i].Str? && FindPanel(panels, Upper(rest[i].text)) == Some(q);
        assert inData[i] == rest[i];
      }
      if v.Str? && FindPanel(panels, Upper(v.text)) == Some(q) {
        assert inData[|rest|] == v;
      }
    }
  }

  /** Each distinct panel value is reported unknown at most once. */
  lemma {:induction false} CheckPanelsUnknownDistinct(panels: seq<Panel>, inData: seq<Cell>)
    requires NoDuplicates(inData) && CheckPanels(panels, inData).Success?
    ensures NoDuplicates(CheckPanels(panels, inData).value.unknown)
  {
    if |inData| > 0 {
      var rest := inData[..|inData| - 1];
      var v := inData[|inData| - 1];
      assert inData == rest + [v];
      assert NoDuplicates(rest) && v !in rest;
      CheckPanelsUnknownDistinct(panels, rest);
    }
  }

  /** A Parameter matches a column when it has that gating hierarchy and
      belongs to one of the given panels (`panel__in`). */
  predicate Matches(p: Parameter, gh: string, pks: seq<nat>)
  {
    p.gatingHierarchy == gh && p.panel in pks
  }

  /** Two distinct Parameters of `params` match the query. */
  predicate TwoMatch(params: seq<Parameter>, gh: string, pks: seq<nat>)
  {
    exists i, j :: 0 <= i < j < |params| && Matches(params[i], gh, pks) && Matches(params[j], gh, pks)
  }

  /** How many Parameters the query for one column returns. */
  function CountMatches(params: seq<Parameter>, gh: string, pks: seq<nat>): (r: nat)
    ensures r == 0 <==> forall k :: 0 <= k < |params| ==> !Matches(params[k], gh, pks)
    ensures r >= 2 <==> TwoMatch(params, gh, pks)
  {
    if |params| == 0 then 0
    else
      var rest := params[..|params| - 1];
      var last := params[|params| - 1];
      var n := CountMatches(rest, gh, pks);
      NoMatchAppend(params, rest, last, gh, pks);
      TwoMatchAppend(params, rest, last, gh, pks);
      if Matches(last, gh, pks) then n + 1 else n
  }

  /** No Parameter of `rest + [last]` matches exactly when none of `rest` does
      and `last` does not. */
  lemma NoMatchAppend(params: seq<Parameter>, rest: seq<Parameter>, last: Parameter, gh: string, pks: seq<nat>)
    requires params == rest + [last]
    ensures (forall k :: 0 <= k < |params| ==> !Matches(params[k], gh, pks)) <==>
      (forall k :: 0 <= k < |rest| ==> !Matches(rest[k], gh, pks)) && !Matches(last, gh, pks)
  {
    assert forall k :: 0 <= k < |rest| ==> rest[k] == params[k];
    assert params[|rest|] == last;
  }

  /** Two Parameters of `rest + [last]` match exactly when two of `rest` do, or
      `last` and one of `rest` do. */
  lemma TwoMatchAppend(params: seq<Parameter>, rest: seq<Parameter>, last: Parameter, gh: string, pks: seq<nat>)
    requires params == rest + [last]
    ensures TwoMatch(params, gh, pks) <==>
      || TwoMatch(rest, gh, pks)
      || (Matches(last, gh, pks) && exists k :: 0 <= k < |rest| && Matches(rest[k], gh, pks))
  {
    if TwoMatch(params, gh, pks) {
      var i, j :| 0 <= i < j < |params| && Matches(params[i], gh, pks) && Matches(params[j], gh, pks);
      assert params[i] == rest[i];
      if j < |rest| {
        assert params[j] == rest[j];
      } else {
        assert params[j] == last;
      }
    }
    if Matches(last, gh, pks) && exists k :: 0 <= k < |rest| && Matches(rest[k], gh, pks) {
      var k :| 0 <= k < |rest| && Matches(rest[k], gh, pks);
      assert params[k] == rest[k] && params[|rest|] == last;
    }
    if TwoMatch(rest, gh, pks) {
      var i, j :| 0 <= i < j < |rest| && Matches(rest[i], gh, pks) && Matches(rest[j], gh, pks);
      assert params[i] == rest[i] && params[j] == rest[j];
    }
  }

  /** The parameter loop: columns whose query finds nothing are unregistered;
      one whose query finds several makes `get` raise. */
  function CheckParameters(params: seq<Parameter>, columns: seq<string>, pks: seq<nat>): (r: Result<seq<string>, Exception>)
    ensures r.Failure? <==> exists c :: c in columns && CountMatches(params, c, pks) >= 2
    ensures r.Failure? ==> r.error.MultipleObjectsReturned? && r.error.column in columns
    ensures r.Success? ==> forall c :: c in r.value <==> c in columns && CountMatches(params, c, pks) == 0
  {
    if |columns| == 0 then Success([])
    else
      var rest := columns[..|columns| - 1];
      var c := columns[|columns| - 1];
      assert columns == rest + [c];
      match CheckParameters(params, rest, pks)
      case Failure(e) =>
        assert forall x :: x in rest ==> x in columns;
        Failure(e)
      case Success(u) =>
        var n := CountMatches(params, c, pks);
        if n >= 2 then
          assert c in columns;
          Failure(MultipleObjectsReturned(c))
        else if n == 0 then Success(u + [c])
        else Success(u)
  }

  /** What `validate()` returns, or the exception it raises. */
  function Validated(s: Store, f: ClinicalSampleFile): (r: Result<ValidationErrors, Exception>)
    requires WellFormed(f.df)
  {
    var missing := Without(StaticColumns, f.df.columns);
    var inData := PanelsInData(f.df);
    match CheckPanels(s.panels, inData)
    case Failure(e) => Failure(e)
    case Success(pc) =>
      match CheckParameters(s.parameters, f.parameterColumns, pc.knownPks)
      case Failure(e) => Failure(e)
      case Success(unregistered) =>
        Success(ValidationErrors(
          if |missing| > 0 then Some(missing) else None,
          if "Panel" in f.df.columns && |inData| != 1 then Some(inData) else None,
          if |pc.unknown| > 0 then Some(pc.unknown) else None,
          if |unregistered| > 0 then Some(unregistered) else None))
  }

  lemma {:induction false} CheckPanelsPrefixFailure(panels: seq<Panel>, inData: seq<Cell>, i: nat)
    requires i <= |inData| && CheckPanels(panels, inData[..i]).Failure?
    ensures CheckPanels(panels, inData) == CheckPanels(panels, inData[..i])
    decreases |inData|
  {
    if |inData| > i {
      var rest := inData[..|inData| - 1];
      assert rest[..i] == inData[..i];
      CheckPanelsPrefixFailure(panels, rest, i);
    } else {
      assert inData[..i] == inData;
    }
  }

  lemma {:induction false} CheckParametersPrefixFailure(params: seq<Parameter>, columns: seq<string>, pks: seq<nat>, i: nat)
    requires i <= |columns| && CheckParameters(params, columns[..i], pks).Failure?
    ensures CheckParameters(params, columns, pks) == CheckParameters(params, columns[..i], pks)
    decreases |columns|
  {
    if |columns| > i {
      var rest := columns[..|columns| - 1];
      assert rest[..i] == columns[..i];
      CheckParametersPrefixFailure(params, rest, pks, i);
    } else {
      assert columns[..i] == columns;
    }
  }

  /** The loop collecting the required columns the file lacks. */
  method MissingColumns(required: seq<string>, columns: seq<string>) returns (missing: seq<string>)
    ensures missing == Without(required, columns)
  {
    missing := [];
    for i := 0 to |required|
      invariant missing == Without(required[..i], columns)
    {
      assert required[..i + 1][..i] == required[..i];
      if required[i] !in columns {
        missing := missing + [required[i]];
      }
    }
    assert required[..|required|] == required;
  }

  /** The loop looking each panel of the file up by its upper-cased name. */
  method KnownPanels(db: Database, inData: seq<Cell>) returns (r: Result<PanelCheck, Exception>)
    ensures r == CheckPanels(db.panels, inData)
  {
    var knownPks: seq<nat> := [];
    var unknown: seq<Cell> := [];
    for i := 0 to |inData|
      invariant CheckPanels(db.panels, inData[..i]) == Success(PanelCheck(knownPks, unknown))
    {
      var v := inData[i];
      assert inData[..i + 1][..i] == inData[..i];
      assert inData[..i + 1][i] == v;
      if !v.Str? {
        CheckPanelsPrefixFailure(db.panels, inData, i + 1);
        return Failure(AttributeError(v));
      }
      var found := FindPanel(db.panels, Upper(v.text));
      if found.Some? {
        knownPks := knownPks + [found.value];
      } else {
        unknown := unknown + [v];
      }
    }
    assert inData[..|inData|] == inData;
    r := Success(PanelCheck(knownPks, unknown));
  }

  /** The loop counting each parameter column's Parameters under the known panels. */
  method UnregisteredParameters(db: Database, columns: seq<string>, knownPks: seq<nat>) returns (r: Result<seq<string>, Exception>)
    ensures r == CheckParameters(db.parameters, columns, knownPks)
  {
    var unregistered: seq<string> := [];
    for i := 0 to |columns|
      invariant CheckParameters(db.parameters, columns[..i], knownPks) == Success(unregistered)
    {
      var column := columns[i];
      assert columns[..i + 1][..i] == columns[..i];
      assert columns[..i + 1][i] == column;
      var n := CountMatches(db.parameters, column, knownPks);
      if n >= 2 {
        CheckParametersPrefixFailure(db.parameters, columns, knownPks, i + 1);
        return Failure(MultipleObjectsReturned(column));
      }
      if n == 0 {
        unregistered := unregistered + [column];
      }
    }
    assert columns[..|columns|] == columns;
    r := Success(unregistered);
  }

  /** `validate()`. */
  method Validate(db: Database, f: ClinicalSampleFile) returns (r: Result<ValidationErrors, Exception>)
    requires WellFormed(f.df)
    ensures r == Validated(db.State(), f)
  {
    var missing := MissingColumns(StaticColumns, f.df.columns);
    var uniquePanelError: Option<seq<Cell>> := None;
    var inData: seq<Cell> := [];
    var panelCheck := PanelCheck([], []);
    if "Panel" in f.df.columns {
      inData := Distinct(Column(f.df, "Panel"));
      if |inData| != 1 {
        uniquePanelError := Some(inData);
      }
      var checked := KnownPanels(db, inData);
      if checked.Failure? {
        return Failure(checked.error);
      }
      panelCheck := checked.value;
    }
    var unregistered := UnregisteredParameters(db, f.parameterColumns, panelCheck.knownPks);
    if unregistered.Failure? {
      return Failure(unregistered.error);
    }
    r := Success(ValidationErrors(
      if |missing| > 0 then Some(missing) else None,
      uniquePanelError,
      if |panelCheck.unknown| > 0 then Some(panelCheck.unknown) else None,
      if |unregistered.value| > 0 then Some(unregistered.value) else None));
  }

  // Properties of validate()

  /** Parameter `k` belongs to a panel that some text Panel value of the file
      names once upper-cased. */
  ghost predicate UnderFilePanel(s: Store, f: ClinicalSampleFile, k: nat)
    requires s.Valid() && WellFormed(f.df) && k < |s.parameters|
  {
    exists v :: v in PanelsInData(f.df) && v.Str? && Upper(v.text) == s.panels[s.parameters[k].panel].name
  }

  /** The panel keys the panel loop collects are those of the file's panels. */
  lemma KnownPksAreFilePanels(s: Store, f: ClinicalSampleFile)
    requires s.Valid() && WellFormed(f.df)
    requires CheckPanels(s.panels, PanelsInData(f.df)).Success?
    ensures forall k :: 0 <= k < |s.parameters| ==>
      (s.parameters[k].panel in CheckPanels(s.panels, PanelsInData(f.df)).value.knownPks <==> UnderFilePanel(s, f, k))
  {
    var inData := PanelsInData(f.df);
    var pks := CheckPanels(s.panels, inData).value.knownPks;
    forall k | 0 <= k < |s.parameters|
      ensures s.parameters[k].panel in pks <==> UnderFilePanel(s, f, k)
    {
      var pk := s.parameters[k].panel;
      if pk in pks {
        var i :| 0 <= i < |inData| && inData[i].Str? && FindPanel(s.panels, Upper(inData[i].text)) == Some(pk);
        assert inData[i] in inData;
      }
      if UnderFilePanel(s, f, k) {
        var v :| v in inData && v.Str? && Upper(v.text) == s.panels[pk].name;
        FindPanelUnique(s.panels, Upper(v.text), pk);
        var i :| 0 <= i < |inData| && inData[i] == v;
        assert IsKnownPanel(s.panels, inData, pk);
      }
    }
  }

  /** `static_columns_missing` lists exactly the absent static columns, in
      their declared order, and is left out when none is absent. */
  lemma ValidateReportsMissingStaticColumns(s: Store, f: ClinicalSampleFile)
    requires WellFormed(f.df) && Validated(s, f).Success?
    ensures var e := Validated(s, f).value;
      && (e.staticColumnsMissing.Some? <==> exists c :: c in StaticColumns && c !in f.df.columns)
      && (e.staticColumnsMissing.Some? ==>
            var m := e.staticColumnsMissing.value;
            && (forall c :: c in m <==> c in StaticColumns && c !in f.df.columns)
            && forall i, j :: 0 <= i < j < |m| ==> IndexOf(StaticColumns, m[i]) < IndexOf(StaticColumns, m[j]))
  {
    var m := Without(StaticColumns, f.df.columns);
    assert NoDuplicates(StaticColumns);
    forall i, j | 0 <= i < j < |m|
      ensures IndexOf(StaticColumns, m[i]) < IndexOf(StaticColumns, m[j])
    {
      WithoutKeepsOrder(StaticColumns, f.df.columns, i, j);
    }
    if exists c :: c in StaticColumns && c !in f.df.columns {
      var c :| c in StaticColumns && c !in f.df.columns;
      assert c in m;
    }
    if |m| > 0 {
      assert m[0] in m;
    }
  }

  /** `unique_panel_error` is raised exactly when the Panel column is present
      and its rows do not all carry one and the same value; it then names the
      distinct values found, each once. */
  lemma ValidateReportsPanelCount(s: Store, f: ClinicalSampleFile)
    requires WellFormed(f.df) && Validated(s, f).Success?
    ensures var e := Validated(s, f).value;
      && (e.uniquePanelError.None? <==>
            || "Panel" !in f.df.columns
            || (|f.df.rows| > 0 && forall i :: 0 <= i < |f.df.rows| ==> At(f.df, i, "Panel") == At(f.df, 0, "Panel")))
      && (e.uniquePanelError.Some? ==>
            && NoDuplicates(e.uniquePanelError.value)
            && forall p :: p in e.uniquePanelError.value <==> exists i :: 0 <= i < |f.df.rows| && At(f.df, i, "Panel") == p)
  {
    if "Panel" in f.df.columns {
      var col := Column(f.df, "Panel");
      var d := Distinct(col);
      forall p ensures p in d <==> exists i :: 0 <= i < |f.df.rows| && At(f.df, i, "Panel") == p {
        InColumn(f.df, "Panel", p);
      }
      if |f.df.rows| > 0 && forall i :: 0 <= i < |f.df.rows| ==> At(f.df, i, "Panel") == At(f.df, 0, "Panel") {
        DistinctOfConstant(col, At(f.df, 0, "Panel"));
      }
      if |d| == 1 {
        DistinctSingleton(col);
      }
    }
  }

  /** `unknown_panel_error` names exactly the distinct text Panel values whose
      upper-cased form is the name of no Panel. */
  lemma ValidateReportsUnknownPanels(s: Store, f: ClinicalSampleFile)
    requires WellFormed(f.df) && Validated(s, f).Success?
    ensures var e := Validated(s, f).value;
      var u := if e.unknownPanelError.Some? then e.unknownPanelError.value else [];
      && (e.unknownPanelError.Some? ==> u != [])
      && NoDuplicates(u)
      && forall v :: v in u <==>
           && "Panel" in f.df.columns
           && (exists i :: 0 <= i < |f.df.rows| && At(f.df, i, "Panel") == v)
           && v.Str?
           && forall k :: 0 <= k < |s.panels| ==> s.panels[k].name != Upper(v.text)
  {
    var inData := PanelsInData(f.df);
    var pc := CheckPanels(s.panels, inData).value;
    if "Panel" in f.df.columns {
      forall v ensures v in inData <==> exists i :: 0 <= i < |f.df.rows| && At(f.df, i, "Panel") == v {
        InColumn(f.df, "Panel", v);
      }
    }
    if |pc.unknown| > 0 {
      assert pc.unknown[0] in pc.unknown;
    }
    CheckPanelsUnknownDistinct(s.panels, inData);
  }

  /** `c` has a Parameter under one of the file's panels. */
  ghost predicate Registered(s: Store, f: ClinicalSampleFile, c: string)
    requires s.Valid() && WellFormed(f.df)
  {
    exists k :: 0 <= k < |s.parameters| && s.parameters[k].gatingHierarchy == c && UnderFilePanel(s, f, k)
  }

  /** A parameter column is reported unregistered exactly when no Parameter
      with that gating hierarchy belongs to a panel the file names. */
  lemma ValidateReportsUnregisteredParameters(s: Store, f: ClinicalSampleFile)
    requires s.Valid() && WellFormed(f.df) && Validated(s, f).Success?
    ensures var e := Validated(s, f).value;
      var u := if e.unregisteredParameters.Some? then e.unregisteredParameters.value else [];
      && (e.unregisteredParameters.Some? ==> u != [])
      && forall c :: c in u <==> c in f.parameterColumns && !Registered(s, f, c)
  {
    KnownPksAreFilePanels(s, f);
  }

  /** Without a Panel column no panel is known, so every parameter column is
      reported and no panel error is. */
  lemma ValidateWithoutPanelColumn(s: Store, f: ClinicalSampleFile)
    requires WellFormed(f.df) && "Panel" !in f.df.columns
    ensures Validated(s, f).Success?
    ensures var e := Validated(s, f).value;
      && e.uniquePanelError.None? && e.unknownPanelError.None?
      && (e.unregisteredParameters.Some? <==> f.parameterColumns != [])
      && (e.unregisteredParameters.Some? ==> forall c :: c in e.unregisteredParameters.value <==> c in f.parameterColumns)
  {
    if f.parameterColumns != [] {
      assert f.parameterColumns[0] in f.parameterColumns;
    }
  }

  /** Two Parameters carry gating hierarchy `c` under panels of the file, so
      the query for `c` returns more than one object. */
  ghost predicate Ambiguous(s: Store, f: ClinicalSampleFile, c: string)
    requires s.Valid() && WellFormed(f.df)
  {
    exists i, j :: 0 <= i < j < |s.parameters|
      && s.parameters[i].gatingHierarchy == c && UnderFilePanel(s, f, i)
      && s.parameters[j].gatingHierarchy == c && UnderFilePanel(s, f, j)
  }

  /** `validate` raises exactly when a panel value is not text, or when some
      parameter column's gating hierarchy is registered under two of the
      file's panels. */
  lemma ValidateRaisesExactlyWhen(s: Store, f: ClinicalSampleFile)
    requires s.Valid() && WellFormed(f.df)
    ensures Validated(s, f).Failure? <==>
      || (exists v :: v in PanelsInData(f.df) && !v.Str?)
      || (exists c :: c in f.parameterColumns && Ambiguous(s, f, c))
  {
    var cp := CheckPanels(s.panels, PanelsInData(f.df));
    if cp.Success? {
      forall c | c in f.parameterColumns
        ensures CountMatches(s.parameters, c, cp.value.knownPks) >= 2 <==> Ambiguous(s, f, c)
      {
        AmbiguousExactlyWhen(s, f, c);
      }
    }
  }

  /** The query for `c` under the known panels returns two objects exactly
      when `c` is ambiguous. */
  lemma AmbiguousExactlyWhen(s: Store, f: ClinicalSampleFile, c: string)
    requires s.Valid() && WellFormed(f.df) && CheckPanels(s.panels, PanelsInData(f.df)).Success?
    ensures CountMatches(s.parameters, c, CheckPanels(s.panels, PanelsInData(f.df)).value.knownPks) >= 2
            <==> Ambiguous(s, f, c)
  {
    var pks := CheckPanels(s.panels, PanelsInData(f.df)).value.knownPks;
    KnownPksAreFilePanels(s, f);
    if Ambiguous(s, f, c) {
      var i, j :| 0 <= i < j < |s.parameters|
        && s.parameters[i].gatingHierarchy == c && UnderFilePanel(s, f, i)
        && s.parameters[j].gatingHierarchy == c && UnderFilePanel(s, f, j);
      assert Matches(s.parameters[i], c, pks) && Matches(s.parameters[j], c, pks);
    }
  }

  /** The dictionary is empty exactly when none of the four checks fires:
      every static column is present, there is exactly one panel value, it
      names a Panel, and every parameter column is registered under it. */
  lemma ValidateEmptyExactlyWhen(s: Store, f: ClinicalSampleFile)
    requires s.Valid() && WellFormed(f.df) && Validated(s, f).Success?
    ensures Validated(s, f).value.IsEmpty() <==>
      && (forall c :: c in StaticColumns ==> c in f.df.columns)
      && |PanelsInData(f.df)| == 1
      && (forall v :: v in PanelsInData(f.df) ==> v.Str? && FindPanel(s.panels, Upper(v.text)).Some?)
      && (forall c :: c in f.parameterColumns ==> Registered(s, f, c))
  {
    var e := Validated(s, f).value;
    var inData := PanelsInData(f.df);
    assert e.staticColumnsMissing.None? <==> forall c :: c in StaticColumns ==> c in f.df.columns by {
      ValidateReportsMissingStaticColumns(s, f);
    }
    assert e.unknownPanelError.None? <==>
        forall v :: v in inData ==> v.Str? && FindPanel(s.panels, Upper(v.text)).Some? by {
      var pc := CheckPanels(s.panels, inData).value;
      if |pc.unknown| > 0 {
        assert pc.unknown[0] in pc.unknown;
      }
      if exists v :: v in inData && !(v.Str? && FindPanel(s.panels, Upper(v.text)).Some?) {
        var v :| v in inData && !(v.Str? && FindPanel(s.panels, Upper(v.text)).Some?);
        assert v in pc.unknown;
      }
    }
    assert e.unregisteredParameters.None? <==> forall c :: c in f.parameterColumns ==> Registered(s, f, c) by {
      ValidateReportsUnregisteredParameters(s, f);
      var u := if e.unregisteredParameters.Some? then e.unregisteredParameters.value else [];
      if e.unregisteredParameters.Some? {
        assert u[0] in u;
      }
      if exists c :: c in f.parameterColumns && !Registered(s, f, c) {
        var c :| c in f.parameterColumns && !Registered(s, f, c);
        assert c in u;
      }
    }
    assert e.staticColumnsMissing.None? ==> "Panel" in f.df.columns;
  }

  // ---------------------------------------------------------------------
  // upload()
  // ---------------------------------------------------------------------

  /** One entry of the returned `upload_issues`: the row index and parameter
      column of a cell that is not a number, and the cell itself. */
  datatype Issue = Issue(row: nat, parameter: string, value: Cell)

  /** Both the tables after `upload()` and what it returns or raises. */
  datatype UploadRun = UploadRun(store: Store, outcome: Result<seq<Issue>, Exception>)

  /** `ClinicalSample.objects.get_or_create(covid_patient_id=v)` for each
      id in turn. */
  function WithSamples(cs: seq<ClinicalSample>, ids: seq<Cell>): (r: seq<ClinicalSample>)
    ensures |cs| <= |r| && r[..|cs|] == cs
  {
    if |ids| == 0 then cs
    else
      var t := WithSamples(cs, ids[..|ids| - 1]);
      var v := ids[|ids| - 1];
      if FindSample(t, v).Some? then t
      else
        assert (t + [ClinicalSample(v)])[..|cs|] == t[..|cs|];
        t + [ClinicalSample(v)]
  }

  /** After get_or_create of every id, exactly the old ids and the new ones
      have a sample; every added sample has one of the ids, and ids stay
      unique. */
  lemma {:induction false} WithSamplesRegisters(cs: seq<ClinicalSample>, ids: seq<Cell>)
    ensures var r := WithSamples(cs, ids);
      && (forall v :: FindSample(r, v).Some? <==> FindSample(cs, v).Some? || v in ids)
      && (forall k :: |cs| <= k < |r| ==> r[k].covidPatientId in ids)
      && (UniqueSamples(cs) ==> UniqueSamples(r))
  {
    if |ids| > 0 {
      var rest := ids[..|ids| - 1];
      var v := ids[|ids| - 1];
      assert ids == rest + [v];
      WithSamplesRegisters(cs, rest);
      var t := WithSamples(cs, rest);
      if FindSample(t, v).None? {
        var u := t + [ClinicalSample(v)];
        forall w ensures FindSample(u, w).Some? <==> FindSample(t, w).Some? || w == v {
          assert forall k :: 0 <= k < |t| ==> u[k] == t[k];
          assert u[|t|].covidPatientId == v;
        }
      }
    }
  }

  /** `clinical_samples_pk`: each id's primary key in the sample table. */
  function SamplePks(cs: seq<ClinicalSample>, ids: seq<Cell>): (m: map<Cell, nat>)
    ensures forall v :: v in m <==> v in ids && FindSample(cs, v).Some?
    ensures forall v :: v in m ==> m[v] < |cs| && cs[m[v]].covidPatientId == v
  {
    map v | v in ids && FindSample(cs, v).Some? :: FindSample(cs, v).value
  }

  /** `panels_pk`: each panel value's primary key, looked up by its
      upper-cased form; the first failing lookup raises. */
  function ResolvePanels(panels: seq<Panel>, values: seq<Cell>): (r: Result<map<Cell, nat>, Exception>)
    ensures r.Success? ==> r.value.Keys == set v | v in values
    ensures r.Success? ==> forall v :: v in r.value ==>
              v.Str? && r.value[v] < |panels| && panels[r.value[v]].name == Upper(v.text)
    ensures r.Failure? <==> exists v :: v in values && (!v.Str? || FindPanel(panels, Upper(v.text)).None?)
  {
    if |values| == 0 then Success(map[])
    else
      var rest := values[..|values| - 1];
      var v := values[|values| - 1];
      assert values == rest + [v];
      match ResolvePanels(panels, rest)
      case Failure(e) =>
        assert forall x :: x in rest ==> x in values;
        Failure(e)
      case Success(m) =>
        if !v.Str? then Failure(AttributeError(v))
        else
          match FindPanel(panels, Upper(v.text))
          case None => Failure(PanelDoesNotExist(Upper(v.text)))
          case Some(pk) => Success(m[v := pk])
  }

  /** `parameters_pk`: each parameter column's Parameter under `panel`; the
      first failing lookup raises. */
  function ResolveParameters(params: seq<Parameter>, columns: seq<string>, panel: nat): (r: Result<seq<nat>, Exception>)
    ensures r.Success? ==> |r.value| == |columns|
    ensures r.Success? ==> forall j :: 0 <= j < |columns| ==>
              (r.value[j] < |params| && params[r.value[j]].gatingHierarchy == columns[j] && params[r.value[j]].panel == panel)
    ensures r.Failure? <==> exists c :: c in columns && FindParameter(params, c, panel).None?
  {
    if |columns| == 0 then Success([])
    else
      var rest := columns[..|columns| - 1];
      var c := columns[|columns| - 1];
      assert columns == rest + [c];
      match ResolveParameters(params, rest, panel)
      case Failure(e) =>
        assert forall x :: x in rest ==> x in columns;
        Failure(e)
      case Success(pks) =>
        match FindParameter(params, c, panel)
        case None =>
          assert c in columns;
          Failure(ParameterDoesNotExist(c))
        case Some(k) => Success(pks + [k])
  }

  /** The first column a row's records read that is absent, in the order the
      row loop reads them. */
  function MissingRowColumn(columns: seq<string>): (r: Option<string>)
    ensures r.None? <==> "Date" in columns && "Operator name" in columns && "Comments" in columns && "X1" in columns
  {
    if "Date" !in columns then Some("Date")
    else if "Operator name" !in columns then Some("Operator name")
    else if "Comments" !in columns then Some("Comments")
    else if "X1" !in columns then Some("X1")
    else None
  }

  /** The primary keys the row loop looks up. */
  datatype Keys = Keys(samplePks: map<Cell, nat>, panelPks: map<Cell, nat>, parameterPks: seq<nat>)

  /** Every key the row loop looks up is there. */
  predicate KeysCover(f: ClinicalSampleFile, keys: Keys)
  {
    && WellFormed(f.df)
    && "Clinical_sample" in f.df.columns && "Panel" in f.df.columns
    && (forall c :: c in f.parameterColumns ==> c in f.df.columns)
    && |keys.parameterPks| == |f.parameterColumns|
    && forall i :: 0 <= i < |f.df.rows| ==>
         At(f.df, i, "Clinical_sample") in keys.samplePks && At(f.df, i, "Panel") in keys.panelPks
  }

  /** Every column and key the row loop reads is there. */
  predicate Resolves(f: ClinicalSampleFile, keys: Keys)
  {
    KeysCover(f, keys) && MissingRowColumn(f.df.columns).None?
  }

  /** Every key points at an existing row of `s`. */
  predicate KeysInRange(s: Store, keys: Keys)
  {
    && (forall v :: v in keys.samplePks ==> keys.samplePks[v] < |s.clinicalSamples|)
    && (forall v :: v in keys.panelPks ==> keys.panelPks[v] < |s.panels|)
    && (forall j :: 0 <= j < |keys.parameterPks| ==> keys.parameterPks[j] < |s.parameters|)
  }

  /** The ProcessedSample saved for row `i`. */
  function RowSample(f: ClinicalSampleFile, keys: Keys, i: nat): ProcessedSample
    requires Resolves(f, keys) && i < |f.df.rows|
  {
    ProcessedSample(
      keys.samplePks[At(f.df, i, "Clinical_sample")],
      At(f.df, i, "Date"), At(f.df, i, "Operator name"), At(f.df, i, "Comments"))
  }

  /** The DataProcessing saved for row `i`, whose ProcessedSample has key `processed`. */
  function RowProcessing(f: ClinicalSampleFile, keys: Keys, processed: nat, i: nat): DataProcessing
    requires Resolves(f, keys) && i < |f.df.rows|
  {
    DataProcessing(processed, At(f.df, i, "X1"), keys.panelPks[At(f.df, i, "Panel")])
  }

  /** The NumericParameters saved for row `i` from its first `m` parameter columns. */
  function RowNumerics(f: ClinicalSampleFile, keys: Keys, processed: nat, i: nat, m: nat): (r: seq<NumericParameter>)
    requires Resolves(f, keys) && i < |f.df.rows| && m <= |f.parameterColumns|
  {
    if m == 0 then []
    else
      var cell := At(f.df, i, f.parameterColumns[m - 1]);
      RowNumerics(f, keys, processed, i, m - 1)
        + if IsNumber(cell) then [NumericParameter(processed, keys.parameterPks[m - 1], cell.value)] else []
  }

  /** The issues recorded for row `i` from its first `m` parameter columns. */
  function RowIssues(f: ClinicalSampleFile, i: nat, m: nat): (r: seq<Issue>)
    requires WellFormed(f.df) && i < |f.df.rows| && m <= |f.parameterColumns|
    requires forall c :: c in f.parameterColumns ==> c in f.df.columns
  {
    if m == 0 then []
    else
      var cell := At(f.df, i, f.parameterColumns[m - 1]);
      RowIssues(f, i, m - 1) + if IsNumber(cell) then [] else [Issue(i, f.parameterColumns[m - 1], cell)]
  }

  /** The ProcessedSamples saved for the first `n` rows. */
  function Processed(f: ClinicalSampleFile, keys: Keys, n: nat): (r: seq<ProcessedSample>)
    requires Resolves(f, keys) && n <= |f.df.rows|
    ensures |r| == n && forall i :: 0 <= i < n ==> r[i] == RowSample(f, keys, i)
  {
    if n == 0 then [] else Processed(f, keys, n - 1) + [RowSample(f, keys, n - 1)]
  }

  /** The DataProcessings saved for the first `n` rows, the ProcessedSample
      keys counting up from `base`. */
  function Processings(f: ClinicalSampleFile, keys: Keys, base: nat, n: nat): (r: seq<DataProcessing>)
    requires Resolves(f, keys) && n <= |f.df.rows|
    ensures |r| == n && forall i :: 0 <= i < n ==> r[i] == RowProcessing(f, keys, base + i, i)
  {
    if n == 0 then [] else Processings(f, keys, base, n - 1) + [RowProcessing(f, keys, base + n - 1, n - 1)]
  }

  /** The NumericParameters saved for the first `n` rows. */
  function Numerics(f: ClinicalSampleFile, keys: Keys, base: nat, n: nat): (r: seq<NumericParameter>)
    requires Resolves(f, keys) && n <= |f.df.rows|
  {
    if n == 0 then []
    else Numerics(f, keys, base, n - 1) + RowNumerics(f, keys, base + n - 1, n - 1, |f.parameterColumns|)
  }

  /** The issues recorded for the first `n` rows. */
  function Issues(f: ClinicalSampleFile, n: nat): (r: seq<Issue>)
    requires WellFormed(f.df) && n <= |f.df.rows|
    requires forall c :: c in f.parameterColumns ==> c in f.df.columns
  {
    if n == 0 then [] else Issues(f, n - 1) + RowIssues(f, n - 1, |f.parameterColumns|)
  }

  /** The distinct sample ids, in order of first appearance. */
  function SampleIds(f: ClinicalSampleFile): (r: seq<Cell>)
    requires WellFormed(f.df) && "Clinical_sample" in f.df.columns
    ensures forall v :: v in r <==> exists i :: 0 <= i < |f.df.rows| && At(f.df, i, "Clinical_sample") == v
  {
    assert forall v :: v in Column(f.df, "Clinical_sample") <==>
        exists i :: 0 <= i < |f.df.rows| && At(f.df, i, "Clinical_sample") == v by {
      forall v ensures v in Column(f.df, "Clinical_sample") <==>
          exists i :: 0 <= i < |f.df.rows| && At(f.df, i, "Clinical_sample") == v {
        InColumn(f.df, "Clinical_sample", v);
      }
    }
    Distinct(Column(f.df, "Clinical_sample"))
  }

  /** The sample table once every id of the file has been got or created. */
  function SamplesAfter(s: Store, f: ClinicalSampleFile): seq<ClinicalSample>
    requires WellFormed(f.df) && "Clinical_sample" in f.df.columns
  {
    WithSamples(s.clinicalSamples, SampleIds(f))
  }

  /** Every id of `m` is mapped to the position of a sample with that id. */
  ghost predicate PointsAt(cs: seq<ClinicalSample>, m: map<Cell, nat>)
  {
    forall v :: v in m ==> m[v] < |cs| && cs[m[v]].covidPatientId == v
  }

  /** Every panel key points at the Panel the upper-cased value names. */
  ghost predicate PanelsPointAt(panels: seq<Panel>, m: map<Cell, nat>)
  {
    forall v :: v in m ==> v.Str? && m[v] < |panels| && panels[m[v]].name == Upper(v.text)
  }

  /** Key `j` points at the Parameter of column `j` under `panel`. */
  ghost predicate ParametersPointAt(params: seq<Parameter>, columns: seq<string>, panel: nat, pks: seq<nat>)
  {
    && |pks| == |columns|
    && forall j :: 0 <= j < |columns| ==>
         pks[j] < |params| && params[pks[j]].gatingHierarchy == columns[j] && params[pks[j]].panel == panel
  }

  lemma FirstValueResolved(panels: seq<Panel>, values: seq<Cell>)
    requires |values| > 0 && ResolvePanels(panels, values).Success?
    ensures values[0] in ResolvePanels(panels, values).value
  {
    assert values[0] in values;
  }

  /** Once the panels resolve, every row's sample and panel have a key. */
  lemma ResolvedKeysCover(s: Store, f: ClinicalSampleFile, panelPks: map<Cell, nat>, parameterPks: seq<nat>)
    requires Valid(f) && "Clinical_sample" in f.df.columns
    requires ResolvePanels(s.panels, f.panels) == Success(panelPks) && |parameterPks| == |f.parameterColumns|
    ensures KeysCover(f, Keys(SamplePks(SamplesAfter(s, f), SampleIds(f)), panelPks, parameterPks))
  {
    var ids := SampleIds(f);
    var keys := Keys(SamplePks(SamplesAfter(s, f), ids), panelPks, parameterPks);
    WithSamplesRegisters(s.clinicalSamples, ids);
    LoadDerivesColumnsAndPanels(f.df);
    forall i | 0 <= i < |f.df.rows|
      ensures At(f.df, i, "Clinical_sample") in keys.samplePks && At(f.df, i, "Panel") in keys.panelPks
    {
      assert At(f.df, i, "Clinical_sample") in ids;
      assert At(f.df, i, "Panel") in f.panels;
    }
  }

  /** Every resolved key points at the row it was looked up for. */
  lemma ResolvedKeysPoint(s: Store, f: ClinicalSampleFile, panelPks: map<Cell, nat>, parameterPks: seq<nat>)
    requires WellFormed(f.df) && "Clinical_sample" in f.df.columns && |f.panels| > 0 && f.panels[0] in panelPks
    requires ResolvePanels(s.panels, f.panels) == Success(panelPks)
    requires ResolveParameters(s.parameters, f.parameterColumns, panelPks[f.panels[0]]) == Success(parameterPks)
    ensures var keys := Keys(SamplePks(SamplesAfter(s, f), SampleIds(f)), panelPks, parameterPks);
      && KeysInRange(s.(clinicalSamples := SamplesAfter(s, f)), keys)
      && PointsAt(SamplesAfter(s, f), keys.samplePks)
      && PanelsPointAt(s.panels, panelPks)
      && ParametersPointAt(s.parameters, f.parameterColumns, panelPks[f.panels[0]], parameterPks)
  {
  }

  /** The keys `upload()` looks up before its row loop, or the exception one
      of the lookups raises. */
  function UploadKeys(s: Store, f: ClinicalSampleFile): (r: Result<Keys, Exception>)
    requires s.Valid() && Valid(f) && "Clinical_sample" in f.df.columns
    ensures r.Success? ==> KeysCover(f, r.value) && KeysInRange(s.(clinicalSamples := SamplesAfter(s, f)), r.value)
    ensures r.Success? ==> PointsAt(SamplesAfter(s, f), r.value.samplePks)
    ensures r.Success? ==> PanelsPointAt(s.panels, r.value.panelPks)
    ensures r.Success? ==>
      && |f.panels| > 0 && f.panels[0] in r.value.panelPks
      && ParametersPointAt(s.parameters, f.parameterColumns, r.value.panelPks[f.panels[0]], r.value.parameterPks)
  {
    var ids := SampleIds(f);
    var cs := SamplesAfter(s, f);
    match ResolvePanels(s.panels, f.panels)
    case Failure(e) => Failure(e)
    case Success(panelPks) =>
      if |f.panels| == 0 then Failure(IndexError)
      else
        FirstValueResolved(s.panels, f.panels);
        match ResolveParameters(s.parameters, f.parameterColumns, panelPks[f.panels[0]])
        case Failure(e) => Failure(e)
        case Success(parameterPks) =>
          ResolvedKeysCover(s, f, panelPks, parameterPks);
          ResolvedKeysPoint(s, f, panelPks, parameterPks);
          Success(Keys(SamplePks(cs, ids), panelPks, parameterPks))
  }

  /** The tables once the row loop has saved the first `n` rows of the file. */
  function Written(s: Store, f: ClinicalSampleFile, keys: Keys, n: nat): Store
    requires Resolves(f, keys) && n <= |f.df.rows|
  {
    var base := |s.processedSamples|;
    s.(processedSamples := s.processedSamples + Processed(f, keys, n),
       dataProcessings := s.dataProcessings + Processings(f, keys, base, n),
       numericParameters := s.numericParameters + Numerics(f, keys, base, n))
  }

  /** A row's NumericParameters are exactly its numeric parameter cells,
      each stored with its parameter's key. */
  lemma {:induction false} RowNumericsMembers(f: ClinicalSampleFile, keys: Keys, processed: nat, i: nat, m: nat)
    requires Resolves(f, keys) && i < |f.df.rows| && m <= |f.parameterColumns|
    ensures forall x :: x in RowNumerics(f, keys, processed, i, m) <==>
              exists j :: (0 <= j < m && IsNumber(At(f.df, i, f.parameterColumns[j]))
                && x == NumericParameter(processed, keys.parameterPks[j], At(f.df, i, f.parameterColumns[j]).value))
  {
    if m > 0 {
      RowNumericsMembers(f, keys, processed, i, m - 1);
    }
  }

  /** A row's issues are exactly its parameter cells that are not numbers. */
  lemma {:induction false} RowIssuesMembers(f: ClinicalSampleFile, i: nat, m: nat)
    requires WellFormed(f.df) && i < |f.df.rows| && m <= |f.parameterColumns|
    requires forall c :: c in f.parameterColumns ==> c in f.df.columns
    ensures forall x :: x in RowIssues(f, i, m) <==>
              exists j :: (0 <= j < m && !IsNumber(At(f.df, i, f.parameterColumns[j]))
                && x == Issue(i, f.parameterColumns[j], At(f.df, i, f.parameterColumns[j])))
  {
    if m > 0 {
      RowIssuesMembers(f, i, m - 1);
    }
  }

  /** The NumericParameters of the first `n` rows are exactly their numeric
      parameter cells, each stored with its row's ProcessedSample key. */
  lemma {:induction false} NumericsMembers(f: ClinicalSampleFile, keys: Keys, base: nat, n: nat)
    requires Resolves(f, keys) && n <= |f.df.rows|
    ensures forall x :: x in Numerics(f, keys, base, n) <==>
              exists i, j :: (0 <= i < n && 0 <= j < |f.parameterColumns|
                && IsNumber(At(f.df, i, f.parameterColumns[j]))
                && x == NumericParameter(base + i, keys.parameterPks[j], At(f.df, i, f.parameterColumns[j]).value))
  {
    if n > 0 {
      NumericsMembers(f, keys, base, n - 1);
      RowNumericsMembers(f, keys, base + n - 1, n - 1, |f.parameterColumns|);
    }
  }

  /** The issues of the first `n` rows are exactly their parameter cells
      that are not numbers. */
  lemma {:induction false} IssuesMembers(f: ClinicalSampleFile, n: nat)
    requires WellFormed(f.df) && n <= |f.df.rows|
    requires forall c :: c in f.parameterColumns ==> c in f.df.columns
    ensures forall x :: x in Issues(f, n) <==>
              exists i, j :: (0 <= i < n && 0 <= j < |f.parameterColumns|
                && !IsNumber(At(f.df, i, f.parameterColumns[j]))
                && x == Issue(i, f.parameterColumns[j], At(f.df, i, f.parameterColumns[j])))
  {
    if n > 0 {
      IssuesMembers(f, n - 1);
      RowIssuesMembers(f, n - 1, |f.parameterColumns|);
    }
  }

  /** What `upload()` leaves in the tables and returns. Every exception
      rolls the transaction back, so the tables are then as they were. */
  function Uploaded(s: Store, f: ClinicalSampleFile): (r: UploadRun)
    requires s.Valid() && Valid(f)
    ensures r.outcome.Failure? ==> r.store == s
    ensures r.store.panels == s.panels && r.store.parameters == s.parameters
  {
    if "Clinical_sample" !in f.df.columns then UploadRun(s, Failure(KeyError("Clinical_sample")))
    else
      match UploadKeys(s, f)
      case Failure(e) => UploadRun(s, Failure(e))
      case Success(keys) =>
        // A panel exists, so there is a first row, where a missing column raises.
        match MissingRowColumn(f.df.columns)
        case Some(c) => UploadRun(s, Failure(KeyError(c)))
        case None =>
          UploadRun(Written(s.(clinicalSamples := SamplesAfter(s, f)), f, keys, |f.df.rows|), Success(Issues(f, |f.df.rows|)))
  }

  lemma {:induction false} ResolvePanelsPrefixFailure(panels: seq<Panel>, values: seq<Cell>, i: nat)
    requires i <= |values| && ResolvePanels(panels, values[..i]).Failure?
    ensures ResolvePanels(panels, values) == ResolvePanels(panels, values[..i])
    decreases |values|
  {
    if |values| > i {
      var rest := values[..|values| - 1];
      assert rest[..i] == values[..i];
      ResolvePanelsPrefixFailure(panels, rest, i);
    } else {
      assert values[..i] == values;
    }
  }

  lemma {:induction false} ResolveParametersPrefixFailure(params: seq<Parameter>, columns: seq<string>, panel: nat, i: nat)
    requires i <= |columns| && ResolveParameters(params, columns[..i], panel).Failure?
    ensures ResolveParameters(params, columns, panel) == ResolveParameters(params, columns[..i], panel)
    decreases |columns|
  {
    if |columns| > i {
      var rest := columns[..|columns| - 1];
      assert rest[..i] == columns[..i];
      ResolveParametersPrefixFailure(params, rest, panel, i);
    } else {
      assert columns[..i] == columns;
    }
  }

  lemma ProcessedInRange(f: ClinicalSampleFile, keys: Keys, n: nat, sampleCount: nat)
    requires Resolves(f, keys) && n <= |f.df.rows|
    requires forall v :: v in keys.samplePks ==> keys.samplePks[v] < sampleCount
    ensures ProcessedSamplesValid(Processed(f, keys, n), sampleCount)
  {
    var ps := Processed(f, keys, n);
    forall k | 0 <= k < |ps| ensures ps[k].clinicalSample < sampleCount {
      assert ps[k] == RowSample(f, keys, k);
    }
  }

  lemma ProcessingsInRange(f: ClinicalSampleFile, keys: Keys, base: nat, n: nat, panelCount: nat)
    requires Resolves(f, keys) && n <= |f.df.rows|
    requires forall v :: v in keys.panelPks ==> keys.panelPks[v] < panelCount
    ensures DataProcessingsValid(Processings(f, keys, base, n), base + n, panelCount)
  {
    var dps := Processings(f, keys, base, n);
    forall k | 0 <= k < |dps| ensures dps[k].processedSample < base + n && dps[k].panel < panelCount {
      assert dps[k] == RowProcessing(f, keys, base + k, k);
    }
  }

  lemma NumericsInRange(f: ClinicalSampleFile, keys: Keys, base: nat, n: nat, parameterCount: nat)
    requires Resolves(f, keys) && n <= |f.df.rows|
    requires forall j :: 0 <= j < |keys.parameterPks| ==> keys.parameterPks[j] < parameterCount
    ensures NumericParametersValid(Numerics(f, keys, base, n), base + n, parameterCount)
  {
    var nps := Numerics(f, keys, base, n);
    NumericsMembers(f, keys, base, n);
    forall k | 0 <= k < |nps| ensures nps[k].processedSample < base + n && nps[k].parameter < parameterCount {
      assert nps[k] in nps;
    }
  }

  /** Appending records whose keys are in range keeps a foreign key valid. */
  lemma AppendProcessed(old_: seq<ProcessedSample>, added: seq<ProcessedSample>, sampleCount: nat)
    requires ProcessedSamplesValid(old_, sampleCount) && ProcessedSamplesValid(added, sampleCount)
    ensures ProcessedSamplesValid(old_ + added, sampleCount)
  {
    forall k | |old_| <= k < |old_ + added| ensures (old_ + added)[k].clinicalSample < sampleCount {
      assert (old_ + added)[k] == added[k - |old_|];
    }
  }

  lemma AppendProcessings(old_: seq<DataProcessing>, added: seq<DataProcessing>, processedCount: nat, panelCount: nat)
    requires DataProcessingsValid(old_, processedCount, panelCount) && DataProcessingsValid(added, processedCount, panelCount)
    ensures DataProcessingsValid(old_ + added, processedCount, panelCount)
  {
    forall k | |old_| <= k < |old_ + added|
      ensures (old_ + added)[k].processedSample < processedCount && (old_ + added)[k].panel < panelCount
    {
      assert (old_ + added)[k] == added[k - |old_|];
    }
  }

  lemma AppendNumerics(old_: seq<NumericParameter>, added: seq<NumericParameter>, processedCount: nat, parameterCount: nat)
    requires NumericParametersValid(old_, processedCount, parameterCount)
    requires NumericParametersValid(added, processedCount, parameterCount)
    ensures NumericParametersValid(old_ + added, processedCount, parameterCount)
  {
    forall k | |old_| <= k < |old_ + added|
      ensures (old_ + added)[k].processedSample < processedCount && (old_ + added)[k].parameter < parameterCount
    {
      assert (old_ + added)[k] == added[k - |old_|];
    }
  }

  /** The tables `s` with the rows of `f` written stay valid. */
  lemma WrittenKeepsValid(s: Store, f: ClinicalSampleFile, keys: Keys)
    requires s.Valid() && Resolves(f, keys) && KeysInRange(s, keys)
    ensures Written(s, f, keys, |f.df.rows|).Valid()
  {
    var base := |s.processedSamples|;
    var n := |f.df.rows|;
    ProcessedInRange(f, keys, n, |s.clinicalSamples|);
    AppendProcessed(s.processedSamples, Processed(f, keys, n), |s.clinicalSamples|);
    ProcessingsInRange(f, keys, base, n, |s.panels|);
    AppendProcessings(s.dataProcessings, Processings(f, keys, base, n), base + n, |s.panels|);
    NumericsInRange(f, keys, base, n, |s.parameters|);
    AppendNumerics(s.numericParameters, Numerics(f, keys, base, n), base + n, |s.parameters|);
  }

  /** `upload()` keeps every key unique and every foreign key pointing at an
      existing row. */
  lemma UploadKeepsStoreValid(s: Store, f: ClinicalSampleFile)
    requires s.Valid() && Valid(f)
    ensures Uploaded(s, f).store.Valid()
  {
    if Uploaded(s, f).outcome.Success? {
      var keys := UploadKeys(s, f).value;
      var s1 := s.(clinicalSamples := SamplesAfter(s, f));
      WithSamplesRegisters(s.clinicalSamples, SampleIds(f));
      assert s1.Valid();
      WrittenKeepsValid(s1, f, keys);
    }
  }

  lemma WithSamplesStep(cs: seq<ClinicalSample>, ids: seq<Cell>, i: nat)
    requires i < |ids|
    ensures var t := WithSamples(cs, ids[..i]);
      WithSamples(cs, ids[..i + 1]) == if FindSample(t, ids[i]).Some? then t else t + [ClinicalSample(ids[i])]
  {
    assert ids[..i + 1][..i] == ids[..i];
  }

  /** One pass of the get_or_create loop keeps the map pointing at samples
      and covering the ids seen so far. */
  lemma PointsAtStep(cs: seq<ClinicalSample>, cs': seq<ClinicalSample>, m: map<Cell, nat>, ids: seq<Cell>, i: nat, j: nat, k: nat)
    requires i < |ids| && j == i + 1 && PointsAt(cs, m) && m.Keys == (set v | v in ids[..i])
    requires |cs| <= |cs'| && cs'[..|cs|] == cs && k < |cs'| && cs'[k].covidPatientId == ids[i]
    ensures PointsAt(cs', m[ids[i] := k])
    ensures m[ids[i] := k].Keys == set v | v in ids[..j]
  {
    assert ids[..j] == ids[..i] + [ids[i]];
    forall v | v in m ensures m[v] < |cs'| && cs'[m[v]].covidPatientId == v {
      assert cs'[m[v]] == cs[m[v]];
    }
  }

  /** A map from ids to the positions of their samples is the one
      `SamplePks` builds. */
  lemma SamplePksOfLoop(cs0: seq<ClinicalSample>, ids: seq<Cell>, m: map<Cell, nat>)
    requires UniqueSamples(cs0) && m.Keys == (set v | v in ids) && PointsAt(WithSamples(cs0, ids), m)
    ensures m == SamplePks(WithSamples(cs0, ids), ids)
  {
    var cs := WithSamples(cs0, ids);
    WithSamplesRegisters(cs0, ids);
    forall v | v in ids ensures FindSample(cs, v) == Some(m[v]) {
      assert v in m;
      FindSampleUnique(cs, v, m[v]);
    }
  }

  /** The get_or_create loop over the distinct sample ids. */
  method RegisterSamples(db: Database, samples: seq<Cell>) returns (samplePks: map<Cell, nat>)
    requires UniqueSamples(db.clinicalSamples)
    modifies db
    ensures db.State() == old(db.State()).(clinicalSamples := WithSamples(old(db.clinicalSamples), samples))
    ensures samplePks == SamplePks(db.clinicalSamples, samples)
  {
    ghost var snapshot := db.State();
    samplePks := map[];
    for i := 0 to |samples|
      invariant db.panels == snapshot.panels && db.parameters == snapshot.parameters
      invariant db.processedSamples == snapshot.processedSamples && db.dataProcessings == snapshot.dataProcessings
      invariant db.numericParameters == snapshot.numericParameters
      invariant db.clinicalSamples == WithSamples(snapshot.clinicalSamples, samples[..i])
      invariant samplePks.Keys == set v | v in samples[..i]
      invariant PointsAt(db.clinicalSamples, samplePks)
    {
      var v := samples[i];
      WithSamplesStep(snapshot.clinicalSamples, samples, i);
      ghost var before := db.clinicalSamples;
      var found := FindSample(db.clinicalSamples, v);
      if found.Some? {
        PointsAtStep(before, db.clinicalSamples, samplePks, samples, i, i + 1, found.value);
        samplePks := samplePks[v := found.value];
      } else {
        db.clinicalSamples := db.clinicalSamples + [ClinicalSample(v)];
        assert db.clinicalSamples[..|before|] == before;
        PointsAtStep(before, db.clinicalSamples, samplePks, samples, i, i + 1, |db.clinicalSamples| - 1);
        samplePks := samplePks[v := |db.clinicalSamples| - 1];
      }
    }
    assert samples[..|samples|] == samples;
    SamplePksOfLoop(snapshot.clinicalSamples, samples, samplePks);
  }

  /** The `panels_pk` loop. */
  method GetPanelPks(db: Database, panels: seq<Cell>) returns (r: Result<map<Cell, nat>, Exception>)
    ensures r == ResolvePanels(db.panels, panels)
  {
    var panelPks: map<Cell, nat> := map[];
    for i := 0 to |panels|
      invariant ResolvePanels(db.panels, panels[..i]) == Success(panelPks)
    {
      var v := panels[i];
      assert panels[..i + 1][..i] == panels[..i];
      assert panels[..i + 1][i] == v;
      if !v.Str? {
        ResolvePanelsPrefixFailure(db.panels, panels, i + 1);
        return Failure(AttributeError(v));
      }
      var found := FindPanel(db.panels, Upper(v.text));
      if found.None? {
        ResolvePanelsPrefixFailure(db.panels, panels, i + 1);
        return Failure(PanelDoesNotExist(Upper(v.text)));
      }
      panelPks := panelPks[v := found.value];
    }
    assert panels[..|panels|] == panels;
    r := Success(panelPks);
  }

  /** The `parameters_pk` loop. */
  method GetParameterPks(db: Database, columns: seq<string>, panel: nat) returns (r: Result<seq<nat>, Exception>)
    ensures r == ResolveParameters(db.parameters, columns, panel)
  {
    var parameterPks: seq<nat> := [];
    for j := 0 to |columns|
      invariant ResolveParameters(db.parameters, columns[..j], panel) == Success(parameterPks)
    {
      var column := columns[j];
      assert columns[..j + 1][..j] == columns[..j];
      assert columns[..j + 1][j] == column;
      var found := FindParameter(db.parameters, column, panel);
      if found.None? {
        ResolveParametersPrefixFailure(db.parameters, columns, panel, j + 1);
        return Failure(ParameterDoesNotExist(column));
      }
      parameterPks := parameterPks + [found.value];
    }
    assert columns[..|columns|] == columns;
    r := Success(parameterPks);
  }

  /** The loop over one row's parameter cells: a NumericParameter for each
      number, an issue for anything else. */
  method WriteCells(db: Database, f: ClinicalSampleFile, keys: Keys, processedPk: nat, i: nat) returns (issues: seq<Issue>)
    requires Resolves(f, keys) && i < |f.df.rows|
    modifies db
    ensures db.State() == old(db.State()).(numericParameters :=
              old(db.numericParameters) + RowNumerics(f, keys, processedPk, i, |f.parameterColumns|))
    ensures issues == RowIssues(f, i, |f.parameterColumns|)
  {
    ghost var snapshot := db.State();
    issues := [];
    for j := 0 to |f.parameterColumns|
      invariant db.State() == snapshot.(numericParameters :=
                  snapshot.numericParameters + RowNumerics(f, keys, processedPk, i, j))
      invariant issues == RowIssues(f, i, j)
    {
      var column := f.parameterColumns[j];
      var cell := At(f.df, i, column);
      if IsNumber(cell) {
        db.numericParameters := db.numericParameters + [NumericParameter(processedPk, keys.parameterPks[j], cell.value)];
      } else {
        issues := issues + [Issue(i, column, cell)];
      }
    }
  }

  /** `s` is `s0` with the first `i` rows written and `issues` recorded. */
  ghost predicate RowsWritten(s0: Store, s: Store, f: ClinicalSampleFile, keys: Keys, i: nat, issues: seq<Issue>)
  {
    if i == 0 then s == s0 && issues == []
    else Resolves(f, keys) && i <= |f.df.rows| && s == Written(s0, f, keys, i) && issues == Issues(f, i)
  }

  lemma WrittenNone(s0: Store, f: ClinicalSampleFile, keys: Keys)
    requires Resolves(f, keys)
    ensures Written(s0, f, keys, 0) == s0
  {
    assert s0.processedSamples + [] == s0.processedSamples;
    assert s0.dataProcessings + [] == s0.dataProcessings;
    assert s0.numericParameters + [] == s0.numericParameters;
  }

  lemma ProcessedStep(s0: Store, f: ClinicalSampleFile, keys: Keys, i: nat)
    requires Resolves(f, keys) && i < |f.df.rows|
    ensures Written(s0, f, keys, i + 1).processedSamples
         == Written(s0, f, keys, i).processedSamples + [RowSample(f, keys, i)]
  {
    AppendAssociates(s0.processedSamples, Processed(f, keys, i), [RowSample(f, keys, i)]);
  }

  lemma ProcessingsStep(s0: Store, f: ClinicalSampleFile, keys: Keys, i: nat)
    requires Resolves(f, keys) && i < |f.df.rows|
    ensures Written(s0, f, keys, i + 1).dataProcessings
         == Written(s0, f, keys, i).dataProcessings + [RowProcessing(f, keys, |s0.processedSamples| + i, i)]
  {
    var base := |s0.processedSamples|;
    AppendAssociates(s0.dataProcessings, Processings(f, keys, base, i), [RowProcessing(f, keys, base + i, i)]);
  }

  lemma NumericsStep(s0: Store, f: ClinicalSampleFile, keys: Keys, i: nat)
    requires Resolves(f, keys) && i < |f.df.rows|
    ensures Written(s0, f, keys, i + 1).numericParameters
         == Written(s0, f, keys, i).numericParameters
            + RowNumerics(f, keys, |s0.processedSamples| + i, i, |f.parameterColumns|)
  {
    var base := |s0.processedSamples|;
    AppendAssociates(s0.numericParameters, Numerics(f, keys, base, i), RowNumerics(f, keys, base + i, i, |f.parameterColumns|));
  }

  lemma WrittenStep(s0: Store, f: ClinicalSampleFile, keys: Keys, i: nat)
    requires Resolves(f, keys) && i < |f.df.rows|
    ensures var s := Written(s0, f, keys, i); var base := |s.processedSamples|;
      Written(s0, f, keys, i + 1) == s.(
        processedSamples := s.processedSamples + [RowSample(f, keys, i)],
        dataProcessings := s.dataProcessings + [RowProcessing(f, keys, base, i)],
        numericParameters := s.numericParameters + RowNumerics(f, keys, base, i, |f.parameterColumns|))
  {
    ProcessedStep(s0, f, keys, i);
    ProcessingsStep(s0, f, keys, i);
    NumericsStep(s0, f, keys, i);
  }

  /** Writing one more row appends its records to each table. */
  lemma RowsWrittenStep(s0: Store, s: Store, f: ClinicalSampleFile, keys: Keys, i: nat, issues: seq<Issue>)
    requires Resolves(f, keys) && i < |f.df.rows| && RowsWritten(s0, s, f, keys, i, issues)
    ensures var base := |s.processedSamples|;
      RowsWritten(s0, s.(
        processedSamples := s.processedSamples + [RowSample(f, keys, i)],
        dataProcessings := s.dataProcessings + [RowProcessing(f, keys, base, i)],
        numericParameters := s.numericParameters + RowNumerics(f, keys, base, i, |f.parameterColumns|)),
        f, keys, i + 1, issues + RowIssues(f, i, |f.parameterColumns|))
  {
    if i == 0 {
      WrittenNone(s0, f, keys);
    }
    assert s == Written(s0, f, keys, i) && issues == Issues(f, i);
    WrittenStep(s0, f, keys, i);
  }

  /** One pass of the row loop: the row's ProcessedSample, its
      DataProcessing and its cells. A missing column raises before anything
      further is saved. */
  method WriteRow(db: Database, f: ClinicalSampleFile, keys: Keys, i: nat) returns (r: Result<seq<Issue>, Exception>)
    requires KeysCover(f, keys) && i < |f.df.rows|
    modifies db
    ensures MissingRowColumn(f.df.columns).Some? ==> r == Failure(KeyError(MissingRowColumn(f.df.columns).value))
    ensures MissingRowColumn(f.df.columns).None? ==>
              var base := |old(db.processedSamples)|;
              && r == Success(RowIssues(f, i, |f.parameterColumns|))
              && db.State() == old(db.State()).(
                   processedSamples := old(db.processedSamples) + [RowSample(f, keys, i)],
                   dataProcessings := old(db.dataProcessings) + [RowProcessing(f, keys, base, i)],
                   numericParameters := old(db.numericParameters) + RowNumerics(f, keys, base, i, |f.parameterColumns|))
  {
    var df := f.df;
    if "Date" !in df.columns {
      return Failure(KeyError("Date"));
    }
    if "Operator name" !in df.columns {
      return Failure(KeyError("Operator name"));
    }
    if "Comments" !in df.columns {
      return Failure(KeyError("Comments"));
    }
    var processedSample := ProcessedSample(
      keys.samplePks[At(df, i, "Clinical_sample")], At(df, i, "Date"), At(df, i, "Operator name"), At(df, i, "Comments"));
    db.processedSamples := db.processedSamples + [processedSample];
    var processedPk := |db.processedSamples| - 1;
    if "X1" !in df.columns {
      return Failure(KeyError("X1"));
    }
    db.dataProcessings := db.dataProcessings + [DataProcessing(processedPk, At(df, i, "X1"), keys.panelPks[At(df, i, "Panel")])];
    var issues := WriteCells(db, f, keys, processedPk, i);
    r := Success(issues);
  }

  /** The row loop over every row of the file. */
  method WriteRows(db: Database, f: ClinicalSampleFile, keys: Keys) returns (r: Result<seq<Issue>, Exception>)
    requires KeysCover(f, keys) && |f.df.rows| > 0
    modifies db
    ensures MissingRowColumn(f.df.columns).Some? ==> r == Failure(KeyError(MissingRowColumn(f.df.columns).value))
    ensures MissingRowColumn(f.df.columns).None? ==>
              r == Success(Issues(f, |f.df.rows|)) && db.State() == Written(old(db.State()), f, keys, |f.df.rows|)
  {
    ghost var snapshot := db.State();
    var issues: seq<Issue> := [];
    for i := 0 to |f.df.rows|
      invariant RowsWritten(snapshot, db.State(), f, keys, i, issues)
    {
      ghost var before := db.State();
      var row := WriteRow(db, f, keys, i);
      if row.Failure? {
        return row;
      }
      RowsWrittenStep(snapshot, before, f, keys, i, issues);
      issues := issues + row.value;
    }
    r := Success(issues);
  }

  /** `upload()`, in one transaction rolled back on the first exception. */
  method Upload(db: Database, f: ClinicalSampleFile) returns (r: Result<seq<Issue>, Exception>)
    requires db.Valid() && Valid(f)
    modifies db
    ensures r == Uploaded(old(db.State()), f).outcome
    ensures db.State() == Uploaded(old(db.State()), f).store
    ensures db.Valid()
  {
    var snapshot := db.State();
    UploadKeepsStoreValid(snapshot, f);
    if "Clinical_sample" !in f.df.columns {
      return Failure(KeyError("Clinical_sample"));
    }
    var samplePks := RegisterSamples(db, SampleIds(f));
    var panelPks := GetPanelPks(db, f.panels);
    if panelPks.Failure? {
      db.Rollback(snapshot);
      return Failure(panelPks.error);
    }
    if |f.panels| == 0 {
      db.Rollback(snapshot);
      return Failure(IndexError);
    }
    var parameterPks := GetParameterPks(db, f.parameterColumns, panelPks.value[f.panels[0]]);
    if parameterPks.Failure? {
      db.Rollback(snapshot);
      return Failure(parameterPks.error);
    }
    var keys := Keys(samplePks, panelPks.value, parameterPks.value);
    assert UploadKeys(snapshot, f) == Success(keys);
    LoadDerivesColumnsAndPanels(f.df);
    r := WriteRows(db, f, keys);
    if r.Failure? {
      db.Rollback(snapshot);
    }
  }
}
