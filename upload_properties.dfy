/** What `ClinicalSampleFile.upload()` promises, stated over the file and
    the tables rather than over the lookups it performs. */
module UploadProperties {
  import opened Wrappers
  import opened Seqs
  import opened Strings
  import opened Tables
  import opened Models
  import opened ClinicalSampleFiles

  /** The first row names a Panel: `panels_pk[self.panels[0]]` is then its key. */
  predicate FirstPanelKnown(s: Store, f: ClinicalSampleFile)
    requires Valid(f)
  {
    && |f.df.rows| > 0
    && At(f.df, 0, "Panel").Str?
    && FindPanel(s.panels, Upper(At(f.df, 0, "Panel").text)).Some?
  }

  /** The Panel key every parameter of the file is looked up under. */
  function FirstPanel(s: Store, f: ClinicalSampleFile): (pk: nat)
    requires Valid(f) && FirstPanelKnown(s, f)
    ensures pk < |s.panels| && s.panels[pk].name == Upper(At(f.df, 0, "Panel").text)
  {
    FindPanel(s.panels, Upper(At(f.df, 0, "Panel").text)).value
  }

  /** The file `upload()` ingests without raising: it has sample ids and at
      least one row, every row's Panel value is text naming a Panel, every
      parameter column has a Parameter under the first row's panel, and the
      columns the row loop reads are there. */
  predicate UploadAccepts(s: Store, f: ClinicalSampleFile)
    requires Valid(f)
  {
    && "Clinical_sample" in f.df.columns
    && (forall i :: 0 <= i < |f.df.rows| ==>
          At(f.df, i, "Panel").Str? && FindPanel(s.panels, Upper(At(f.df, i, "Panel").text)).Some?)
    && FirstPanelKnown(s, f)
    && (forall c :: c in f.parameterColumns ==> FindParameter(s.parameters, c, FirstPanel(s, f)).Some?)
    && "Date" in f.df.columns && "Operator name" in f.df.columns
    && "Comments" in f.df.columns && "X1" in f.df.columns
  }

  /** Every panel value is resolved exactly when every row's Panel value is
      text naming a Panel. */
  lemma PanelsResolveExactlyWhen(s: Store, f: ClinicalSampleFile)
    requires Valid(f)
    ensures ResolvePanels(s.panels, f.panels).Success? <==>
      forall i :: 0 <= i < |f.df.rows| ==>
        At(f.df, i, "Panel").Str? && FindPanel(s.panels, Upper(At(f.df, i, "Panel").text)).Some?
  {
    LoadDerivesColumnsAndPanels(f.df);
    if ResolvePanels(s.panels, f.panels).Failure? {
      var v :| v in f.panels && (!v.Str? || FindPanel(s.panels, Upper(v.text)).None?);
      var i :| 0 <= i < |f.df.rows| && At(f.df, i, "Panel") == v;
    } else {
      forall i | 0 <= i < |f.df.rows|
        ensures At(f.df, i, "Panel").Str? && FindPanel(s.panels, Upper(At(f.df, i, "Panel").text)).Some?
      {
        assert At(f.df, i, "Panel") in f.panels;
      }
    }
  }

  /** The file has rows exactly when it has panel values. */
  lemma PanelsExactlyWhenRows(f: ClinicalSampleFile)
    requires Valid(f)
    ensures |f.panels| > 0 <==> |f.df.rows| > 0
    ensures |f.panels| > 0 ==> f.panels[0] == At(f.df, 0, "Panel")
  {
    LoadDerivesColumnsAndPanels(f.df);
    if |f.panels| > 0 {
      assert f.panels[0] in f.panels;
    }
  }

  /** The key `panels_pk[self.panels[0]]` is that of the first row's panel. */
  lemma FirstPanelKey(s: Store, f: ClinicalSampleFile, m: map<Cell, nat>)
    requires s.Valid() && Valid(f)
    requires |f.panels| > 0 && f.panels[0] in m && PanelsPointAt(s.panels, m)
    ensures FirstPanelKnown(s, f)
    ensures m[f.panels[0]] == FirstPanel(s, f)
  {
    PanelsExactlyWhenRows(f);
    FindPanelUnique(s.panels, Upper(At(f.df, 0, "Panel").text), m[f.panels[0]]);
  }

  /** The lookups before the row loop succeed exactly when every panel
      value resolves, there is a first panel, and every parameter column
      has a Parameter under it. */
  lemma UploadKeysSucceedExactlyWhen(s: Store, f: ClinicalSampleFile)
    requires s.Valid() && Valid(f) && "Clinical_sample" in f.df.columns
    ensures UploadKeys(s, f).Success? <==>
      && ResolvePanels(s.panels, f.panels).Success?
      && FirstPanelKnown(s, f)
      && forall c :: c in f.parameterColumns ==> FindParameter(s.parameters, c, FirstPanel(s, f)).Some?
  {
    PanelsExactlyWhenRows(f);
    if ResolvePanels(s.panels, f.panels).Success? && |f.panels| > 0 {
      var m := ResolvePanels(s.panels, f.panels).value;
      assert f.panels[0] in f.panels;
      FirstPanelKey(s, f, m);
      var pk := m[f.panels[0]];
      assert UploadKeys(s, f).Success? <==> ResolveParameters(s.parameters, f.parameterColumns, pk).Success?;
    } else if ResolvePanels(s.panels, f.panels).Success? {
      assert !FirstPanelKnown(s, f);
    }
  }

  /** `upload()` returns, rather than raising, exactly on the files it accepts. */
  lemma UploadSucceedsExactlyWhen(s: Store, f: ClinicalSampleFile)
    requires s.Valid() && Valid(f)
    ensures Uploaded(s, f).outcome.Success? <==> UploadAccepts(s, f)
  {
    if "Clinical_sample" in f.df.columns {
      UploadKeysSucceedExactlyWhen(s, f);
      PanelsResolveExactlyWhen(s, f);
    }
  }

  /** On a file it accepts, `upload()` writes every row and returns the
      issues of every row. */
  lemma AcceptedRun(s: Store, f: ClinicalSampleFile)
    requires s.Valid() && Valid(f) && UploadAccepts(s, f)
    ensures UploadKeys(s, f).Success? && Resolves(f, UploadKeys(s, f).value)
    ensures Uploaded(s, f) ==
      UploadRun(Written(s.(clinicalSamples := SamplesAfter(s, f)), f, UploadKeys(s, f).value, |f.df.rows|),
                Success(Issues(f, |f.df.rows|)))
  {
    UploadKeysSucceedExactlyWhen(s, f);
    PanelsResolveExactlyWhen(s, f);
  }

  /** Without sample ids the first lookup raises KeyError; a file with no
      rows has no panels, so `self.panels[0]` raises IndexError. */
  lemma UploadRaisesOnMissingSamplesOrRows(s: Store, f: ClinicalSampleFile)
    requires s.Valid() && Valid(f)
    ensures "Clinical_sample" !in f.df.columns ==> Uploaded(s, f).outcome == Failure(KeyError("Clinical_sample"))
    ensures "Clinical_sample" in f.df.columns && |f.df.rows| == 0 ==> Uploaded(s, f).outcome == Failure(IndexError)
  {
    PanelsExactlyWhenRows(f);
  }

  /** The parameter keys of the first row's panel, one per parameter column. */
  function FirstPanelParameters(s: Store, f: ClinicalSampleFile): (pks: seq<nat>)
    requires Valid(f) && UploadAccepts(s, f)
    ensures ParametersPointAt(s.parameters, f.parameterColumns, FirstPanel(s, f), pks)
  {
    seq(|f.parameterColumns|, j requires 0 <= j < |f.parameterColumns| =>
      assert f.parameterColumns[j] in f.parameterColumns;
      FindParameter(s.parameters, f.parameterColumns[j], FirstPanel(s, f)).value)
  }

  /** The parameter keys `upload()` stores under are those of the first
      row's panel. */
  lemma UploadParameterKeys(s: Store, f: ClinicalSampleFile)
    requires s.Valid() && Valid(f) && UploadAccepts(s, f)
    ensures UploadKeys(s, f).Success?
    ensures UploadKeys(s, f).value.parameterPks == FirstPanelParameters(s, f)
  {
    AcceptedRun(s, f);
    var keys := UploadKeys(s, f).value;
    FirstPanelKey(s, f, keys.panelPks);
    SameParameterKeys(s.parameters, f.parameterColumns, FirstPanel(s, f), keys.parameterPks, FirstPanelParameters(s, f));
  }

  /** With unique (gating hierarchy, panel) keys, the Parameters of a list
      of columns under one panel are determined. */
  lemma SameParameterKeys(params: seq<Parameter>, columns: seq<string>, panel: nat, a: seq<nat>, b: seq<nat>)
    requires UniqueParameters(params)
    requires ParametersPointAt(params, columns, panel, a) && ParametersPointAt(params, columns, panel, b)
    ensures a == b
  {
    forall j | 0 <= j < |columns|
      ensures a[j] == b[j]
    {
      FindParameterUnique(params, columns[j], panel, a[j]);
      FindParameterUnique(params, columns[j], panel, b[j]);
    }
  }

  // Each property below is a predicate over the tables before and after,
  // proved once about the rows written and then carried over to `Uploaded`.

  /** Samples are got or created: the old ones stay in place, ids stay
      unique, every row's id has a sample afterwards, and a sample is added
      only for a row's id that had none. */
  ghost predicate SamplesRegistered(cs0: seq<ClinicalSample>, cs: seq<ClinicalSample>, f: ClinicalSampleFile)
    requires WellFormed(f.df) && "Clinical_sample" in f.df.columns
  {
    && |cs0| <= |cs| && cs[..|cs0|] == cs0
    && UniqueSamples(cs)
    && (forall v :: FindSample(cs, v).Some? <==>
          FindSample(cs0, v).Some? || exists i :: 0 <= i < |f.df.rows| && At(f.df, i, "Clinical_sample") == v)
    && (forall k :: |cs0| <= k < |cs| ==>
          && FindSample(cs0, cs[k].covidPatientId).None?
          && exists i :: 0 <= i < |f.df.rows| && At(f.df, i, "Clinical_sample") == cs[k].covidPatientId)
  }

  lemma SamplesAfterRegisters(s: Store, f: ClinicalSampleFile)
    requires s.Valid() && WellFormed(f.df) && "Clinical_sample" in f.df.columns
    ensures SamplesRegistered(s.clinicalSamples, SamplesAfter(s, f), f)
  {
    var cs := SamplesAfter(s, f);
    WithSamplesRegisters(s.clinicalSamples, SampleIds(f));
    forall k | |s.clinicalSamples| <= k < |cs|
      ensures FindSample(s.clinicalSamples, cs[k].covidPatientId).None?
    {
      assert forall j :: 0 <= j < |s.clinicalSamples| ==> s.clinicalSamples[j] == cs[j];
    }
  }

  lemma UploadRegistersSamples(s: Store, f: ClinicalSampleFile)
    requires s.Valid() && Valid(f) && UploadAccepts(s, f)
    ensures SamplesRegistered(s.clinicalSamples, Uploaded(s, f).store.clinicalSamples, f)
  {
    AcceptedRun(s, f);
    SamplesAfterRegisters(s, f);
  }

  /** One ProcessedSample per row, in row order after the old ones `ps`,
      with the sample of the row's id and the row's date, operator and
      comments. */
  ghost predicate SamplesRecorded(ps: seq<ProcessedSample>, r: Store, f: ClinicalSampleFile)
    requires WellFormed(f.df) && "Clinical_sample" in f.df.columns && MissingRowColumn(f.df.columns).None?
  {
    var b := |ps|;
    && |r.processedSamples| == b + |f.df.rows|
    && r.processedSamples[..b] == ps
    && forall i :: 0 <= i < |f.df.rows| ==>
         var p := r.processedSamples[b + i];
         && p.clinicalSample < |r.clinicalSamples|
         && r.clinicalSamples[p.clinicalSample].covidPatientId == At(f.df, i, "Clinical_sample")
         && p.dateAcquired == At(f.df, i, "Date")
         && p.operator1 == At(f.df, i, "Operator name")
         && p.comments == At(f.df, i, "Comments")
  }

  lemma WrittenRecordsSamples(s0: Store, f: ClinicalSampleFile, keys: Keys)
    requires Resolves(f, keys) && PointsAt(s0.clinicalSamples, keys.samplePks)
    ensures SamplesRecorded(s0.processedSamples, Written(s0, f, keys, |f.df.rows|), f)
  {
    var r := Written(s0, f, keys, |f.df.rows|);
    var added := Processed(f, keys, |f.df.rows|);
    assert r.processedSamples == s0.processedSamples + added;
    assert r.processedSamples[..|s0.processedSamples|] == s0.processedSamples;
    forall i | 0 <= i < |f.df.rows|
      ensures r.processedSamples[|s0.processedSamples| + i] == RowSample(f, keys, i)
    {
    }
  }

  lemma UploadRecordsSamples(s: Store, f: ClinicalSampleFile)
    requires s.Valid() && Valid(f) && UploadAccepts(s, f)
    ensures SamplesRecorded(s.processedSamples, Uploaded(s, f).store, f)
  {
    AcceptedRun(s, f);
    WrittenRecordsSamples(s.(clinicalSamples := SamplesAfter(s, f)), f, UploadKeys(s, f).value);
  }

  /** One DataProcessing per row, in row order after the old ones `dps`,
      pointing at that row's ProcessedSample (numbered from `b`), with the
      row's file name and the Panel its Panel value names. */
  ghost predicate ProcessingsRecorded(dps: seq<DataProcessing>, b: nat, r: Store, f: ClinicalSampleFile)
    requires WellFormed(f.df) && "Panel" in f.df.columns && "X1" in f.df.columns
  {
    var d := |dps|;
    && |r.dataProcessings| == d + |f.df.rows|
    && r.dataProcessings[..d] == dps
    && forall i :: 0 <= i < |f.df.rows| ==>
         var p := r.dataProcessings[d + i];
         && p.processedSample == b + i
         && p.fcsFileName == At(f.df, i, "X1")
         && p.panel < |r.panels|
         && At(f.df, i, "Panel").Str?
         && r.panels[p.panel].name == Upper(At(f.df, i, "Panel").text)
  }

  lemma WrittenRecordsProcessings(s0: Store, f: ClinicalSampleFile, keys: Keys)
    requires Resolves(f, keys) && PanelsPointAt(s0.panels, keys.panelPks)
    ensures ProcessingsRecorded(s0.dataProcessings, |s0.processedSamples|, Written(s0, f, keys, |f.df.rows|), f)
  {
    var r := Written(s0, f, keys, |f.df.rows|);
    var added := Processings(f, keys, |s0.processedSamples|, |f.df.rows|);
    assert r.dataProcessings == s0.dataProcessings + added;
    assert r.dataProcessings[..|s0.dataProcessings|] == s0.dataProcessings;
    forall i | 0 <= i < |f.df.rows|
      ensures r.dataProcessings[|s0.dataProcessings| + i] == added[i]
    {
    }
  }

  lemma UploadRecordsProcessings(s: Store, f: ClinicalSampleFile)
    requires s.Valid() && Valid(f) && UploadAccepts(s, f)
    ensures ProcessingsRecorded(s.dataProcessings, |s.processedSamples|, Uploaded(s, f).store, f)
  {
    AcceptedRun(s, f);
    WrittenRecordsProcessings(s.(clinicalSamples := SamplesAfter(s, f)), f, UploadKeys(s, f).value);
  }

  /** The NumericParameters added after the old ones `nps` are exactly the
      numeric parameter cells, each under its row's ProcessedSample
      (numbered from `b`) and its column's key in `pks`. */
  ghost predicate NumericsRecorded(nps: seq<NumericParameter>, b: nat, pks: seq<nat>, r: Store, f: ClinicalSampleFile)
    requires WellFormed(f.df) && (forall c :: c in f.parameterColumns ==> c in f.df.columns)
    requires |pks| == |f.parameterColumns|
  {
    && |nps| <= |r.numericParameters|
    && r.numericParameters[..|nps|] == nps
    && forall x :: x in r.numericParameters[|nps|..] <==>
         exists i, j :: (0 <= i < |f.df.rows| && 0 <= j < |f.parameterColumns|
           && IsNumber(At(f.df, i, f.parameterColumns[j]))
           && x == NumericParameter(b + i, pks[j], At(f.df, i, f.parameterColumns[j]).value))
  }

  lemma WrittenRecordsNumerics(s0: Store, f: ClinicalSampleFile, keys: Keys)
    requires Resolves(f, keys)
    ensures NumericsRecorded(s0.numericParameters, |s0.processedSamples|, keys.parameterPks, Written(s0, f, keys, |f.df.rows|), f)
  {
    var r := Written(s0, f, keys, |f.df.rows|);
    var added := Numerics(f, keys, |s0.processedSamples|, |f.df.rows|);
    assert r.numericParameters == s0.numericParameters + added;
    assert r.numericParameters[..|s0.numericParameters|] == s0.numericParameters;
    assert r.numericParameters[|s0.numericParameters|..] == added;
    NumericsMembers(f, keys, |s0.processedSamples|, |f.df.rows|);
  }

  lemma UploadRecordsNumerics(s: Store, f: ClinicalSampleFile)
    requires s.Valid() && Valid(f) && UploadAccepts(s, f)
    ensures NumericsRecorded(s.numericParameters, |s.processedSamples|, FirstPanelParameters(s, f), Uploaded(s, f).store, f)
  {
    AcceptedRun(s, f);
    UploadParameterKeys(s, f);
    WrittenRecordsNumerics(s.(clinicalSamples := SamplesAfter(s, f)), f, UploadKeys(s, f).value);
  }

  /** `issues` lists exactly the parameter cells that are not numbers, with
      their row and column. */
  ghost predicate IssuesReported(issues: seq<Issue>, f: ClinicalSampleFile)
    requires WellFormed(f.df) && (forall c :: c in f.parameterColumns ==> c in f.df.columns)
  {
    forall x :: x in issues <==>
      exists i, j :: (0 <= i < |f.df.rows| && 0 <= j < |f.parameterColumns|
        && !IsNumber(At(f.df, i, f.parameterColumns[j]))
        && x == Issue(i, f.parameterColumns[j], At(f.df, i, f.parameterColumns[j])))
  }

  /** Such a list is empty exactly when every parameter cell is a number. */
  lemma NoIssuesExactlyWhenAllNumeric(issues: seq<Issue>, f: ClinicalSampleFile)
    requires WellFormed(f.df) && (forall c :: c in f.parameterColumns ==> c in f.df.columns)
    requires IssuesReported(issues, f)
    ensures issues == [] <==>
      forall i, j :: 0 <= i < |f.df.rows| && 0 <= j < |f.parameterColumns| ==> IsNumber(At(f.df, i, f.parameterColumns[j]))
  {
    if issues != [] {
      assert issues[0] in issues;
    }
    if exists i, j :: 0 <= i < |f.df.rows| && 0 <= j < |f.parameterColumns| && !IsNumber(At(f.df, i, f.parameterColumns[j])) {
      var i, j :| 0 <= i < |f.df.rows| && 0 <= j < |f.parameterColumns| && !IsNumber(At(f.df, i, f.parameterColumns[j]));
      assert Issue(i, f.parameterColumns[j], At(f.df, i, f.parameterColumns[j])) in issues;
    }
  }

  lemma UploadReportsIssues(s: Store, f: ClinicalSampleFile)
    requires s.Valid() && Valid(f) && UploadAccepts(s, f)
    ensures Uploaded(s, f).outcome.Success?
    ensures IssuesReported(Uploaded(s, f).outcome.value, f)
  {
    AcceptedRun(s, f);
    IssuesMembers(f, |f.df.rows|);
  }

  /** A row's parameter cells each become a NumericParameter or an issue. */
  lemma {:induction false} RowCellsAccounted(f: ClinicalSampleFile, keys: Keys, processed: nat, i: nat, m: nat)
    requires Resolves(f, keys) && i < |f.df.rows| && m <= |f.parameterColumns|
    ensures |RowNumerics(f, keys, processed, i, m)| + |RowIssues(f, i, m)| == m
  {
    if m > 0 {
      RowCellsAccounted(f, keys, processed, i, m - 1);
    }
  }

  /** The first `n` rows' parameter cells each become a NumericParameter or an issue. */
  lemma {:induction false} CellsAccounted(f: ClinicalSampleFile, keys: Keys, base: nat, n: nat)
    requires Resolves(f, keys) && n <= |f.df.rows|
    ensures |Numerics(f, keys, base, n)| + |Issues(f, n)| == Times(n, |f.parameterColumns|)
  {
    if n > 0 {
      CellsAccounted(f, keys, base, n - 1);
      RowCellsAccounted(f, keys, base + n - 1, n - 1, |f.parameterColumns|);
      CellsStep(f, keys, base, n);
    }
  }

  /** One more row adds its own NumericParameters and issues. */
  lemma CellsStep(f: ClinicalSampleFile, keys: Keys, base: nat, n: nat)
    requires Resolves(f, keys) && 0 < n <= |f.df.rows|
    ensures |Numerics(f, keys, base, n)| ==
      |Numerics(f, keys, base, n - 1)| + |RowNumerics(f, keys, base + n - 1, n - 1, |f.parameterColumns|)|
    ensures |Issues(f, n)| == |Issues(f, n - 1)| + |RowIssues(f, n - 1, |f.parameterColumns|)|
  {
  }

  /** `n * m`, one row of `m` cells at a time. */
  function Times(n: nat, m: nat): (r: nat)
  {
    if n == 0 then 0 else Times(n - 1, m) + m
  }

  lemma {:induction false} TimesIsProduct(n: nat, m: nat)
    ensures Times(n, m) == n * m
  {
    if n > 0 {
      TimesIsProduct(n - 1, m);
    }
  }

  /** Every parameter cell of the file is either stored or reported. */
  lemma UploadAccountsForEveryCell(s: Store, f: ClinicalSampleFile)
    requires s.Valid() && Valid(f) && UploadAccepts(s, f)
    ensures Uploaded(s, f).outcome.Success?
    ensures |Uploaded(s, f).store.numericParameters| - |s.numericParameters| + |Uploaded(s, f).outcome.value|
            == |f.df.rows| * |f.parameterColumns|
  {
    AcceptedRun(s, f);
    CellsAccounted(f, UploadKeys(s, f).value, |s.processedSamples|, |f.df.rows|);
    TimesIsProduct(|f.df.rows|, |f.parameterColumns|);
  }

  /** A file `validate()` finds nothing wrong with has every static column,
      a single panel value naming a Panel, and every parameter column
      registered. */
  lemma CleanValidationFacts(s: Store, f: ClinicalSampleFile)
    requires s.Valid() && Valid(f)
    requires Validated(s, f).Success? && Validated(s, f).value.IsEmpty()
    ensures forall c :: c in StaticColumns ==> c in f.df.columns
    ensures f.panels == PanelsInData(f.df) && |f.panels| == 1
    ensures f.panels[0].Str? && FindPanel(s.panels, Upper(f.panels[0].text)).Some?
    ensures forall c :: c in f.parameterColumns ==> Registered(s, f, c)
  {
    ValidateEmptyExactlyWhen(s, f);
    assert f.panels[0] in PanelsInData(f.df);
  }

  /** With a single panel value, every row carries it, and it is the first
      row's panel. */
  lemma SinglePanelRows(s: Store, f: ClinicalSampleFile)
    requires Valid(f) && |f.panels| == 1
    requires f.panels[0].Str? && FindPanel(s.panels, Upper(f.panels[0].text)).Some?
    ensures forall i :: 0 <= i < |f.df.rows| ==> At(f.df, i, "Panel") == f.panels[0]
    ensures FirstPanelKnown(s, f) && FirstPanel(s, f) == FindPanel(s.panels, Upper(f.panels[0].text)).value
  {
    LoadDerivesColumnsAndPanels(f.df);
    forall i | 0 <= i < |f.df.rows| ensures At(f.df, i, "Panel") == f.panels[0] {
      assert At(f.df, i, "Panel") in f.panels;
    }
  }

  /** A column registered under the file's only panel value `v` has a
      Parameter under the Panel `v` names. */
  lemma RegisteredUnderOnlyPanel(s: Store, f: ClinicalSampleFile, c: string, v: Cell)
    requires s.Valid() && WellFormed(f.df) && PanelsInData(f.df) == [v] && v.Str?
    requires Registered(s, f, c)
    ensures FindPanel(s.panels, Upper(v.text)).Some?
    ensures FindParameter(s.parameters, c, FindPanel(s.panels, Upper(v.text)).value).Some?
  {
    var k :| 0 <= k < |s.parameters| && s.parameters[k].gatingHierarchy == c && UnderFilePanel(s, f, k);
    var w :| w in PanelsInData(f.df) && w.Str? && Upper(w.text) == s.panels[s.parameters[k].panel].name;
    FindPanelUnique(s.panels, Upper(v.text), s.parameters[k].panel);
  }

  /** A file that `validate()` finds nothing wrong with is one `upload()`
      accepts. */
  lemma CleanValidationAccepted(s: Store, f: ClinicalSampleFile)
    requires s.Valid() && Valid(f)
    requires Validated(s, f).Success? && Validated(s, f).value.IsEmpty()
    ensures UploadAccepts(s, f)
  {
    CleanValidationFacts(s, f);
    SinglePanelRows(s, f);
    assert "Clinical_sample" in StaticColumns && "Date" in StaticColumns && "X1" in StaticColumns;
    assert "Operator name" in StaticColumns && "Comments" in StaticColumns;
    var v := f.panels[0];
    assert PanelsInData(f.df) == [v];
    var pk := FindPanel(s.panels, Upper(v.text)).value;
    assert FirstPanel(s, f) == pk;
    forall c | c in f.parameterColumns
      ensures FindParameter(s.parameters, c, pk).Some?
    {
      RegisteredUnderOnlyPanel(s, f, c, v);
    }
  }

  /** A file that `validate()` finds nothing wrong with uploads without
      raising. */
  lemma CleanValidationUploads(s: Store, f: ClinicalSampleFile)
    requires s.Valid() && Valid(f)
    requires Validated(s, f).Success? && Validated(s, f).value.IsEmpty()
    ensures Uploaded(s, f).outcome.Success?
  {
    CleanValidationAccepted(s, f);
    UploadSucceedsExactlyWhen(s, f);
  }

  /** A file the constructor built has a Date column, since reading it fails
      otherwise: validate never reports Date missing, and the row loop never
      raises KeyError("Date"). */
  lemma ConstructedFileHasDate(s: Store, f: ClinicalSampleFile)
    requires Valid(f)
    ensures "Date" in f.df.columns && MissingRowColumn(f.df.columns) != Some("Date")
    ensures Validated(s, f).Success? && Validated(s, f).value.staticColumnsMissing.Some? ==>
      "Date" !in Validated(s, f).value.staticColumnsMissing.value
  {
    if Validated(s, f).Success? {
      ValidateReportsMissingStaticColumns(s, f);
    }
  }
}
