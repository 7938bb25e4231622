/** The relational tables the ingestion code reads and writes, with only the
    fields it touches. A record's primary key is its position in its table:
    nothing here ever deletes a row, so positions are stable. */
module Models {
  import opened Wrappers
  import opened Tables

  datatype ClinicalSample = ClinicalSample(covidPatientId: Cell)

  datatype Panel = Panel(name: string)

  /** `panel` is the primary key of the owning Panel. A row is identified by
      its (gating hierarchy, panel) pair. */
  datatype Parameter = Parameter(
    panel: nat,
    dataType: string,
    internalName: string,
    publicName: string,
    displayName: string,
    excelColumnName: string,
    description: string,
    isReferenceParameter: Option<bool>,
    gatingHierarchy: string,
    unit: string)

  /** The sample-level fields that an uploaded results file supplies; the
      remaining columns of the table keep their defaults. */
  datatype ProcessedSample = ProcessedSample(
    clinicalSample: nat,
    dateAcquired: Cell,
    operator1: Cell,
    comments: Cell)

  datatype DataProcessing = DataProcessing(
    processedSample: nat,
    fcsFileName: Cell,
    panel: nat)

  datatype NumericParameter = NumericParameter(
    processedSample: nat,
    parameter: nat,
    value: int)

  predicate UniqueSamples(cs: seq<ClinicalSample>)
  {
    forall i, j :: 0 <= i < j < |cs| ==> cs[i].covidPatientId != cs[j].covidPatientId
  }

  predicate UniquePanels(ps: seq<Panel>)
  {
    forall i, j :: 0 <= i < j < |ps| ==> ps[i].name != ps[j].name
  }

  /** No two Parameters share a (gating hierarchy, panel) key. */
  predicate UniqueParameters(params: seq<Parameter>)
  {
    forall i, j :: 0 <= i < j < |params| ==>
      params[i].gatingHierarchy != params[j].gatingHierarchy || params[i].panel != params[j].panel
  }

  /** Every Parameter belongs to an existing Panel, and keys are unique. */
  predicate ParametersValid(params: seq<Parameter>, panelCount: nat)
  {
    && (forall k :: 0 <= k < |params| ==> params[k].panel < panelCount)
    && UniqueParameters(params)
  }

  predicate ProcessedSamplesValid(ps: seq<ProcessedSample>, sampleCount: nat)
  {
    forall k :: 0 <= k < |ps| ==> ps[k].clinicalSample < sampleCount
  }

  predicate DataProcessingsValid(dps: seq<DataProcessing>, processedCount: nat, panelCount: nat)
  {
    forall k :: 0 <= k < |dps| ==> dps[k].processedSample < processedCount && dps[k].panel < panelCount
  }

  predicate NumericParametersValid(nps: seq<NumericParameter>, processedCount: nat, parameterCount: nat)
  {
    forall k :: 0 <= k < |nps| ==> nps[k].processedSample < processedCount && nps[k].parameter < parameterCount
  }

  /** A snapshot of all the tables. */
  datatype Store = Store(
    clinicalSamples: seq<ClinicalSample>,
    panels: seq<Panel>,
    parameters: seq<Parameter>,
    processedSamples: seq<ProcessedSample>,
    dataProcessings: seq<DataProcessing>,
    numericParameters: seq<NumericParameter>)
  {
    /** The keys that `get` and `get_or_create` rely on are unique, and every
        foreign key points at an existing row. */
    predicate Valid()
    {
      && UniqueSamples(clinicalSamples)
      && UniquePanels(panels)
      && ParametersValid(parameters, |panels|)
      && ProcessedSamplesValid(processedSamples, |clinicalSamples|)
      && DataProcessingsValid(dataProcessings, |processedSamples|, |panels|)
      && NumericParametersValid(numericParameters, |processedSamples|, |parameters|)
    }
  }

  /** `ClinicalSample.objects.get(covid_patient_id=id)`. */
  function FindSample(cs: seq<ClinicalSample>, id: Cell): (r: Option<nat>)
    ensures r.Some? ==> r.value < |cs| && cs[r.value].covidPatientId == id
    ensures r.None? <==> forall k :: 0 <= k < |cs| ==> cs[k].covidPatientId != id
  {
    if |cs| == 0 then None
    else if cs[0].covidPatientId == id then Some(0)
    else match FindSample(cs[1..], id)
      case None => None
      case Some(k) => Some(k + 1)
  }

  /** `Panel.objects.get(name=name)`. */
  function FindPanel(ps: seq<Panel>, name: string): (r: Option<nat>)
    ensures r.Some? ==> r.value < |ps| && ps[r.value].name == name
    ensures r.None? <==> forall k :: 0 <= k < |ps| ==> ps[k].name != name
  {
    if |ps| == 0 then None
    else if ps[0].name == name then Some(0)
    else match FindPanel(ps[1..], name)
      case None => None
      case Some(k) => Some(k + 1)
  }

  /** `Parameter.objects.get(gating_hierarchy=gh, panel=panel)`. */
  function FindParameter(params: seq<Parameter>, gh: string, panel: nat): (r: Option<nat>)
    ensures r.Some? ==> r.value < |params| && params[r.value].gatingHierarchy == gh && params[r.value].panel == panel
    ensures r.None? <==> forall k :: 0 <= k < |params| ==> params[k].gatingHierarchy != gh || params[k].panel != panel
  {
    if |params| == 0 then None
    else if params[0].gatingHierarchy == gh && params[0].panel == panel then Some(0)
    else match FindParameter(params[1..], gh, panel)
      case None => None
      case Some(k) => Some(k + 1)
  }

  /** In a table with unique names, the row a lookup finds is the only row
      with that name. */
  lemma FindPanelUnique(ps: seq<Panel>, name: string, k: nat)
    requires UniquePanels(ps) && k < |ps| && ps[k].name == name
    ensures FindPanel(ps, name) == Some(k)
  {
  }

  lemma FindSampleUnique(cs: seq<ClinicalSample>, id: Cell, k: nat)
    requires UniqueSamples(cs) && k < |cs| && cs[k].covidPatientId == id
    ensures FindSample(cs, id) == Some(k)
  {
  }

  lemma FindParameterUnique(params: seq<Parameter>, gh: string, panel: nat, k: nat)
    requires UniqueParameters(params)
    requires k < |params| && params[k].gatingHierarchy == gh && params[k].panel == panel
    ensures FindParameter(params, gh, panel) == Some(k)
  {
  }

  /** The database: one field per table, each replaced wholesale when a row
      is saved. */
  class Database {
    var clinicalSamples: seq<ClinicalSample>
    var panels: seq<Panel>
    var parameters: seq<Parameter>
    var processedSamples: seq<ProcessedSample>
    var dataProcessings: seq<DataProcessing>
    var numericParameters: seq<NumericParameter>

    constructor ()
      ensures State() == Store([], [], [], [], [], []) && Valid()
    {
      clinicalSamples, panels, parameters := [], [], [];
      processedSamples, dataProcessings, numericParameters := [], [], [];
    }

    function State(): Store
      reads this
    {
      Store(clinicalSamples, panels, parameters, processedSamples, dataProcessings, numericParameters)
    }

    predicate Valid()
      reads this
    {
      State().Valid()
    }

    /** Rolls an aborted transaction back to the snapshot taken when it began. */
    method Rollback(snapshot: Store)
      modifies this
      ensures State() == snapshot
    {
      clinicalSamples, panels, parameters := snapshot.clinicalSamples, snapshot.panels, snapshot.parameters;
      processedSamples, dataProcessings := snapshot.processedSamples, snapshot.dataProcessings;
      numericParameters := snapshot.numericParameters;
    }
  }
}
