# OpenFacsTrack ingestion, modelled in Dafny

OpenFacsTrack stores flow-cytometry results in a relational database. Two
pieces of code write to it.

- The loader `ClinicalSampleFile` takes one results file (one row per
  clinical sample, one column per gating-hierarchy parameter). Its
  constructor works out which columns are parameters and which panels the
  file uses. It then has two operations:
  - `validate` reports what is wrong with the file against the database.
  - `upload` writes the file inside one transaction: it registers the
    clinical samples, writes one processed sample and one data-processing
    record per row, and writes one numeric value per numeric cell.
    Non-numeric cells come back as upload issues.
- The management command `update_panel_parameter_reference_data` reads the
  reference spreadsheet, also inside one transaction. It creates the
  panels it names, upper-cased and in sorted order. It then creates or
  updates one Parameter per row, keyed by (gating hierarchy, panel).

The model has eight modules:

- `Wrappers`: `Option` and `Result`.
- `Seqs`: list helpers (`Distinct`, `Without`, `IndexOf`).
- `Strings`: ASCII `upper()`, Python string ordering and `list.sort()`.
- `Tables`: a parsed data frame of `Cell`s. A cell is a number, `NaN` or a string.
- `Models`: the six tables as a `Store` value, and a `Database` class whose
  fields are those tables.
- `ClinicalSampleFiles`: the loader.
- `UploadProperties`: end-to-end properties of `upload`.
- `ReferenceData`: the management command.

A record's primary key is its position in its table.

Each operation appears twice:

- a specification function over `Store` (`Validated`, `Uploaded`, `Loaded`);
- an imperative method over `Database` that does what the source does,
  loop by loop, and is proved equal to that function.

The lemmas state what the source promises about those functions.

Python exceptions are `Failure` values:

- `KeyError` for a missing column;
- `AttributeError` for `.upper()` on a value that is not a string;
- `DoesNotExist` and `MultipleObjectsReturned` from `get`;
- `IndexError` for `panels[0]` on an empty file;
- `CommandError` for a file that cannot be read.

An aborted transaction is modelled as a rollback to the snapshot taken
when the transaction began.

## Model

| member | source | states |
|---|---|---|
| ClinicalSampleFiles.Load | openfacstrack/apps/track/utils.py:26-61 | construction fails exactly when the file lacks the Date or the Panel column: with ValueError when Date is absent (reading parses it as dates), otherwise with KeyError("Panel"); on success it keeps the data frame |
| ClinicalSampleFiles.LoadDerivesColumnsAndPanels | openfacstrack/apps/track/utils.py:44-61 | the parameter columns are exactly the header columns that are not static columns, with no repeats; the panels are exactly the distinct Panel values, and the first row's panel comes first |
| ClinicalSampleFiles.CheckPanels | openfacstrack/apps/track/utils.py:98-110 | raises AttributeError exactly when a panel value is not a string; the unknown panels are exactly the string values whose upper-cased name is not in the Panel table; the known keys are exactly those of the panels found |
| ClinicalSampleFiles.CheckPanelsUnknownDistinct | openfacstrack/apps/track/utils.py:98-110 | panel values with no repeats give unknown-panel reports with no repeats |
| ClinicalSampleFiles.CountMatches | openfacstrack/apps/track/utils.py:120-131 | counts zero exactly when no parameter has that gating hierarchy under a known panel, and at least two exactly when two distinct rows do |
| ClinicalSampleFiles.CheckParameters | openfacstrack/apps/track/utils.py:120-131 | raises MultipleObjectsReturned exactly when some column is registered under two known panels; otherwise it reports exactly the columns registered under none |
| ClinicalSampleFiles.CheckPanelsPrefixFailure | openfacstrack/apps/track/utils.py:98-110 | the first failing panel value decides the exception, whatever values follow it |
| ClinicalSampleFiles.CheckParametersPrefixFailure | openfacstrack/apps/track/utils.py:120-131 | the first ambiguous column decides the exception, whatever columns follow it |
| ClinicalSampleFiles.MissingColumns | openfacstrack/apps/track/utils.py:81-86 | the loop collects the static columns absent from the header, in their declared order |
| ClinicalSampleFiles.KnownPanels | openfacstrack/apps/track/utils.py:98-110 | the lookup loop over the Panel table agrees with CheckPanels, including which exception it raises |
| ClinicalSampleFiles.UnregisteredParameters | openfacstrack/apps/track/utils.py:120-131 | the loop over the parameter columns agrees with CheckParameters, including the first MultipleObjectsReturned |
| ClinicalSampleFiles.Validated | openfacstrack/apps/track/utils.py:63-145 | what validate returns or raises; it carries no contract of its own, and ValidateReportsMissingStaticColumns, ValidateReportsPanelCount, ValidateReportsUnknownPanels, ValidateReportsUnregisteredParameters, ValidateRaisesExactlyWhen and ValidateEmptyExactlyWhen state it |
| ClinicalSampleFiles.Validate | openfacstrack/apps/track/utils.py:63-145 | the method returns exactly the validation report (or exception) that the specification function gives for the database's current state, and changes nothing |
| ClinicalSampleFiles.KnownPksAreFilePanels | openfacstrack/apps/track/utils.py:98-131 | a Parameter's panel key is among the known keys exactly when that panel is a string panel value of the file |
| ClinicalSampleFiles.ValidateReportsMissingStaticColumns | openfacstrack/apps/track/utils.py:81-86 | a missing-static-columns report is present exactly when a static column is absent, and lists exactly the absent ones, in declared order |
| ClinicalSampleFiles.ValidateReportsPanelCount | openfacstrack/apps/track/utils.py:89-96 | no panel-count error exactly when the Panel column is absent, or there are rows and every row has the first row's panel; otherwise the error lists each distinct panel value once |
| ClinicalSampleFiles.ValidateReportsUnknownPanels | openfacstrack/apps/track/utils.py:98-110 | the unknown-panel report is non-empty when present, has no repeats, and holds exactly the string panel values whose upper-cased name is in no Panel row |
| ClinicalSampleFiles.ValidateReportsUnregisteredParameters | openfacstrack/apps/track/utils.py:112-131 | the unregistered-parameter report is non-empty when present and lists exactly the parameter columns with no Parameter row under a panel the file uses |
| ClinicalSampleFiles.ValidateWithoutPanelColumn | openfacstrack/apps/track/utils.py:112-115 | with no Panel column there is no panel error and every parameter column is reported unregistered |
| ClinicalSampleFiles.ValidateRaisesExactlyWhen | openfacstrack/apps/track/utils.py:98-131 | validate raises exactly when a panel value is not a string or a column's gating hierarchy is registered under two of the file's panels |
| ClinicalSampleFiles.AmbiguousExactlyWhen | openfacstrack/apps/track/utils.py:120-131 | a count of two or more matches means two Parameter rows with that gating hierarchy under the file's panels, and the converse holds |
| ClinicalSampleFiles.ValidateEmptyExactlyWhen | openfacstrack/apps/track/utils.py:63-145 | the report is empty exactly when the static columns are all present, the file has one panel, that panel is known, and every parameter column is registered |
| ClinicalSampleFiles.WithSamples | openfacstrack/apps/track/utils.py:180-187 | registering clinical samples only appends to the table |
| ClinicalSampleFiles.WithSamplesRegisters | openfacstrack/apps/track/utils.py:180-187 | afterwards a sample id is found exactly when it was there before or is in the file; every new row comes from the file; unique ids stay unique |
| ClinicalSampleFiles.SamplePks | openfacstrack/apps/track/utils.py:180-187 | the sample-key map covers exactly the file's ids that are registered, and each key points at the row with that id |
| ClinicalSampleFiles.ResolvePanels | openfacstrack/apps/track/utils.py:189-192 | it fails exactly when a panel value is not a string or names no Panel row; otherwise it maps every panel value to the row with its upper-cased name |
| ClinicalSampleFiles.ResolveParameters | openfacstrack/apps/track/utils.py:196-203 | it fails exactly when some column has no Parameter under the given panel; otherwise it gives, column by column, the key of that Parameter |
| ClinicalSampleFiles.MissingRowColumn | openfacstrack/apps/track/utils.py:206-224 | the row loop hits no KeyError exactly when Date, Operator name, Comments and X1 are all columns |
| ClinicalSampleFiles.ResolvePanelsPrefixFailure | openfacstrack/apps/track/utils.py:189-192 | the first panel value that fails decides the exception |
| ClinicalSampleFiles.ResolveParametersPrefixFailure | openfacstrack/apps/track/utils.py:198-203 | the first column whose Parameter is missing decides the exception |
| ClinicalSampleFiles.UploadKeys | openfacstrack/apps/track/utils.py:180-203 | on success every sample, panel and parameter key covers the file and points at a row with the right id, name or (gating hierarchy, panel) |
| ClinicalSampleFiles.Written | openfacstrack/apps/track/utils.py:206-246 | the store the row loop leaves; it carries no contract of its own, and WrittenStep, WrittenKeepsValid, WrittenRecordsSamples, WrittenRecordsProcessings and WrittenRecordsNumerics state it |
| ClinicalSampleFiles.RowNumericsMembers | openfacstrack/apps/track/utils.py:228-246 | a row writes exactly one numeric value per numeric cell of a parameter column, under that column's parameter key |
| ClinicalSampleFiles.RowIssuesMembers | openfacstrack/apps/track/utils.py:228-246 | a row reports exactly one issue per non-numeric cell of a parameter column |
| ClinicalSampleFiles.NumericsMembers | openfacstrack/apps/track/utils.py:206-246 | over all rows, the numeric values written are exactly those of the numeric cells, each tied to its row's processed sample |
| ClinicalSampleFiles.IssuesMembers | openfacstrack/apps/track/utils.py:206-246 | over all rows, the issues are exactly the non-numeric cells |
| ClinicalSampleFiles.Uploaded | openfacstrack/apps/track/utils.py:147-247 | a failed upload leaves the store as it was; no upload changes the Panel or Parameter tables |
| ClinicalSampleFiles.ProcessedInRange | openfacstrack/apps/track/utils.py:209-216 | every processed sample written points at an existing clinical sample |
| ClinicalSampleFiles.ProcessingsInRange | openfacstrack/apps/track/utils.py:219-224 | every data-processing record written points at a processed sample written before it and at an existing panel |
| ClinicalSampleFiles.NumericsInRange | openfacstrack/apps/track/utils.py:228-246 | every numeric value written points at an existing processed sample and an existing parameter |
| ClinicalSampleFiles.WrittenKeepsValid | openfacstrack/apps/track/utils.py:206-246 | writing all rows keeps every key unique and every foreign key valid |
| ClinicalSampleFiles.UploadKeepsStoreValid | openfacstrack/apps/track/utils.py:147-247 | an upload, whether it succeeds or fails, leaves a store whose keys are unique and whose foreign keys are valid |
| ClinicalSampleFiles.RegisterSamples | openfacstrack/apps/track/utils.py:180-187 | the get_or_create loop appends the file's new sample ids and returns the key of each sample id |
| ClinicalSampleFiles.GetPanelPks | openfacstrack/apps/track/utils.py:189-192 | the lookup loop agrees with ResolvePanels, exception included |
| ClinicalSampleFiles.GetParameterPks | openfacstrack/apps/track/utils.py:198-203 | the lookup loop agrees with ResolveParameters, exception included |
| ClinicalSampleFiles.WriteCells | openfacstrack/apps/track/utils.py:228-246 | the cell loop of one row appends exactly that row's numeric values and returns that row's issues |
| ClinicalSampleFiles.WriteRow | openfacstrack/apps/track/utils.py:206-246 | one row raises KeyError for a missing row column, or appends one processed sample, one data-processing record and the row's numeric values, and nothing else |
| ClinicalSampleFiles.WriteRows | openfacstrack/apps/track/utils.py:206-246 | the row loop raises the first missing row column, or leaves exactly the store that writing every row gives and returns every issue |
| ClinicalSampleFiles.Upload | openfacstrack/apps/track/utils.py:147-247 | the transaction returns the issues or exception that the specification gives, leaves exactly its store (rolled back on failure), and keeps the database valid |
| ClinicalSampleFiles.WithSamplesStep | openfacstrack/apps/track/utils.py:180-187 | registering one more id adds a row exactly when that id was not yet registered |
| ClinicalSampleFiles.SamplePksOfLoop | openfacstrack/apps/track/utils.py:180-187 | the key map built by the loop is the one the specification gives |
| ClinicalSampleFiles.WrittenStep | openfacstrack/apps/track/utils.py:206-246 | writing one more row appends exactly that row's records |
| UploadProperties.FirstPanel | openfacstrack/apps/track/utils.py:196 | the panel the parameters are looked up under is the row named after the first row's panel |
| UploadProperties.PanelsResolveExactlyWhen | openfacstrack/apps/track/utils.py:189-192 | panel lookup succeeds exactly when every row's panel is a string naming a Panel row |
| UploadProperties.PanelsExactlyWhenRows | openfacstrack/apps/track/utils.py:61 | the file has panels exactly when it has rows, and the first panel is the first row's |
| UploadProperties.FirstPanelKey | openfacstrack/apps/track/utils.py:196 | the resolved key of the first panel is that first panel |
| UploadProperties.UploadKeysSucceedExactlyWhen | openfacstrack/apps/track/utils.py:189-203 | key resolution succeeds exactly when all panels resolve, the first panel is known, and every parameter column is registered under it |
| UploadProperties.UploadSucceedsExactlyWhen | openfacstrack/apps/track/utils.py:147-247 | upload succeeds exactly when the file has a Clinical_sample column and rows, all keys resolve, and the row columns are present |
| UploadProperties.AcceptedRun | openfacstrack/apps/track/utils.py:147-247 | an accepted upload registers the samples, then writes every row, and returns every issue |
| UploadProperties.UploadRaisesOnMissingSamplesOrRows | openfacstrack/apps/track/utils.py:180-196 | no Clinical_sample column raises that KeyError; an empty file raises IndexError |
| UploadProperties.FirstPanelParameters | openfacstrack/apps/track/utils.py:198-203 | the parameter keys point, column by column, at the parameter of that gating hierarchy under the first panel |
| UploadProperties.UploadParameterKeys | openfacstrack/apps/track/utils.py:198-203 | the upload uses exactly those parameter keys |
| UploadProperties.SameParameterKeys | openfacstrack/apps/track/utils.py:198-203 | with unique (gating hierarchy, panel) keys, the parameter keys are determined by the columns |
| UploadProperties.SamplesAfterRegisters | openfacstrack/apps/track/utils.py:180-187 | registration keeps the old samples and makes every sample id in the file registered exactly once |
| UploadProperties.UploadRegistersSamples | openfacstrack/apps/track/utils.py:180-187 | after an accepted upload every clinical sample in the file is registered, once |
| UploadProperties.WrittenRecordsSamples | openfacstrack/apps/track/utils.py:209-216 | row i gives the processed sample that points at row i's clinical sample and carries its Date, Operator name and Comments |
| UploadProperties.UploadRecordsSamples | openfacstrack/apps/track/utils.py:206-216 | after an accepted upload the old processed samples are kept and one per row follows, in row order |
| UploadProperties.WrittenRecordsProcessings | openfacstrack/apps/track/utils.py:219-224 | row i gives the data-processing record that points at row i's processed sample, its file name X1 and its own panel |
| UploadProperties.UploadRecordsProcessings | openfacstrack/apps/track/utils.py:219-224 | after an accepted upload the old records are kept and one per row follows |
| UploadProperties.WrittenRecordsNumerics | openfacstrack/apps/track/utils.py:228-246 | the numeric values written are exactly the numeric cells, each under its row and column key |
| UploadProperties.UploadRecordsNumerics | openfacstrack/apps/track/utils.py:228-246 | after an accepted upload the old numeric values are kept and the new ones are exactly the file's numeric cells |
| UploadProperties.NoIssuesExactlyWhenAllNumeric | openfacstrack/apps/track/utils.py:228-247 | no issues are reported exactly when every parameter cell is numeric |
| UploadProperties.UploadReportsIssues | openfacstrack/apps/track/utils.py:228-247 | an accepted upload returns exactly one issue per non-numeric parameter cell |
| UploadProperties.RowCellsAccounted | openfacstrack/apps/track/utils.py:228-246 | every cell of a row becomes either a numeric value or an issue |
| UploadProperties.CellsAccounted | openfacstrack/apps/track/utils.py:206-246 | values plus issues over the first n rows number n times the parameter columns |
| UploadProperties.TimesIsProduct | openfacstrack/apps/track/utils.py:206-246 | the repeated sum used to count cells is row count times column count |
| UploadProperties.UploadAccountsForEveryCell | openfacstrack/apps/track/utils.py:206-247 | an accepted upload adds values and issues that together number rows times parameter columns |
| UploadProperties.ConstructedFileHasDate | openfacstrack/apps/track/utils.py:39 | a file the constructor built has a Date column, so validate never reports Date missing and the row loop never raises KeyError("Date") |
| UploadProperties.CleanValidationFacts | openfacstrack/apps/track/utils.py:63-145 | an empty report means the static columns are present and the file has one known panel |
| UploadProperties.SinglePanelRows | openfacstrack/apps/track/utils.py:89-96 | with one panel every row has that panel, and it is the one the parameters are looked up under |
| UploadProperties.RegisteredUnderOnlyPanel | openfacstrack/apps/track/utils.py:120-131 | with only one panel, a registered column has a Parameter under that panel |
| UploadProperties.CleanValidationAccepted | openfacstrack/apps/track/utils.py:63-203 | a file that validates with an empty report passes every lookup in upload |
| UploadProperties.CleanValidationUploads | openfacstrack/apps/track/utils.py:63-247 | a file that validates with an empty report uploads without an exception |
| ReferenceData.PanelColumn | openfacstrack/apps/track/management/commands/update_panel_parameter_reference_data.py:28 | the panel column holds the panel cell of every row, in order |
| ReferenceData.UpperAll | openfacstrack/apps/track/management/commands/update_panel_parameter_reference_data.py:28 | upper-cases every panel value; it raises AttributeError, naming the value, exactly when a value is not a string |
| ReferenceData.PanelNames | openfacstrack/apps/track/management/commands/update_panel_parameter_reference_data.py:28-29 | the sorted panel names; it carries no contract of its own, and PanelNamesFailExactlyWhen, PanelNamesFromRows, RowsInPanelNames and PanelNamesAreUpperPanels state it |
| ReferenceData.PanelNamesFailExactlyWhen | openfacstrack/apps/track/management/commands/update_panel_parameter_reference_data.py:28-29 | building the panel names fails exactly when some row's panel is not a string, and then with AttributeError |
| ReferenceData.PanelNamesFromRows | openfacstrack/apps/track/management/commands/update_panel_parameter_reference_data.py:28-29 | every panel name is the upper-cased panel of some row |
| ReferenceData.RowsInPanelNames | openfacstrack/apps/track/management/commands/update_panel_parameter_reference_data.py:28-29 | every row's upper-cased panel is among the panel names |
| ReferenceData.PanelNamesAreUpperPanels | openfacstrack/apps/track/management/commands/update_panel_parameter_reference_data.py:28-29 | the panel names are sorted and are exactly the upper-cased panels of the rows |
| ReferenceData.WithPanels | openfacstrack/apps/track/management/commands/update_panel_parameter_reference_data.py:31-32 | creating panels only appends to the Panel table |
| ReferenceData.WithPanelsFinds | openfacstrack/apps/track/management/commands/update_panel_parameter_reference_data.py:31-32 | afterwards a name is found exactly when it was there before or is one of the names |
| ReferenceData.WithPanelsAdds | openfacstrack/apps/track/management/commands/update_panel_parameter_reference_data.py:31-32 | every row added carries one of the names, and that name was not there before |
| ReferenceData.WithPanelsUnique | openfacstrack/apps/track/management/commands/update_panel_parameter_reference_data.py:31-32 | get_or_create keeps panel names unique |
| ReferenceData.WithPanelsSorted | openfacstrack/apps/track/management/commands/update_panel_parameter_reference_data.py:29-32 | sorted names give added rows in ascending order |
| ReferenceData.WithPanelsPresent | openfacstrack/apps/track/management/commands/update_panel_parameter_reference_data.py:31-32 | when every name exists already, the Panel table is unchanged |
| ReferenceData.Apply | openfacstrack/apps/track/management/commands/update_panel_parameter_reference_data.py:35-49 | the row loop never removes a Parameter |
| ReferenceData.LastFor | openfacstrack/apps/track/management/commands/update_panel_parameter_reference_data.py:35-49 | the last row for a (gating hierarchy, panel) key is a row with that key, and there is none exactly when no row has it |
| ReferenceData.LastForLast | openfacstrack/apps/track/management/commands/update_panel_parameter_reference_data.py:35-49 | a row with no later row for its key is the last one for that key |
| ReferenceData.Upsert | openfacstrack/apps/track/management/commands/update_panel_parameter_reference_data.py:37-49 | one get_or_create, the four assignments and the save; it carries no contract of its own, and UpsertFinds, UpsertUnique, UpsertKeeps and UpsertAdds state it |
| ReferenceData.UpsertFinds | openfacstrack/apps/track/management/commands/update_panel_parameter_reference_data.py:37-39 | after one get_or_create a key is found exactly when it was there before or is the row's key |
| ReferenceData.UpsertUnique | openfacstrack/apps/track/management/commands/update_panel_parameter_reference_data.py:37-49 | one get_or_create and save keeps (gating hierarchy, panel) keys unique |
| ReferenceData.UpsertKeeps | openfacstrack/apps/track/management/commands/update_panel_parameter_reference_data.py:37-49 | the existing Parameter with the row's key gets the four assigned fields; every other existing Parameter is unchanged |
| ReferenceData.UpsertAdds | openfacstrack/apps/track/management/commands/update_panel_parameter_reference_data.py:37-49 | at most one Parameter is added, only when the key was absent, and it is a fresh Parameter with the row's fields assigned |
| ReferenceData.ApplyFinds | openfacstrack/apps/track/management/commands/update_panel_parameter_reference_data.py:35-49 | after the loop a key is found exactly when it was there before or some row has it |
| ReferenceData.ApplyUnique | openfacstrack/apps/track/management/commands/update_panel_parameter_reference_data.py:35-49 | the loop keeps (gating hierarchy, panel) keys unique |
| ReferenceData.ApplyKeeps | openfacstrack/apps/track/management/commands/update_panel_parameter_reference_data.py:35-49 | every existing Parameter ends up with the fields of the last row for its key, or is unchanged if no row has that key |
| ReferenceData.ApplyAdds | openfacstrack/apps/track/management/commands/update_panel_parameter_reference_data.py:35-49 | every Parameter added has a key that was absent and that some row has, and carries the last such row's fields |
| ReferenceData.ApplyPresent | openfacstrack/apps/track/management/commands/update_panel_parameter_reference_data.py:35-49 | when every row's key exists already, no Parameter is added |
| ReferenceData.ApplyPanels | openfacstrack/apps/track/management/commands/update_panel_parameter_reference_data.py:35-49 | rows that name existing panels leave every Parameter pointing at an existing panel |
| ReferenceData.ApplyIdempotent | openfacstrack/apps/track/management/commands/update_panel_parameter_reference_data.py:35-49 | running the same rows twice gives the same Parameter table as running them once |
| ReferenceData.ApplyLast | openfacstrack/apps/track/management/commands/update_panel_parameter_reference_data.py:35-49 | the Parameter for a key that some row has carries the last such row's fields |
| ReferenceData.ResolveRows | openfacstrack/apps/track/management/commands/update_panel_parameter_reference_data.py:35-47 | each row resolves to the panel with its upper-cased name and keeps its fields; this fails exactly when some row's panel is not a string or names no panel |
| ReferenceData.Loaded | openfacstrack/apps/track/management/commands/update_panel_parameter_reference_data.py:17-49 | an unreadable sheet raises CommandError; a run only adds Panels and Parameters and leaves the other tables unchanged |
| ReferenceData.ResolvedTouches | openfacstrack/apps/track/management/commands/update_panel_parameter_reference_data.py:35-39 | a key has a last row exactly when some row's upper-cased panel and gating hierarchy give that key |
| ReferenceData.LookupsSucceed | openfacstrack/apps/track/management/commands/update_panel_parameter_reference_data.py:31-36 | once the panels are created, the Panel.get inside the row loop never raises DoesNotExist |
| ReferenceData.LoadedFailsExactlyWhen | openfacstrack/apps/track/management/commands/update_panel_parameter_reference_data.py:20-36 | the command fails exactly when the sheet cannot be read or some panel value is not a string, the latter with AttributeError |
| ReferenceData.LoadedCreatesPanels | openfacstrack/apps/track/management/commands/update_panel_parameter_reference_data.py:28-32 | the old panels are kept, and afterwards a name is found exactly when it was there or is an upper-cased panel of the sheet |
| ReferenceData.LoadedAddsPanelsInOrder | openfacstrack/apps/track/management/commands/update_panel_parameter_reference_data.py:28-32 | the panels added are new upper-cased panel names of the sheet, in ascending order |
| ReferenceData.CreatedPanelFoundByUpper | openfacstrack/apps/track/management/commands/update_panel_parameter_reference_data.py:28-32 | a panel the command creates is found by the `name=value.upper()` lookup of the results-file code when a file carries the stored name |
| ReferenceData.LoadedLastRowWins | openfacstrack/apps/track/management/commands/update_panel_parameter_reference_data.py:35-49 | the last row for a key leaves its marker string, public name, unit and is_reference_parameter=False on that key's Parameter |
| ReferenceData.LoadedKeepsUntouched | openfacstrack/apps/track/management/commands/update_panel_parameter_reference_data.py:41-49 | the key, data type, display name, Excel column name and description of an existing Parameter never change, and a Parameter no row touches is unchanged |
| ReferenceData.LoadedKeepsOldParameter | openfacstrack/apps/track/management/commands/update_panel_parameter_reference_data.py:35-49 | a (gating hierarchy, panel name) pair present before the run is present after it |
| ReferenceData.LoadedHasRowParameter | openfacstrack/apps/track/management/commands/update_panel_parameter_reference_data.py:35-49 | every pair in the sheet is present after the run |
| ReferenceData.LoadedKeepsParameters | openfacstrack/apps/track/management/commands/update_panel_parameter_reference_data.py:35-49 | a pair that was present before or is in the sheet is present after |
| ReferenceData.LoadedParametersFromSheet | openfacstrack/apps/track/management/commands/update_panel_parameter_reference_data.py:35-49 | a pair present after the run was present before or is in the sheet |
| ReferenceData.LoadedParameterKeys | openfacstrack/apps/track/management/commands/update_panel_parameter_reference_data.py:35-49 | after the run the pairs are exactly the old pairs together with the sheet's pairs |
| ReferenceData.LoadedKeepsValid | openfacstrack/apps/track/management/commands/update_panel_parameter_reference_data.py:26-49 | a run keeps keys unique and foreign keys valid |
| ReferenceData.LoadedIdempotent | openfacstrack/apps/track/tests/test_update_reference_data.py:93-99 | running the command again on the same sheet changes nothing, so no duplicates appear |
| ReferenceData.LoadTwiceIsUnion | openfacstrack/apps/track/tests/test_update_reference_data.py:102-127 | after a second sheet the pairs are exactly those already present and those of either sheet |
| ReferenceData.ResolveRowsFirstFailure | openfacstrack/apps/track/management/commands/update_panel_parameter_reference_data.py:35-36 | the first row whose panel fails decides the exception |
| ReferenceData.ResolveRowsStep | openfacstrack/apps/track/management/commands/update_panel_parameter_reference_data.py:35-39 | a row that resolves adds its update to those of the rows before it |
| ReferenceData.ResolveRowsStepFails | openfacstrack/apps/track/management/commands/update_panel_parameter_reference_data.py:35-36 | a row that fails, after rows that resolve, decides the exception |
| ReferenceData.ApplyStep | openfacstrack/apps/track/management/commands/update_panel_parameter_reference_data.py:35-49 | one more row is one more get_or_create and save |
| ReferenceData.LoadedStages | openfacstrack/apps/track/management/commands/update_panel_parameter_reference_data.py:26-49 | the run is the panel stage followed by the row stage |
| ReferenceData.CreatePanels | openfacstrack/apps/track/management/commands/update_panel_parameter_reference_data.py:31-32 | the panel loop leaves WithPanels of the old table and changes no other table |
| ReferenceData.UpdateParameters | openfacstrack/apps/track/management/commands/update_panel_parameter_reference_data.py:35-49 | the row loop raises the exception of the first failing row, or leaves the Parameter table the rows give; no other table changes |
| ReferenceData.UpdateReferenceData | openfacstrack/apps/track/management/commands/update_panel_parameter_reference_data.py:17-49 | the command raises what the specification gives and rolls back, or commits exactly the store the specification gives |
| Strings.UpperIdempotent | openfacstrack/apps/track/management/commands/update_panel_parameter_reference_data.py:28-32 | upper-casing twice is upper-casing once, so a stored panel name upper-cases to itself when it is looked up again |
| Strings.LessEqTotal | openfacstrack/apps/track/management/commands/update_panel_parameter_reference_data.py:29 | any two strings are ordered one way or the other |
| Strings.LessEqTransitive | openfacstrack/apps/track/management/commands/update_panel_parameter_reference_data.py:29 | string ordering is transitive |
| Strings.Insert | openfacstrack/apps/track/management/commands/update_panel_parameter_reference_data.py:29 | inserting into a sorted list gives a sorted list with one more copy of the value |
| Strings.Sort | openfacstrack/apps/track/management/commands/update_panel_parameter_reference_data.py:29 | sorting gives an ascending permutation of its input |
| Strings.SortSameMembers | openfacstrack/apps/track/management/commands/update_panel_parameter_reference_data.py:29 | sorting neither adds nor drops a name |
| Seqs.Distinct | openfacstrack/apps/track/utils.py:61 | `unique()` keeps exactly the values of its input, with no repeats and the first value first |
| Seqs.DistinctFirstAppearance | openfacstrack/apps/track/utils.py:61 | `unique()` keeps values in order of first appearance |
| Seqs.WithoutKeepsOrder | openfacstrack/apps/track/utils.py:81-86 | the missing static columns keep their declared order |
| Seqs.DistinctSingleton | openfacstrack/apps/track/utils.py:89-96 | one distinct value means every row holds the first row's value |
| Seqs.DistinctOfConstant | openfacstrack/apps/track/utils.py:89-96 | a column holding one value throughout has exactly that one distinct value |
| Models.FindSample | openfacstrack/apps/track/utils.py:180-187 | a lookup by clinical sample id finds a row with that id, and finds none exactly when no row has it |
| Models.FindPanel | openfacstrack/apps/track/utils.py:189-192 | a lookup by name finds a row with that name, and finds none exactly when no row has it |
| Models.FindParameter | openfacstrack/apps/track/utils.py:198-203 | a lookup by (gating hierarchy, panel) finds a row with that key, and finds none exactly when no row has it |
| Models.FindPanelUnique | openfacstrack/apps/track/utils.py:189-192 | with unique names, the row found is the only row with that name |
| Models.FindSampleUnique | openfacstrack/apps/track/utils.py:180-187 | with unique ids, the row found is the only row with that id |
| Models.FindParameterUnique | openfacstrack/apps/track/utils.py:198-203 | with unique keys, the row found is the only row with that key |
| Models.Database.Rollback | openfacstrack/apps/track/utils.py:178 | an aborted transaction restores the snapshot taken when it began |

## Left out

- File reading (`pd.read_csv`, `pd.read_excel`) is not modelled, except the
  ValueError that reading raises on a results file without a Date column. The loader
  takes a parsed table. The command takes the sheet's rows, or a read error
  message that becomes `CommandError`.
- Floating point is not modelled. A numeric cell is an integer; `NaN` is its
  own cell kind; `numbers.Number` is `Num`.
- `str.upper()` is modelled only for ASCII letters. Other characters are
  left unchanged.
- ClinicalSampleFiles.Load: the source keeps the parameter columns in a
  Python `set`, whose order is unspecified. The model keeps them in header
  order, so the order of issues and lookups is one possible order.
- ClinicalSampleFiles.Validate: the else branch at utils.py:112-115 cannot
  run for a file the constructor built, because the constructor raises
  KeyError("Panel") first. The model still defines validate on any file, so
  the branch is covered.
- ClinicalSampleFiles.Validated and ClinicalSampleFiles.Uploaded are
  defined for any parsed table, and there a table without Date gives a
  "Date" missing-column report or KeyError("Date"). A file the constructor
  built always has a Date column, because reading fails without one
  (ConstructedFileHasDate). So in the source neither outcome can happen.
- Uniqueness of clinical sample ids, panel names and (gating hierarchy,
  panel) keys is an assumption of `Store.Valid`, not a database constraint
  that is enforced. Under it, every `get` and every `get_or_create` finds at
  most one row, so MultipleObjectsReturned from those calls is not modelled.
  The two-row match that validate can raise on is modelled.
- NOT NULL and foreign-key constraints enforced by the database engine,
  and the fields `upload` leaves at their defaults, are not modelled.
  `ProcessedSample` has only the fields the file supplies.
- Upload issues are a list of (row, column, cell) records. The source
  returns a dictionary of message strings, and that text is not modelled.
- The pseudo-parameters that the command's tests expect (batch,
  date_processed, operator_1, operator_2, comments per panel) are not
  modelled. The command never creates them, and the model follows the command.
- The reference spreadsheet's columns are fields of a row record, so a
  KeyError from a column the sheet lacks is not modelled. Gating
  hierarchy, marker string, public population name and unit are strings,
  so a missing (`NaN`) value is not modelled for those fields.
- `print` output and message strings are not modelled. Spreadsheet columns
  the command reads but does not store (the ancestral-population column)
  are not part of the row record.
- Transactions are modelled as a snapshot and a rollback. Concurrent
  transactions are not modelled.
- Views, serializers, the REST API, authentication, the admin and the
  patient-data upload are not part of this model.
