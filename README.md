# marisco provider handlers in Dafny

This project models the row- and column-level transformations of two
marisco data-provider handlers. The handlers turn provider tables into the
MARIS layout. They work on a shared dictionary `tfm.dfs`, which maps a
group name to a pandas table:

- `seawater`, `biota` and `sediment` for HELCOM;
- `BIOTA`, `SEAWATER`, and so on for the legacy MARIS dump.

Each callback rewrites that dictionary in place. The model states and proves
what each callback leaves in it.

How things are modelled:

- **Values** (`values.dfy`): a cell is one of
  - `Missing` (NaN, NaT or None);
  - `Num` (one exact `real` for pandas integers and floats, which compare
    equal, `56 == 56.0`);
  - `Str`;
  - `Time`.
- **Tables** (`tables.dfy`): a table is its ordered column labels plus rows.
  Each row is a map from label to cell. `Valid` requires distinct labels and
  every row holding exactly those labels.
- **Callbacks** (`pipeline.dfy`): `Pipeline.Transformer` is a class whose
  field `dfs` the callbacks update.
  - Each callback is a method with `modifies tfm`dfs`.
  - Its `ensures` ties the new `dfs` to a function of the old one.
  - The meaning of that function is proved per table and per row, as
    function contracts and lemmas.
- **Lookup tables** are parameters: `Remapper` results, spreadsheet readers
  and the NetCDF configuration. So are the library conversions:
  - the `DATE` format parser;
  - `ddmm_to_dd`;
  - pandas' rendering of a value as a string.
- **Errors.** Where the source raises (a missing group, a missing column, an
  unknown key), the model mostly has a precondition; the exceptions are
  named under "Left out". Where the source handles the case (an unknown
  encoding, a missing lookup key, a missing cell), the model has the
  corresponding branch.

Modules:

| file | module | models |
|---|---|---|
| helcom_time.dfy | `HelcomTime` | `ParseTimeCB`: DAY/MONTH repair, then the DATE parse with the YEAR/MONTH/DAY fallback |
| helcom_measures.dfy | `HelcomMeasures` | `SanitizeValue`, `unc_rel2stan`, `NormalizeUncCB` |
| helcom_remap.dfy | `HelcomRemap` | nuclide, taxon, sediment, unit, detection-limit, FILT and measurement-note lookups |
| helcom_columns.dfy | `HelcomColumns` | the column copies and `LookupDryWetRatio` |
| helcom_coordinates.dfy | `HelcomCoordinates` | `ParseCoordinates`, including its case-insensitive regular-expression column search |
| helcom_rules.dfy | `HelcomRules` | `get_common_rules`, `get_specific_rules`, `get_renaming_rules`, `SelectAndRenameColumnCB` |
| helcom_notes.dfy | `HelcomNotes` | how `AddMeasurementNoteCB` and the OpenRefine renaming rules interact |
| helcom_begperiod.dfy | `HelcomBegperiod` | how the `time` and `begperiod` columns of `ParseTimeCB` fare in the OpenRefine selection |
| maris_legacy.dfy | `MarisLegacy` | `DataLoader`, `get_zotero_key`, `get_fname`, `CastStationToStringCB`, `DropNAColumnsCB`, `SanitizeDetectionLimitCB` |

## Model

| member | source | states |
|---|---|---|
| HelcomRemap.RemapNuclideNameTable | marisco/handlers/helcom.py:148-152 | a NUCLIDE cell found in the lookup becomes its matched MARIS name, any other cell is kept; no other column or row changes |
| HelcomRemap.RemapNuclideNameCB | marisco/handlers/helcom.py:141-152 | every group gets its nuclide names remapped with the lookup built from `fn_lut` |
| HelcomTime.RepairDayMonth | marisco/handlers/helcom.py:172-178 | no DAY or MONTH is left 0; both missing with a YEAR give the first of January; a single missing DAY or MONTH stays missing; other cells are kept |
| HelcomTime.TimeOf | marisco/handlers/helcom.py:162-187 | a row's time is a timestamp or NaT: the parsed DATE when that parse succeeds, and NaT exactly when neither the DATE nor the YEAR/MONTH/DAY fields give a day |
| HelcomTime.ParseTimeRow | marisco/handlers/helcom.py:162-191 | `time` is the parsed DATE when that parse succeeds, else the day assembled from the repaired YEAR/MONTH/DAY, else NaT; `begperiod` equals `time`; other cells are kept |
| HelcomTime.ParseTimeTable | marisco/handlers/helcom.py:157-191 | the group keeps its rows and gains the columns `time` and `begperiod`; `ParseTimeTableRows` states each row |
| HelcomTime.YearOnlyIsFirstOfJanuary | marisco/handlers/helcom.py:172-187 | without a parsable DATE, a row with only a YEAR (or zero DAY and MONTH) gets midnight of 1 January of that year |
| HelcomTime.TimeComesFromDateOrFields | marisco/handlers/helcom.py:180-187 | `time` is NaT exactly when both the DATE parse and the field assembly fail; a fallback time is a valid Gregorian day that matches the row's fields |
| HelcomTime.ParseTimeTableRows | marisco/handlers/helcom.py:157-191 | the whole-column steps on a table compute `ParseTimeRow` on each row |
| HelcomTime.ParseTimeCB | marisco/handlers/helcom.py:155-160 | every group is processed; the tables stay well formed |
| HelcomMeasures.SanitizeValueTable | marisco/handlers/helcom.py:206-210 | the rows with a missing value cell are dropped and the rest keep their order; `value` copies the group's value column and is never missing |
| HelcomMeasures.SanitizeValue | marisco/handlers/helcom.py:199-210 | every group is sanitised with its own value column from `coi` |
| HelcomMeasures.UncRel2Stan | marisco/handlers/helcom.py:213-219 | with both operands numbers, the result is that percentage of the measured value (result × 100 = percentage × value), between 0 and the value for a percentage from 0 to 100 of a non-negative value; with NaN in either, NaN |
| HelcomMeasures.UncRel2StanInverse | marisco/handlers/helcom.py:213-219 | converting a relative uncertainty to an absolute one and back gives the original percentage, for a nonzero measurement |
| HelcomMeasures.UncRel2StanExamples | marisco/handlers/helcom.py:213-219 | value 100 with 10 % gives 10; value 0 gives 0; a missing operand gives NaN |
| HelcomMeasures.WithUncertainty | marisco/handlers/helcom.py:240 | each row's `uncertainty` comes from its value and relative-error cells; nothing else changes |
| HelcomMeasures.NormalizeUncUntouched | marisco/handlers/helcom.py:236-240 | a group that `coi` does not name is left as it was |
| HelcomMeasures.NormalizeUncApplies | marisco/handlers/helcom.py:236-240 | with distinct group names, every named group that is present gets the uncertainty from its own columns |
| HelcomMeasures.NormalizeUncCB | marisco/handlers/helcom.py:228-240 | the loop over `coi` computes `NormalizeUncSpec`, applying the entries in order |
| HelcomRemap.TaxonField | marisco/handlers/helcom.py:304 | a species id found with a value gives that value, otherwise 'Unknown'; never missing |
| HelcomRemap.RemapTaxonTable | marisco/handlers/helcom.py:296-305 | the biota table keeps its rows and gains `TaxonRepName` |
| HelcomRemap.RemapTaxonRows | marisco/handlers/helcom.py:296-305 | every biota row gets `TaxonRepName` (its RUBIN, or 'Unknown' without that column) and each taxon field looked up from its species, never missing; other cells are kept |
| HelcomRemap.RemapTaxonColumns | marisco/handlers/helcom.py:300-305 | the loop over the taxon columns computes the fold `RemapTaxonTable`; only the biota table changes |
| HelcomRemap.RemapTaxonInformationCB | marisco/handlers/helcom.py:291-305 | the callback with the source's five taxon columns; it needs a biota table with a species column |
| HelcomRemap.FixSedi | marisco/handlers/helcom.py:323-326 | 56, 73 and missing become -99; no code 56 or 73 and no missing code is left; other codes are kept |
| HelcomRemap.SedimentType | marisco/handlers/helcom.py:338-347 | a known code gives its matched id, and an unknown code gives -1 |
| HelcomRemap.RemapSedimentRow | marisco/handlers/helcom.py:328-336 | `SedRepName` keeps the provider's SEDI; SEDI is fixed; `sed_type` is the id of the fixed code, or -1; other cells are kept |
| HelcomRemap.RemapSedimentTable | marisco/handlers/helcom.py:328-336 | every sediment row is remapped by `RemapSedimentRow`, with the columns `SedRepName` and `sed_type` added |
| HelcomRemap.RemapSedimentCB | marisco/handlers/helcom.py:316-336 | only the sediment table changes |
| HelcomRemap.UnitTable | marisco/handlers/helcom.py:384-389 | as written: seawater and sediment rows get the fixed id of the callback's own table; biota rows get the module-level table's id for their BASIS, 0 when unknown; no other cell changes |
| HelcomRemap.DefaultUnits | marisco/handlers/helcom.py:366-389 | seawater rows get unit 1 and sediment rows 4; biota rows get 4 for BASIS 'D', 5 for 'W' or 'F', and 0 otherwise |
| HelcomRemap.RemapUnitCB | marisco/handlers/helcom.py:377-389 | every group gets its unit column, with the per-row ids `UnitTable` states |
| HelcomRemap.UnitTableIgnoresOwnBiotaEntry | marisco/handlers/helcom.py:389 | a biota entry in the callback's own `lut_units` is ignored: dry biota still gets 4 |
| HelcomRemap.UnitTableCorrected | marisco/handlers/helcom.py:377-389 | with `self.lut_units` read in both branches, every row's unit is its group's fixed id or the id for its BASIS, 0 when unknown; no other cell changes |
| HelcomRemap.UnitTableCorrectedAgreesOnDefault | marisco/handlers/helcom.py:366-389 | with the default table the corrected callback gives the same tables as the source |
| HelcomRemap.RemapUnitCorrectedCB | marisco/handlers/helcom.py:377-389 | corrected: every group gets its unit from the callback's own table |
| HelcomRemap.DetectionLimit | marisco/handlers/helcom.py:434-444 | a known label is looked up; an unknown label becomes '=' when value and uncertainty are both present, and 'Not Available' otherwise; a label still unknown gives NaN |
| HelcomRemap.DetectionLimitAlwaysKnown | marisco/handlers/helcom.py:438-444 | with both fallback labels in the lookup, every row's detection limit is one of its ids |
| HelcomRemap.DetectionLimitTable | marisco/handlers/helcom.py:424-444 | the `detection_limit` column is added from the group's dl, value and uncertainty columns; nothing else changes |
| HelcomRemap.RemapDetectionLimitCB | marisco/handlers/helcom.py:408-422 | every group needs an entry in `coi` and gets its detection limits |
| HelcomRemap.RemapFiltTable | marisco/handlers/helcom.py:461-464 | where FILT exists each code becomes its id, 0 when unknown; a table without FILT is unchanged |
| HelcomRemap.RemapFiltCB | marisco/handlers/helcom.py:454-464 | every group is remapped |
| HelcomRemap.MeasurementNoteTable | marisco/handlers/helcom.py:487-491 | where METHOD exists the note column gets each method's description, 0 when unknown; a table without METHOD is unchanged |
| HelcomRemap.AddMeasurementNoteCB | marisco/handlers/helcom.py:480-491 | as written: the note goes to the column `measurementnote` |
| HelcomRemap.AddMeasureNoteCB | marisco/handlers/helcom.py:480-491 | corrected: the note goes to `measurenote`, the name the OpenRefine rules select (helcom.py:606) |
| HelcomColumns.CopyColumn | marisco/handlers/helcom.py:473-474 | the destination column holds the source column's cell in each row; the source column and all other cells are kept |
| HelcomColumns.AddSampleLabCodeCB | marisco/handlers/helcom.py:467-474 | `samplabcode` copies KEY in every group |
| HelcomColumns.RemapStationIdCB | marisco/handlers/helcom.py:494-502 | `station` copies STATION in every group |
| HelcomColumns.RemapSedSliceTopBottomCB | marisco/handlers/helcom.py:505-510 | only the sediment table changes: `top` copies UPPSLI, then `bottom` copies LOWSLI |
| HelcomColumns.SedSliceRows | marisco/handlers/helcom.py:507-510 | every sediment row gets `top` = UPPSLI and `bottom` = LOWSLI, and its other cells are kept |
| HelcomColumns.DryWetRatio | marisco/handlers/helcom.py:521-525 | a ratio of 0 becomes missing, and any other ratio is kept |
| HelcomColumns.DryWetTable | marisco/handlers/helcom.py:515-525 | only a table with `DW%` gets `dry_wet_ratio`, copied cell by cell through `DryWetRatio` |
| HelcomColumns.DryWetNoZero | marisco/handlers/helcom.py:521-525 | no ratio is left 0; a ratio is missing because of the rule exactly when the provider's value was 0 |
| HelcomColumns.LookupDryWetRatio | marisco/handlers/helcom.py:513-525 | every group is processed |
| HelcomCoordinates.SearchExact | marisco/handlers/helcom.py:564-567 | the search for `a.*b` (case-insensitive, `.` not matching a newline) succeeds exactly when `a` occurs somewhere and is followed, on the same line, by `b` |
| HelcomCoordinates.FindColumn | marisco/handlers/helcom.py:564-567 | the result is the first column whose name matches; there is none exactly when no column matches |
| HelcomCoordinates.CoordColumns | marisco/handlers/helcom.py:556-562 | the four coordinate columns are found, each matching its pattern, or `None` when any one is missing |
| HelcomCoordinates.MatchIsNotOutputName | marisco/handlers/helcom.py:547-552 | a matching column is never `lat` or `lon`, so writing `lat` first cannot change the longitude inputs |
| HelcomCoordinates.SafeConvert | marisco/handlers/helcom.py:569-576 | NaN passes through; a converted value is returned; a value the conversion rejects is returned unchanged |
| HelcomCoordinates.PickCoord | marisco/handlers/helcom.py:548-552 | the decimal value wins unless it is missing or 0; then the converted minute value is used |
| HelcomCoordinates.CoordRow | marisco/handlers/helcom.py:548-552 | `lat` is picked from the row's latitude cells, and `lon` from its longitude cells unless one of those is the column `lat`; every other cell is kept |
| HelcomCoordinates.FormatCoordinates | marisco/handlers/helcom.py:543-554 | the rows that keep both a latitude and a longitude, in their order; no kept row lacks either |
| HelcomCoordinates.DecimalCoordinatesKept | marisco/handlers/helcom.py:548-554 | a row with present, nonzero decimal coordinates is kept, with exactly those coordinates |
| HelcomCoordinates.CoordinatesDropExactly | marisco/handlers/helcom.py:554 | a row is dropped exactly when its latitude or longitude comes out missing |
| HelcomCoordinates.ParseCoordinates | marisco/handlers/helcom.py:529-554 | every group gets its coordinates formatted |
| HelcomRules.UpdateLookup | marisco/handlers/helcom.py:599-615 | after `d.update(e)`, a key of `e` looks up its value in `e` and any other key its value in `d`; keys stay unique |
| HelcomRules.UpdateKeepsOrder | marisco/handlers/helcom.py:599-615 | keys already in the dict keep their positions, and new keys come after them |
| HelcomRules.UpdateFresh | marisco/handlers/helcom.py:599-615 | updating with fresh keys appends them in order |
| HelcomRules.CommonRules | marisco/handlers/helcom.py:579-617 | the common rules are a dict (no key twice) in which each key added for the encoding looks up its added target and every other key its base target |
| HelcomRules.OpenRefineCommonMeasureNote | marisco/handlers/helcom.py:598-607 | the OpenRefine common rules map `measurenote` to itself |
| HelcomRules.SpecificRules | marisco/handlers/helcom.py:620-658 | rules exist exactly for the two encodings, for the groups biota and sediment |
| HelcomRules.SpecificRulesDistinct | marisco/handlers/helcom.py:620-658 | each group's specific rules are a dict |
| HelcomRules.RenamingRules | marisco/handlers/helcom.py:661-678 | an unknown encoding is an error (`ValueError`); otherwise the entries are seawater, biota and sediment, in that order |
| HelcomRules.RenamingRulesOverride | marisco/handlers/helcom.py:670-678 | each group's key looks up its specific rule when there is one, else its common rule; each group's rules are a dict |
| HelcomRules.RenamingRulesStandard | marisco/handlers/helcom.py:661-678 | the result has the three entries, in order, each a dict |
| HelcomRules.ContainsExact | marisco/handlers/helcom.py:721 | the substring test `group in key` holds exactly when the group name occurs at some position of the key |
| HelcomRules.GroupRulesOf | marisco/handlers/helcom.py:716-725 | the merged rules of the matching entries form a dict |
| HelcomRules.MergeEntries | marisco/handlers/helcom.py:721-724 | every merged rule comes from one of the entries |
| HelcomRules.GroupRulesSingle | marisco/handlers/helcom.py:716-725 | when exactly one entry's name contains the group name, the group gets exactly that entry's rules |
| HelcomRules.SeawaterGroupRules | marisco/handlers/helcom.py:716-725 | on the standard entries, the seawater group gets exactly the seawater rules |
| HelcomRules.BiotaGroupRules | marisco/handlers/helcom.py:716-725 | on the standard entries, the biota group gets exactly the biota rules |
| HelcomRules.SedimentGroupRules | marisco/handlers/helcom.py:716-725 | on the standard entries, the sediment group gets exactly the sediment rules |
| HelcomRules.ValidRulesInOrder | marisco/handlers/helcom.py:734-735 | the applied rules are the rules whose key is a column, in rule order, each key once |
| HelcomRules.DedupeMembers | marisco/handlers/helcom.py:741 | `OrderedDict.fromkeys` keeps each label once, and only the labels it was given |
| HelcomRules.KeptSplit | marisco/handlers/helcom.py:738-741 | the selected columns are the applied rule keys, then the existing columns that bear a target name and are not themselves keys |
| HelcomRules.RenamesHead | marisco/handlers/helcom.py:738-744 | the first selected columns are renamed by the applied rules, in rule order |
| HelcomRules.RenamesTail | marisco/handlers/helcom.py:739-744 | the remaining selected columns keep their names, and each bears the target of an applied rule |
| HelcomRules.OutColsExact | marisco/handlers/helcom.py:734-744 | a label is in the output exactly when it is the target of an applied rule; every other column is dropped |
| HelcomRules.PreexistingTargetsCollide | marisco/handlers/helcom.py:739-744 | the columns kept because they bear a target name always repeat a renamed column's label |
| HelcomRules.TailBreaksDistinct | marisco/handlers/helcom.py:739-744 | any column beyond the renamed rule keys produces a duplicate label |
| HelcomRules.DistinctOutCols | marisco/handlers/helcom.py:738-744 | when the labels come out distinct, the output columns are the applied rules' targets, in rule order |
| HelcomRules.ApplyRenaming | marisco/handlers/helcom.py:727-744 | every kept column appears under its new name, holding that column's cells |
| HelcomRules.RenamedCells | marisco/handlers/helcom.py:735-744 | each applied rule's target column holds, in every row, the cell of its key column |
| HelcomRules.UnappliedPartition | marisco/handlers/helcom.py:746-747 | every rule key is either applied or reported as not found, never both |
| HelcomRules.SelectRenameTable | marisco/handlers/helcom.py:700-708 | a group without rules is left alone; otherwise its columns are the targets of its applied rules, in order, and its rows are kept |
| HelcomRules.Unapplied | marisco/handlers/helcom.py:700-714 | not-found keys are reported for exactly the groups that have rules |
| HelcomRules.SelectAndRenameColumnCB | marisco/handlers/helcom.py:690-714 | when fetching the rules fails, nothing changes; otherwise every group is selected and renamed with its rules, and the not-found keys are returned |
| HelcomRules.UntargetedColumnDropped | marisco/handlers/helcom.py:734-744 | a label no rule produces never survives the selection of a group that has rules |
| HelcomRules.IdentityRuleKeepsColumn | marisco/handlers/helcom.py:734-744 | a column that a rule maps to itself survives with its cells unchanged |
| HelcomRules.OpenRefineNeverTargetsMeasurementNote | marisco/handlers/helcom.py:584-658 | no OpenRefine rule, in any entry, produces a column `measurementnote` |
| HelcomRules.OpenRefineKeepsMeasureNote | marisco/handlers/helcom.py:598-607 | every OpenRefine entry maps `measurenote` to itself |
| HelcomRules.UntargetedNotOutput | marisco/handlers/helcom.py:734-744 | a label no rule produces is never among the output labels, whatever columns the table has |
| HelcomRules.IdentityRuleOutput | marisco/handlers/helcom.py:734-744 | an existing column that a rule maps to itself is among the output labels |
| HelcomRules.AppliedTargetOutput | marisco/handlers/helcom.py:734-744 | the target of an applied rule is output among the renamed rule keys |
| HelcomRules.TargetKeptInTail | marisco/handlers/helcom.py:739-744 | an existing column that bears an applied rule's target and is no rule key is output again after the renamed keys |
| HelcomRules.PreexistingTargetTwice | marisco/handlers/helcom.py:734-744 | such a column's label is output twice: for the renamed key and for the column itself |
| HelcomRules.ValidTargetsDistinct | marisco/handlers/helcom.py:734-735 | rules with distinct targets stay so once restricted to the existing keys |
| HelcomRules.ApplyRenamingCorrected | marisco/handlers/helcom.py:727-744 | corrected: only the existing rule keys are kept, each under its target, holding its cells; the labels are distinct for every table |
| HelcomRules.ApplyRenamingCorrectedAgrees | marisco/handlers/helcom.py:727-744 | where the as-written labels come out distinct, the corrected renaming gives the same table |
| HelcomRules.IdentityRuleKeepsColumnCorrected | marisco/handlers/helcom.py:734-744 | corrected: a column that a rule maps to itself survives with its cells unchanged |
| HelcomRules.SelectRenameCorrected | marisco/handlers/helcom.py:700-708 | corrected: a group without rules is left alone; otherwise its columns are the targets of its applied rules, in order |
| HelcomRules.SelectAndRenameColumnCorrectedCB | marisco/handlers/helcom.py:690-714 | corrected: the callback needs distinct rule targets only, not distinct labels of the table |
| HelcomRules.UpdateApart | marisco/handlers/helcom.py:599-615 | updating with entries whose keys and targets are new appends them, keeping targets distinct |
| HelcomRules.OpenRefineCommonAppends | marisco/handlers/helcom.py:584-607 | the OpenRefine common rules are the literal dict followed by the added entries, with distinct targets |
| HelcomRules.OpenRefineSpecificApart | marisco/handlers/helcom.py:638-658 | every group's OpenRefine specific rules bring keys and targets the common rules lack |
| HelcomRules.OpenRefineTargetsDistinct | marisco/handlers/helcom.py:661-678 | every OpenRefine entry is the common rules followed by its specific ones, and no two of its rules share a target |
| HelcomRules.OpenRefineCommonTime | marisco/handlers/helcom.py:584-588 | the OpenRefine common rules rename `time` to `begperiod` and have no key `begperiod` |
| HelcomRules.OpenRefineTimeRule | marisco/handlers/helcom.py:584-678 | every OpenRefine entry renames `time` to `begperiod`, and none has a key `begperiod` |
| HelcomRules.StandardGroupRules | marisco/handlers/helcom.py:716-725 | on the standard entries, each sample type gets exactly its own entry's rules |
| HelcomNotes.OpenRefineGroupRules | marisco/handlers/helcom.py:661-725 | each sample type's merged OpenRefine rules are its own entry's, a non-empty dict |
| HelcomNotes.MeasurementNoteLabelLost | marisco/handlers/helcom.py:487-491 | as written, the `measurementnote` column is never among the labels the OpenRefine selection outputs for a sample type, whatever else the table holds |
| HelcomNotes.MeasurementNoteLost | marisco/handlers/helcom.py:487-491 | as written, for a table whose output labels come out distinct, the selected table has no `measurementnote` |
| HelcomNotes.MeasureNoteRule | marisco/handlers/helcom.py:598-607 | every sample type's merged OpenRefine rules map `measurenote` to itself |
| HelcomNotes.MeasureNoteLabelKept | marisco/handlers/helcom.py:480-491 | written to `measurenote`, the note is among the labels the OpenRefine selection outputs for every sample type, whatever else the table holds |
| HelcomNotes.MeasureNoteKept | marisco/handlers/helcom.py:480-491 | written to `measurenote`, for a table whose output labels come out distinct, the note holds each row's method description (0 when unknown) after the selection |
| HelcomNotes.MeasureNoteKeptCorrected | marisco/handlers/helcom.py:480-491 | with the corrected selection, which applies to every table, the `measurenote` column holds each row's method description (0 when unknown) |
| HelcomBegperiod.BegperiodTwice | marisco/handlers/helcom.py:588 | as written, after `ParseTimeCB` the OpenRefine selection of every sample type outputs `begperiod` twice, so the table's labels are not distinct |
| HelcomBegperiod.BegperiodOnceCorrected | marisco/handlers/helcom.py:190-191 | with the corrected selection, after `ParseTimeCB` each sample type's OpenRefine rules apply, the labels are distinct, and `begperiod` holds each row's parsed `time` |
| MarisLegacy.LoadData | marisco/handlers/maris_legacy.py:71-73 | with a non-empty exclusion list, exactly the rows of unlisted references are kept, in order; otherwise the dump is kept as it is |
| MarisLegacy.LoadDataMembers | marisco/handlers/maris_legacy.py:73 | a row survives exactly when its `ref_id` is not in the exclusion list |
| MarisLegacy.DataLoader.constructor | marisco/handlers/maris_legacy.py:64-69 | the loader holds the dump with the excluded references removed |
| MarisLegacy.SampleRows | marisco/handlers/maris_legacy.py:78-79 | a group's rows are exactly the rows of its sample type, and of the reference when that is not 0; the dump must have `samptype`, and `ref_id` for a non-zero reference, where the source raises `KeyError` / `AttributeError` |
| MarisLegacy.Groups | marisco/handlers/maris_legacy.py:78-79 | the candidate groups that have rows, in sample-type order, for a dump with the columns `groupby` and the reference filter read |
| MarisLegacy.GroupsExact | marisco/handlers/maris_legacy.py:57-79 | a group occurs exactly for a sample type of `LUT` that has rows, named by `LUT`, holding exactly that sample type's rows |
| MarisLegacy.GroupRowsMatch | marisco/handlers/maris_legacy.py:78-79 | every row of a group has the group's sample type and, unless the reference is 0, that reference; other sample types are discarded |
| MarisLegacy.SampleTypesSorted | marisco/handlers/maris_legacy.py:57-62 | the `LUT` keys are in sorted order, so `groupby` yields the groups in `LUT` order |
| MarisLegacy.DictOf | marisco/handlers/maris_legacy.py:79 | the dict holds exactly the groups' names |
| MarisLegacy.DictOfValues | marisco/handlers/maris_legacy.py:79 | when the names are distinct, each name holds its group's table |
| MarisLegacy.GroupsDistinctNames | marisco/handlers/maris_legacy.py:57-79 | the groups carry distinct `LUT` names, so their dict loses none of them |
| MarisLegacy.GroupsDict | marisco/handlers/maris_legacy.py:75-79 | the dict has a `LUT` group name exactly when that sample type has rows, and then holds exactly those rows |
| MarisLegacy.DataLoader.Call | marisco/handlers/maris_legacy.py:75-79 | needs a `samptype` column, and a `ref_id` column for a non-zero reference (the source raises `KeyError` and `AttributeError` without them); returns the groups of the reference (of the whole dump when it is 0), each non-empty and well formed; their dict holds, under each `LUT` name, exactly that sample type's rows, and has the name exactly when there are rows |
| MarisLegacy.LastSegment | marisco/handlers/maris_legacy.py:84 | `split('/')[-1]`: a `/`-free suffix that is the whole string or follows a `/` |
| MarisLegacy.LastSegmentUnique | marisco/handlers/maris_legacy.py:84 | that description determines the segment uniquely |
| MarisLegacy.ZoteroKey | marisco/handlers/maris_legacy.py:82-84 | the key is the last path segment of the first group's first `zoterourl` |
| MarisLegacy.FileName | marisco/handlers/maris_legacy.py:87-89 | the name ends in `.nc`, and its stem reads back as the first group's first `ref_id` |
| MarisLegacy.FileNameOfReference | marisco/handlers/maris_legacy.py:75-89 | the file of a loaded non-zero reference is named after that reference |
| MarisLegacy.StationCell | marisco/handlers/maris_legacy.py:126 | a missing station becomes "", a string is kept, and every result is a string |
| MarisLegacy.CastStationTable | marisco/handlers/maris_legacy.py:123-126 | where STATION exists every station is cast; a table without it is unchanged |
| MarisLegacy.StationsAreStrings | marisco/handlers/maris_legacy.py:126 | every station is a string, the empty one exactly where it was missing or empty (given that the cell, when a number or a time, does not render empty) |
| MarisLegacy.CastStationToStringCB | marisco/handlers/maris_legacy.py:121-126 | every group is cast |
| MarisLegacy.IsMarisNAExact | marisco/handlers/maris_legacy.py:132-133 | a column is `isMarisNA` exactly when the table has rows and every cell of the column equals the non-missing `na` |
| MarisLegacy.MarisNAUnchanged | marisco/handlers/maris_legacy.py:132-137 | dropping other columns does not change whether a column is `isMarisNA` |
| MarisLegacy.DropNATable | marisco/handlers/maris_legacy.py:135-142 | a column survives exactly when it is not all-missing and not `isMarisNA`; rows and cells are untouched |
| MarisLegacy.DropNAKeeps | marisco/handlers/maris_legacy.py:132-142 | a column survives exactly when there are rows, some cell has a value and some cell differs from `na_value`; a column mixing `na_value` with missing cells is kept |
| MarisLegacy.DropNAColumnsCB | marisco/handlers/maris_legacy.py:129-142 | every group has its NA columns dropped |
| MarisLegacy.DetectionLimitTable | marisco/handlers/maris_legacy.py:161 | a DL name found in the lookup becomes its id, and an unknown name is kept; other cells are unchanged |
| MarisLegacy.DetectionLimitsKnown | marisco/handlers/maris_legacy.py:161 | every DL cell afterwards is an id of the lookup, or an unchanged cell that is not a lookup name |
| MarisLegacy.SanitizeDetectionLimitCB | marisco/handlers/maris_legacy.py:151-161 | every group (each must have the DL column) has its names replaced |

## Left out

- Reading files and spreadsheets is left out: `load_data`, `pd.read_csv`, `read_excel`, and the lookup loaders `lut_nuclides`, `lut_biota`, `lut_taxon`, `lut_sediments`, `lut_dl`, `lut_method` and `dl_name_to_id`. Their results are parameters. `DataLoader.__init__` takes the dump already read.
- How lookup tables are built is left out. This covers `Remapper`, `get_unique_across_dfs` and the `fn_lut` arguments. The lookup reaches each callback as a map.
- Console output is left out: the `print` diagnostics, `verbose`, `_print_unmatched_sedi`, the unmatched-species message and `tqdm`.
- HelcomRemap.RemapTaxonInformationCB: the unmatched-species message (helcom.py:306-308) joins the species values with `', '.join`. That raises `TypeError` when they are numeric ids, as `RemapCB` writes them in the `encode` pipeline (helcom.py:810). The model leaves the message out and always completes, so it does not capture that failure. For `SelectAndRenameColumnCB`, the keys that verbose mode prints are returned as a map instead.
- `Transformer` is modelled only as the holder of `dfs` and `logs`; its own code is not part of this model.
- Library conversions are parameters, because they live in pandas or in marisco/utils:
  - the `DATE` format `'%m/%d/%y %H:%M:%S'`;
  - `ddmm_to_dd` (`fn_convert_cor`);
  - pandas' text rendering in `astype('string')`.
- Date assembly checks only that the integral YEAR, MONTH and DAY name a Gregorian day. The `%Y%m%d` packing and the Timestamp range limits are not modelled.
- pandas' NaN-aware comparisons are simplified:
  - `==` with a missing cell is false.
  - `groupby` puts no row with a missing key in a group.
  - A lookup keyed by cells may have `Missing` as a key, and `DetectionLimit` then matches a missing label, as `isin(lut.keys())` does.
  - The legacy exclusion list holds integers, so a missing `ref_id` is never in it.
  - `unique()` counts missing as one value.
- Float semantics: uncertainties and coordinates are exact `real` arithmetic, not IEEE doubles.
- Text is only partly modelled:
  - Case folding in the coordinate regular expressions covers ASCII letters only. That is exact for the pattern letters used.
  - Strings are sequences of characters.
- HelcomRules.ApplyRenaming: the model requires distinct output labels. pandas accepts duplicate column labels, but a row map cannot hold the same label twice. As written, any column kept because it already bears a target name duplicates a renamed label: every such column causes a duplicate. `PreexistingTargetsCollide` and `TailBreaksDistinct` prove this. So the model of the selection is the case in which no such column exists. That case is `DistinctOutCols`. It excludes every OpenRefine group after `ParseTimeCB`, which holds both `time` and `begperiod` (`BegperiodTwice`, and "Findings"). For those groups the model states the output labels (`MeasurementNoteLabelLost`, `MeasureNoteLabelKept`) and the corrected selection (`ApplyRenamingCorrected`).
- HelcomRules.SelectAndRenameColumnCB: for the reason above, each group's output labels must come out distinct, and the rules must be dicts (no key twice).
- HelcomMeasures.UncRel2Stan: a text or time operand gives a missing result. Python's `row[unc] * row[meas] / 100` raises `TypeError` there. The value and error columns hold numbers or NaN in the provider's data.
- HelcomMeasures.NormalizeUncCB: only the default converter `unc_rel2stan` is modelled, not an arbitrary `fn_convert_unc`.
- HelcomRules.RenamingRules: the NetCDF variable names from `cdl_cfg()` are a parameter (`NcNames`).
- Metadata and output encoding are not part of this core and are left out: `get_attrs`, `enums_xtra`, `encode` in both files, `NetCDFEncoder`, and the Zotero metadata.
- The legacy `ParseTimeCB` (maris_legacy.py:164-172) is left out. It is a single ISO 8601 parse by pandas, which would be only a parameter here.
- The module-level `cois_renaming_rules` dict (maris_legacy.py:92-118) is left out. It is data used by callbacks that are not part of this model.
- MarisLegacy.ZoteroKey and MarisLegacy.FileName take "the first group" as the first entry in dict insertion order. The model requires that this group exists and has a row, because the source raises otherwise. FileName also requires that group's `ref_id` to be integral, as in an `int64` column.

## Findings

| source | as written | input that shows it | evidently intended | confidence | as-written member | corrected member |
|---|---|---|---|---|---|---|
| marisco/handlers/helcom.py:491 | `AddMeasurementNoteCB` writes the column `measurementnote`, but the OpenRefine rules select `measurenote` (helcom.py:606) | any group with a METHOD column, later renamed for the `openrefine` encoding: the note column is dropped | the note is written to `measurenote`, so it reaches the OpenRefine output | not executed | HelcomNotes.MeasurementNoteLabelLost | HelcomNotes.MeasureNoteLabelKept |
| marisco/handlers/helcom.py:389 | the biota branch of `RemapUnitCB` reads the module-level `lut_units`, not `self.lut_units` | a callback built with `lut_units` whose biota entry maps 'D' to 7: dry biota rows still get unit 4 | the biota branch uses the callback's own table, like the other branches | not executed | HelcomRemap.UnitTableIgnoresOwnBiotaEntry | HelcomRemap.UnitTableCorrected |
| marisco/handlers/helcom.py:739 | `_apply_renaming` also keeps every existing column that bears an applied rule's target. The OpenRefine rules rename `time` to `begperiod` (helcom.py:588), and `ParseTimeCB` has already written `begperiod` (helcom.py:191) | a group after `ParseTimeCB`, selected with the `openrefine` rules: the output has two `begperiod` columns (the file's own `encode` pipeline selects with `netcdf`, where this does not arise) | only the existing rule keys are kept, so `begperiod` appears once and holds the parsed time | not executed | HelcomBegperiod.BegperiodTwice | HelcomBegperiod.BegperiodOnceCorrected |
