/** How the measurement note written by `AddMeasurementNoteCB`
    (marisco/handlers/helcom.py:480-491) fares in the OpenRefine column
    selection of `SelectAndRenameColumnCB` (helcom.py:579-748). */
module HelcomNotes {
  import opened Values
  import opened Tables
  import opened HelcomRemap
  import opened HelcomRules

  /** The merged OpenRefine rules of the three sample types are dicts with
      at least one entry. */
  lemma OpenRefineGroupRules(v: NcNames, g: string) returns (j: nat)
    requires g == "seawater" || g == "biota" || g == "sediment"
    ensures var rr := RenamingRules(v, "openrefine").value;
            && j < 3 && GroupRulesOf(rr, g) == rr[j].rules
            && AllDistinct(rr) && GroupRulesOf(rr, g) != []
  {
    var rr := RenamingRules(v, "openrefine").value;
    RenamingRulesStandard(v, "openrefine");
    j := StandardGroupRules(rr, g);
    OpenRefineKeepsMeasureNote(v, j);
  }

  /** As written, the note goes to `measurementnote`, a label no OpenRefine
      rule produces: the columns the selection outputs for each sample type
      never include it, whatever else the table holds. */
  lemma MeasurementNoteLabelLost(v: NcNames, lut: map<Value, Value>, t: Table, g: string)
    requires Valid(t) && HasColumn(t, "METHOD") && (g == "seawater" || g == "biota" || g == "sediment")
    ensures var noted := MeasurementNoteTable(t, lut, "measurementnote");
            var rules := GroupRulesOf(RenamingRules(v, "openrefine").value, g);
            && rules != []
            && "measurementnote" in noted.cols
            && "measurementnote" !in OutCols(rules, noted.cols)
  {
    var j := OpenRefineGroupRules(v, g);
    OpenRefineNeverTargetsMeasurementNote(v);
    UntargetedNotOutput(RenamingRules(v, "openrefine").value, g,
                        MeasurementNoteTable(t, lut, "measurementnote").cols, "measurementnote");
  }

  /** The same on the selected table, for a table whose output labels come
      out distinct. */
  lemma MeasurementNoteLost(v: NcNames, lut: map<Value, Value>, t: Table, g: string)
    requires Valid(t) && HasColumn(t, "METHOD")
    requires var rules := GroupRulesOf(RenamingRules(v, "openrefine").value, g);
             rules != [] && RenameOk(MeasurementNoteTable(t, lut, "measurementnote"), rules)
    ensures var noted := MeasurementNoteTable(t, lut, "measurementnote");
            var rules := GroupRulesOf(RenamingRules(v, "openrefine").value, g);
            "measurementnote" in noted.cols && "measurementnote" !in SelectRenameTable(noted, rules).cols
  {
    OpenRefineNeverTargetsMeasurementNote(v);
    UntargetedColumnDropped(RenamingRules(v, "openrefine").value, g,
                            MeasurementNoteTable(t, lut, "measurementnote"), "measurementnote");
  }

  /** Every sample type's OpenRefine rules map `measurenote` to itself. */
  lemma MeasureNoteRule(v: NcNames, g: string)
    requires g == "seawater" || g == "biota" || g == "sediment"
    ensures Lookup(GroupRulesOf(RenamingRules(v, "openrefine").value, g), "measurenote") == Some("measurenote")
  {
    var j := OpenRefineGroupRules(v, g);
    OpenRefineKeepsMeasureNote(v, j);
  }

  /** Written to `measurenote`, as the callback's own description says, the
      note is among the columns the OpenRefine selection outputs for every
      sample type, whatever else the table holds. */
  lemma MeasureNoteLabelKept(v: NcNames, lut: map<Value, Value>, t: Table, g: string)
    requires Valid(t) && HasColumn(t, "METHOD") && (g == "seawater" || g == "biota" || g == "sediment")
    ensures var noted := MeasurementNoteTable(t, lut, "measurenote");
            var rules := GroupRulesOf(RenamingRules(v, "openrefine").value, g);
            "measurenote" in OutCols(rules, noted.cols)
  {
    var noted := MeasurementNoteTable(t, lut, "measurenote");
    var j := OpenRefineGroupRules(v, g);
    MeasureNoteRule(v, g);
    IdentityRuleOutput(GroupRulesOf(RenamingRules(v, "openrefine").value, g), noted.cols, "measurenote");
  }

  /** With distinct output labels, the note survives the selection with the
      looked-up description of each row's method. */
  lemma MeasureNoteKept(v: NcNames, lut: map<Value, Value>, t: Table, g: string)
    requires Valid(t) && HasColumn(t, "METHOD") && (g == "seawater" || g == "biota" || g == "sediment")
    requires RenameOk(MeasurementNoteTable(t, lut, "measurenote"), GroupRulesOf(RenamingRules(v, "openrefine").value, g))
    ensures var noted := MeasurementNoteTable(t, lut, "measurenote");
            var r := SelectRenameTable(noted, GroupRulesOf(RenamingRules(v, "openrefine").value, g));
            && "measurenote" in r.cols && |r.rows| == |t.rows|
            && forall i :: 0 <= i < |t.rows| ==>
                 r.rows[i]["measurenote"] == (if t.rows[i]["METHOD"] in lut then lut[t.rows[i]["METHOD"]] else Num(0.0))
  {
    var rules := GroupRulesOf(RenamingRules(v, "openrefine").value, g);
    MeasureNoteRule(v, g);
    IdentityRuleKeepsColumn(MeasurementNoteTable(t, lut, "measurenote"), rules, "measurenote");
  }

  /** With the corrected selection, which needs no distinct labels, the
      note survives for every sample type with each row's description. */
  lemma MeasureNoteKeptCorrected(v: NcNames, lut: map<Value, Value>, t: Table, g: string)
    requires Valid(t) && HasColumn(t, "METHOD") && (g == "seawater" || g == "biota" || g == "sediment")
    ensures var rules := GroupRulesOf(RenamingRules(v, "openrefine").value, g);
            && Distinct(TargetsOf(rules))
            && var r := SelectRenameCorrected(MeasurementNoteTable(t, lut, "measurenote"), rules);
               && "measurenote" in r.cols && |r.rows| == |t.rows|
               && forall i :: 0 <= i < |t.rows| ==>
                    r.rows[i]["measurenote"] == (if t.rows[i]["METHOD"] in lut then lut[t.rows[i]["METHOD"]] else Num(0.0))
  {
    var rules := GroupRulesOf(RenamingRules(v, "openrefine").value, g);
    var noted := MeasurementNoteTable(t, lut, "measurenote");
    var j := OpenRefineGroupRules(v, g);
    OpenRefineTargetsDistinct(v, j);
    MeasureNoteRule(v, g);
    IdentityRuleKeepsColumnCorrected(noted, rules, "measurenote");
  }
}
