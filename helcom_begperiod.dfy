/** What the OpenRefine selection of `SelectAndRenameColumnCB`
    (marisco/handlers/helcom.py:727-748) makes of the two time columns that
    `ParseTimeCB` leaves in every group (helcom.py:190-191). */
module HelcomBegperiod {
  import opened Values
  import opened Tables
  import opened HelcomRules
  import opened HelcomTime
  import opened HelcomNotes

  /** As written: after `ParseTimeCB`, the OpenRefine selection of every
      sample type outputs `begperiod` twice, once for the renamed `time` and
      once for the existing `begperiod` column, so the selected table has
      a duplicated label. */
  lemma BegperiodTwice(v: NcNames, t: Table, parse: Value -> Option<Stamp>, g: string)
    requires Valid(t) && HasColumns(t, DateColumns) && (g == "seawater" || g == "biota" || g == "sediment")
    ensures var rules := GroupRulesOf(RenamingRules(v, "openrefine").value, g);
            var parsed := ParseTimeTable(t, parse);
            var out := OutCols(rules, parsed.cols);
            && (exists a, b :: 0 <= a < b < |out| && out[a] == "begperiod" && out[b] == "begperiod")
            && !RenameOk(parsed, rules)
  {
    var rr := RenamingRules(v, "openrefine").value;
    var j := OpenRefineGroupRules(v, g);
    OpenRefineTimeRule(v, j);
    var cols := ParseTimeTable(t, parse).cols;
    assert "time" in ColSet(cols) && "begperiod" in ColSet(cols);
    PreexistingTargetTwice(rr[j].rules, cols, "time", "begperiod");
  }

  /** Corrected: with the existing rule keys only, the OpenRefine rules of
      every sample type apply to the parsed table, and `begperiod` is
      output once, holding each row's parsed `time`. */
  lemma BegperiodOnceCorrected(v: NcNames, t: Table, parse: Value -> Option<Stamp>, g: string)
    requires Valid(t) && HasColumns(t, DateColumns) && (g == "seawater" || g == "biota" || g == "sediment")
    ensures var rules := GroupRulesOf(RenamingRules(v, "openrefine").value, g);
            && Distinct(TargetsOf(rules))
            && var parsed := ParseTimeTable(t, parse);
               var r := SelectRenameCorrected(parsed, rules);
               && Distinct(r.cols) && "begperiod" in r.cols && |r.rows| == |t.rows|
               && forall i :: 0 <= i < |t.rows| ==> r.rows[i]["begperiod"] == parsed.rows[i]["time"]
  {
    var rr := RenamingRules(v, "openrefine").value;
    var j := OpenRefineGroupRules(v, g);
    OpenRefineTargetsDistinct(v, j);
    OpenRefineTimeRule(v, j);
    var parsed := ParseTimeTable(t, parse);
    assert "time" in ColSet(parsed.cols);
    var a := AppliedTargetOutput(rr[j].rules, parsed.cols, "time", "begperiod");
  }
}
