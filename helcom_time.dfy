/** HELCOM `ParseTimeCB` (marisco/handlers/helcom.py:155-191): repairs the
    DAY and MONTH fields, parses DATE and falls back to YEAR/MONTH/DAY. */
module HelcomTime {
  import opened Values
  import opened Tables
  import opened Pipeline

  /** `pd.to_datetime(df['DATE'], format='%m/%d/%y %H:%M:%S', errors='coerce')`
      on one cell. The format parser itself is library behaviour and is the
      parameter `parse`; a missing cell parses to NaT. */
  function ParseDate(parse: Value -> Option<Stamp>, v: Value): Value
  {
    if v.Missing? then Missing
    else match parse(v)
      case Some(s) => Time(s)
      case None => Missing
  }

  /** `_handle_missing_dates` on one row: a zero DAY or MONTH becomes 1, and
      when both are missing while YEAR is present both become 1. */
  function RepairDayMonth(r: Row): (out: Row)
    ensures out.Keys == r.Keys + {"DAY", "MONTH"}
    ensures forall c :: c in r && c != "DAY" && c != "MONTH" ==> out[c] == r[c]
    // no zero day or month is left
    ensures !IsZero(out["DAY"]) && !IsZero(out["MONTH"])
    ensures IsZero(Cell(r, "DAY")) ==> out["DAY"] == Num(1.0)
    ensures IsZero(Cell(r, "MONTH")) ==> out["MONTH"] == Num(1.0)
    // a year with neither day nor month becomes the first of January
    ensures Cell(r, "DAY").Missing? && Cell(r, "MONTH").Missing? && !Cell(r, "YEAR").Missing? ==>
              out["DAY"] == Num(1.0) && out["MONTH"] == Num(1.0)
    // otherwise a missing day or month stays missing
    ensures Cell(r, "DAY").Missing? && (!Cell(r, "MONTH").Missing? || Cell(r, "YEAR").Missing?) ==>
              out["DAY"] == Missing
    ensures Cell(r, "MONTH").Missing? && (!Cell(r, "DAY").Missing? || Cell(r, "YEAR").Missing?) ==>
              out["MONTH"] == Missing
    // any other day or month is kept
    ensures !IsZero(Cell(r, "DAY")) && !Cell(r, "DAY").Missing? ==> out["DAY"] == r["DAY"]
    ensures !IsZero(Cell(r, "MONTH")) && !Cell(r, "MONTH").Missing? ==> out["MONTH"] == r["MONTH"]
  {
    var day := Cell(r, "DAY");
    var month := Cell(r, "MONTH");
    var day1 := if IsZero(day) then Num(1.0) else day;
    var month1 := if IsZero(month) then Num(1.0) else month;
    if day1.Missing? && month1.Missing? && !Cell(r, "YEAR").Missing? then
      r["DAY" := Num(1.0)]["MONTH" := Num(1.0)]
    else
      r["DAY" := day1]["MONTH" := month1]
  }

  /** `_process_dates` on a row whose DAY and MONTH are already repaired:
      the parsed DATE, or else the day assembled from YEAR, MONTH and DAY. */
  function TimeOf(parse: Value -> Option<Stamp>, r: Row): (v: Value)
    ensures v.Missing? || v.Time?
    ensures ParseDate(parse, Cell(r, "DATE")).Time? ==> v == ParseDate(parse, Cell(r, "DATE"))
    ensures v.Missing? <==>
              ParseDate(parse, Cell(r, "DATE")).Missing? && AssembleDate(Cell(r, "YEAR"), Cell(r, "MONTH"), Cell(r, "DAY")).None?
  {
    var parsed := ParseDate(parse, Cell(r, "DATE"));
    if !parsed.Missing? then parsed
    else match AssembleDate(Cell(r, "YEAR"), Cell(r, "MONTH"), Cell(r, "DAY"))
      case Some(s) => Time(s)
      case None => Missing
  }

  /** `_handle_missing_dates`, `_process_dates` and `_define_beg_period` on one row. */
  function ParseTimeRow(parse: Value -> Option<Stamp>, r: Row): (out: Row)
    ensures out.Keys == r.Keys + {"DAY", "MONTH", "time", "begperiod"}
    ensures forall c :: c in r && c !in {"DAY", "MONTH", "time", "begperiod"} ==> out[c] == r[c]
    ensures out["DAY"] == RepairDayMonth(r)["DAY"] && out["MONTH"] == RepairDayMonth(r)["MONTH"]
    ensures out["begperiod"] == out["time"]
    // the parsed DATE wins whenever it parses
    ensures !ParseDate(parse, Cell(r, "DATE")).Missing? ==> out["time"] == ParseDate(parse, Cell(r, "DATE"))
    // otherwise the day assembled from the repaired fields, or NaT
    ensures ParseDate(parse, Cell(r, "DATE")).Missing? ==>
              out["time"] == match AssembleDate(Cell(r, "YEAR"), out["MONTH"], out["DAY"])
                             case Some(s) => Time(s)
                             case None => Missing
  {
    var fixed := RepairDayMonth(r);
    assert Cell(fixed, "YEAR") == Cell(r, "YEAR") && Cell(fixed, "DATE") == Cell(r, "DATE");
    var time := TimeOf(parse, fixed);
    fixed["time" := time]["begperiod" := time]
  }

  /** The fallback on a row with a year only, or with zero day and month,
      gives midnight of the first of January of that year. */
  lemma YearOnlyIsFirstOfJanuary(parse: Value -> Option<Stamp>, r: Row, y: int)
    requires ParseDate(parse, Cell(r, "DATE")).Missing?
    requires Cell(r, "YEAR") == Num(y as real)
    requires (Cell(r, "DAY").Missing? && Cell(r, "MONTH").Missing?) ||
             (IsZero(Cell(r, "DAY")) && IsZero(Cell(r, "MONTH")))
    ensures ParseTimeRow(parse, r)["time"] == Time(Stamp(y, 1, 1, 0, 0, 0))
  {
    var out := ParseTimeRow(parse, r);
    assert out["DAY"] == Num(1.0) && out["MONTH"] == Num(1.0);
    AssembleDateSpec(y, 1, 1);
  }

  /** A time that is not NaT is either the parsed DATE or a valid day of the
      repaired YEAR, MONTH and DAY; NaT means both failed. */
  lemma TimeComesFromDateOrFields(parse: Value -> Option<Stamp>, r: Row)
    ensures var out := ParseTimeRow(parse, r);
            var parsed := ParseDate(parse, Cell(r, "DATE"));
            (out["time"].Missing? <==>
               parsed.Missing? && AssembleDate(Cell(r, "YEAR"), out["MONTH"], out["DAY"]).None?)
            && (out["time"].Time? && parsed.Missing? ==>
                  var s := out["time"].t;
                  IsValidDate(s.year, s.month, s.day) && Cell(r, "YEAR") == Num(s.year as real)
                  && out["MONTH"] == Num(s.month as real) && out["DAY"] == Num(s.day as real))
  {
    var out := ParseTimeRow(parse, r);
    AssembleDateNeedsAllParts(Cell(r, "YEAR"), out["MONTH"], out["DAY"]);
  }

  const DateColumns: seq<string> := ["DATE", "DAY", "MONTH", "YEAR"]

  /** `_handle_missing_dates` on a table. */
  function RepairDates(t: Table): (r: Table)
    requires Valid(t) && "DAY" in t.cols && "MONTH" in t.cols
    ensures Valid(r) && r.cols == t.cols && |r.rows| == |t.rows|
    ensures forall i :: 0 <= i < |t.rows| ==> r.rows[i] == RepairDayMonth(t.rows[i])
  {
    MapRows(t, t.cols, RepairDayMonth)
  }

  /** `ParseTimeCB` on one table: the date repair, then `time`, then
      `begperiod`, each a whole-column step as in the source. */
  function ParseTimeTable(t: Table, parse: Value -> Option<Stamp>): (r: Table)
    requires Valid(t) && HasColumns(t, DateColumns)
    ensures Valid(r) && r.cols == AddColumn(AddColumn(t.cols, "time"), "begperiod")
    ensures |r.rows| == |t.rows|
  {
    var fixed := RepairDates(t);
    var timed := SetColumn(fixed, "time", row => TimeOf(parse, row));
    SetColumn(timed, "begperiod", row => Cell(row, "time"))
  }

  /** Row by row, the table steps compute `ParseTimeRow`. */
  lemma ParseTimeTableRows(t: Table, parse: Value -> Option<Stamp>, i: nat)
    requires Valid(t) && HasColumns(t, DateColumns) && i < |t.rows|
    ensures ParseTimeTable(t, parse).rows[i] == ParseTimeRow(parse, t.rows[i])
  {
    var fixed := RepairDates(t);
    var timed := SetColumn(fixed, "time", row => TimeOf(parse, row));
    assert fixed.rows[i] == RepairDayMonth(t.rows[i]);
    assert timed.rows[i] == fixed.rows[i]["time" := TimeOf(parse, fixed.rows[i])];
  }

  function ParseTimeAll(dfs: map<string, Table>, parse: Value -> Option<Stamp>): (r: map<string, Table>)
    requires forall g :: g in dfs ==> Valid(dfs[g]) && HasColumns(dfs[g], DateColumns)
    ensures r.Keys == dfs.Keys
    ensures forall g :: g in r ==> Valid(r[g])
  {
    MapGroupsSpec(dfs, ParseTimeOf(parse))
  }

  function ParseTimeOf(parse: Value -> Option<Stamp>): (string, Table) --> Table
  {
    (g: string, t: Table) requires Valid(t) && HasColumns(t, DateColumns) => ParseTimeTable(t, parse)
  }

  /** `ParseTimeCB.__call__`: every group gets its dates repaired and its
      `time` and `begperiod` columns. */
  method ParseTimeCB(tfm: Transformer, parse: Value -> Option<Stamp>)
    requires tfm.Valid()
    requires forall g :: g in tfm.dfs ==> HasColumns(tfm.dfs[g], DateColumns)
    modifies tfm`dfs
    ensures tfm.Valid()
    ensures tfm.dfs == ParseTimeAll(old(tfm.dfs), parse)
  {
    MapGroups(tfm, ParseTimeOf(parse));
  }
}
