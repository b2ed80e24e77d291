/** HELCOM vocabulary remapping callbacks (marisco/handlers/helcom.py:141-152,
    291-491): nuclide names, taxon information, sediment types, units,
    detection limits, filtering codes and measurement notes. The lookup
    tables are produced elsewhere (`Remapper`, spreadsheet readers) and are
    parameters here. */
module HelcomRemap {
  import opened Values
  import opened Tables
  import opened Pipeline

  /** The part of a `Remapper` match that the callbacks read. */
  datatype Match = Match(matchedId: int, matchedMarisName: string)

  // ---------------------------------------------------------------------------
  // RemapNuclideNameCB

  /** `{k: v.matched_maris_name for k, v in lut.items()}` */
  function NuclideNames(lut: map<Value, Match>): map<Value, Value>
  {
    map k | k in lut :: Str(lut[k].matchedMarisName)
  }

  /** `df['NUCLIDE'] = df['NUCLIDE'].replace(lut)`: a provider name found in
      the lookup becomes its MARIS name, any other cell is kept. */
  function RemapNuclideNameTable(t: Table, lut: map<Value, Match>): (r: Table)
    requires Valid(t) && HasColumn(t, "NUCLIDE")
    ensures Valid(r) && r.cols == t.cols && |r.rows| == |t.rows|
    ensures forall i :: 0 <= i < |t.rows| ==>
              var v := t.rows[i]["NUCLIDE"];
              r.rows[i]["NUCLIDE"] == (if v in lut then Str(lut[v].matchedMarisName) else v)
    ensures forall i, c :: 0 <= i < |t.rows| && c in t.rows[i] && c != "NUCLIDE" ==>
              r.rows[i][c] == t.rows[i][c]
  {
    var names := NuclideNames(lut);
    SetColumn(t, "NUCLIDE", row => Replace(Cell(row, "NUCLIDE"), names))
  }

  function RemapNuclideNameAll(dfs: map<string, Table>, lut: map<Value, Match>): (r: map<string, Table>)
    requires forall g :: g in dfs ==> Valid(dfs[g]) && HasColumn(dfs[g], "NUCLIDE")
    ensures r.Keys == dfs.Keys && forall g :: g in r ==> Valid(r[g])
  {
    MapGroupsSpec(dfs, RemapNuclideNameOf(lut))
  }

  function RemapNuclideNameOf(lut: map<Value, Match>): (string, Table) --> Table
  {
    (g: string, t: Table) requires Valid(t) && HasColumn(t, "NUCLIDE") => RemapNuclideNameTable(t, lut)
  }

  /** `RemapNuclideNameCB.__call__`, with `lut` the result of `fn_lut` on the
      distinct nuclide names of all groups. */
  method RemapNuclideNameCB(tfm: Transformer, lut: map<Value, Match>)
    requires tfm.Valid()
    requires forall g :: g in tfm.dfs ==> HasColumn(tfm.dfs[g], "NUCLIDE")
    modifies tfm`dfs
    ensures tfm.Valid()
    ensures tfm.dfs == RemapNuclideNameAll(old(tfm.dfs), lut)
  {
    MapGroups(tfm, RemapNuclideNameOf(lut));
  }

  // ---------------------------------------------------------------------------
  // RemapTaxonInformationCB

  const TaxonColumns: seq<string> := ["Taxonname", "Taxonrank", "TaxonDB", "TaxonDBID", "TaxonDBURL"]

  /** `df['species'].map(lut[col]).fillna('Unknown')` on one cell. */
  function TaxonField(lutCol: map<Value, Value>, species: Value): (r: Value)
    ensures !r.Missing?
    ensures species in lutCol && !lutCol[species].Missing? ==> r == lutCol[species]
    ensures species !in lutCol || lutCol[species].Missing? ==> r == Str("Unknown")
  {
    if species in lutCol && !lutCol[species].Missing? then lutCol[species] else Str("Unknown")
  }

  /** `df['TaxonRepName'] = df.get('RUBIN', 'Unknown')` */
  function WithTaxonRepName(t: Table): (r: Table)
    requires Valid(t)
    ensures Valid(r) && r.cols == AddColumn(t.cols, "TaxonRepName")
  {
    var hasRubin := HasColumn(t, "RUBIN");
    SetColumn(t, "TaxonRepName", row => if hasRubin then Cell(row, "RUBIN") else Str("Unknown"))
  }

  function WithTaxonField(t: Table, lut: map<string, map<Value, Value>>, col: string): (r: Table)
    requires Valid(t) && col in lut
    ensures Valid(r) && r.cols == AddColumn(t.cols, col)
  {
    SetColumn(t, col, row => TaxonField(lut[col], Cell(row, "species")))
  }

  /** Every label of `cols` has a lookup table. */
  predicate InLut(cols: seq<string>, lut: map<string, map<Value, Value>>)
  {
    forall k :: 0 <= k < |cols| ==> cols[k] in lut
  }

  /** The taxon columns `cols[k..]` filled in, in order. */
  function WithTaxonFields(t: Table, lut: map<string, map<Value, Value>>, cols: seq<string>, k: nat): (r: Table)
    requires Valid(t) && InLut(cols, lut)
    ensures Valid(r) && |r.rows| == |t.rows|
    ensures forall c :: c in t.cols ==> c in r.cols
    decreases |cols| - k
  {
    if k >= |cols| then t
    else WithTaxonFields(WithTaxonField(t, lut, cols[k]), lut, cols, k + 1)
  }

  /** The biota table after `RemapTaxonInformationCB`, for the taxon
      columns `cols` (the source's are `TaxonColumns`). */
  function RemapTaxonTable(t: Table, lut: map<string, map<Value, Value>>, cols: seq<string>): (r: Table)
    requires Valid(t) && InLut(cols, lut)
    ensures Valid(r) && |r.rows| == |t.rows|
    ensures "TaxonRepName" in r.cols
  {
    WithTaxonFields(WithTaxonRepName(t), lut, cols, 0)
  }

  /** The fold of `WithTaxonFields` on a single row. */
  function FillRow(lut: map<string, map<Value, Value>>, cols: seq<string>, k: nat, row: Row): Row
    requires InLut(cols, lut)
    decreases |cols| - k
  {
    if k >= |cols| then row
    else FillRow(lut, cols, k + 1, row[cols[k] := TaxonField(lut[cols[k]], Cell(row, "species"))])
  }

  /** Filling the columns of a table fills each of its rows. */
  lemma {:induction false} WithTaxonFieldsByRow(t: Table, lut: map<string, map<Value, Value>>, cols: seq<string>, k: nat, i: nat)
    requires Valid(t) && InLut(cols, lut) && i < |t.rows|
    ensures WithTaxonFields(t, lut, cols, k).rows[i] == FillRow(lut, cols, k, t.rows[i])
    decreases |cols| - k
  {
    if k < |cols| {
      var t1 := WithTaxonField(t, lut, cols[k]);
      assert t1.rows[i] == t.rows[i][cols[k] := TaxonField(lut[cols[k]], Cell(t.rows[i], "species"))];
      WithTaxonFieldsByRow(t1, lut, cols, k + 1, i);
    }
  }

  /** Filling `cols[k..]` (none of them `species`) into a row sets each of
      those fields from the row's `species`, and changes no other cell. */
  lemma {:induction false} FillRowFields(lut: map<string, map<Value, Value>>, cols: seq<string>, k: nat, row: Row)
    requires InLut(cols, lut) && "species" !in cols && k <= |cols|
    ensures var out := FillRow(lut, cols, k, row);
            && row.Keys <= out.Keys <= row.Keys + ColSet(cols)
            && (forall j :: k <= j < |cols| ==> cols[j] in out && out[cols[j]] == TaxonField(lut[cols[j]], Cell(row, "species")))
            && (forall c :: c in row && c !in cols[k..] ==> out[c] == row[c])
    decreases |cols| - k
  {
    if k < |cols| {
      var col := cols[k];
      var v := TaxonField(lut[col], Cell(row, "species"));
      var row1 := row[col := v];
      assert Cell(row1, "species") == Cell(row, "species");
      FillRowFields(lut, cols, k + 1, row1);
      var out := FillRow(lut, cols, k, row);
      assert out == FillRow(lut, cols, k + 1, row1);
      assert cols[k..] == [col] + cols[k + 1..];
      if col !in cols[k + 1..] {
        assert out[col] == row1[col];
      } else {
        var j :| 0 <= j < |cols[k + 1..]| && cols[k + 1..][j] == col;
        assert cols[k + 1 + j] == col;
      }
    }
  }

  /** After `RemapTaxonInformationCB` every biota row carries `TaxonRepName`
      (its RUBIN code, or 'Unknown' when the table has none) and the taxon
      fields looked up from its species id, never missing; no other cell
      changes. The source's columns meet the requirement on `cols`
      (`TaxonColumnsOk`). */
  lemma RemapTaxonRows(t: Table, lut: map<string, map<Value, Value>>, cols: seq<string>, i: nat)
    requires Valid(t) && InLut(cols, lut) && i < |t.rows|
    requires "species" !in cols && "TaxonRepName" !in cols
    ensures var r := RemapTaxonTable(t, lut, cols);
            && |r.rows| == |t.rows|
            && "TaxonRepName" in r.rows[i]
            && r.rows[i]["TaxonRepName"] == (if HasColumn(t, "RUBIN") then t.rows[i]["RUBIN"] else Str("Unknown"))
            && (forall k :: 0 <= k < |cols| ==>
                  var c := cols[k];
                  c in r.rows[i] && r.rows[i][c] == TaxonField(lut[c], Cell(t.rows[i], "species")) && !r.rows[i][c].Missing?)
            && (forall c :: c in t.rows[i] && c != "TaxonRepName" && c !in cols ==>
                  c in r.rows[i] && r.rows[i][c] == t.rows[i][c])
  {
    var t1 := WithTaxonRepName(t);
    var ti := t.rows[i];
    var t1i := t1.rows[i];
    assert t1i == ti["TaxonRepName" := if HasColumn(t, "RUBIN") then Cell(ti, "RUBIN") else Str("Unknown")];
    assert Cell(t1i, "species") == Cell(ti, "species");
    WithTaxonFieldsByRow(t1, lut, cols, 0, i);
    FillRowFields(lut, cols, 0, t1i);
  }

  lemma TaxonColumnsOk()
    ensures "species" !in TaxonColumns && "TaxonRepName" !in TaxonColumns
  {
  }

  /** `RemapTaxonInformationCB.__call__` for a given list of taxon columns:
      `TaxonRepName` first, then the loop `for col in taxon_columns`. */
  method RemapTaxonColumns(tfm: Transformer, lut: map<string, map<Value, Value>>, cols: seq<string>)
    requires tfm.Valid() && "biota" in tfm.dfs && HasColumn(tfm.dfs["biota"], "species")
    requires InLut(cols, lut)
    modifies tfm`dfs
    ensures tfm.Valid()
    ensures tfm.dfs == old(tfm.dfs)["biota" := RemapTaxonTable(old(tfm.dfs)["biota"], lut, cols)]
  {
    var df := WithTaxonRepName(tfm.dfs["biota"]);
    ghost var df1 := df;
    var k := 0;
    while k < |cols|
      invariant 0 <= k <= |cols| && Valid(df)
      invariant WithTaxonFields(df, lut, cols, k) == WithTaxonFields(df1, lut, cols, 0)
    {
      df := WithTaxonField(df, lut, cols[k]);
      k := k + 1;
    }
    tfm.dfs := tfm.dfs["biota" := df];
  }

  /** `RemapTaxonInformationCB.__call__`: only the biota table changes; the
      source indexes `tfm.dfs['biota']` and `df['species']` directly. */
  method RemapTaxonInformationCB(tfm: Transformer, lut: map<string, map<Value, Value>>)
    requires tfm.Valid() && "biota" in tfm.dfs && HasColumn(tfm.dfs["biota"], "species")
    requires InLut(TaxonColumns, lut)
    modifies tfm`dfs
    ensures tfm.Valid()
    ensures tfm.dfs == old(tfm.dfs)["biota" := RemapTaxonTable(old(tfm.dfs)["biota"], lut, TaxonColumns)]
  {
    RemapTaxonColumns(tfm, lut, TaxonColumns);
  }

  // ---------------------------------------------------------------------------
  // RemapSedimentCB

  /** `_fix_inconsistent_sedi`: the codes 56 and 73, and a missing code,
      become the no-data code -99. */
  function FixSedi(v: Value): (r: Value)
    ensures r != Num(56.0) && r != Num(73.0) && !r.Missing?
    ensures v != Num(56.0) && v != Num(73.0) && !v.Missing? ==> r == v
  {
    if v == Num(56.0) || v == Num(73.0) || v.Missing? then Num(-99.0) else v
  }

  /** `_get_sediment_type`: the matched id, or -1 when the code is unknown. */
  function SedimentType(lut: map<Value, Match>, v: Value): (id: int)
    ensures v in lut ==> id == lut[v].matchedId
    ensures v !in lut ==> id == -1
  {
    if v in lut then lut[v].matchedId else -1
  }

  function RemapSedimentRow(lut: map<Value, Match>, r: Row): (out: Row)
    ensures out.Keys == r.Keys + {"SedRepName", "SEDI", "sed_type"}
    ensures forall c :: c in r && c !in {"SedRepName", "SEDI", "sed_type"} ==> out[c] == r[c]
    // the provider's code is kept as SedRepName
    ensures out["SedRepName"] == Cell(r, "SEDI")
    ensures out["SEDI"] == FixSedi(Cell(r, "SEDI"))
    // 56, 73 and missing are looked up as -99; an unknown key gives -1
    ensures var key := if Cell(r, "SEDI") in {Num(56.0), Num(73.0), Missing} then Num(-99.0) else Cell(r, "SEDI");
            out["sed_type"] == Num((if key in lut then lut[key].matchedId else -1) as real)
  {
    var fixed := FixSedi(Cell(r, "SEDI"));
    r["SedRepName" := Cell(r, "SEDI")]["SEDI" := fixed]["sed_type" := Num(SedimentType(lut, fixed) as real)]
  }

  function RemapSedimentTable(t: Table, lut: map<Value, Match>): (r: Table)
    requires Valid(t) && HasColumn(t, "SEDI")
    ensures Valid(r) && r.cols == AddColumn(AddColumn(t.cols, "SedRepName"), "sed_type")
    ensures |r.rows| == |t.rows| && forall i :: 0 <= i < |t.rows| ==> r.rows[i] == RemapSedimentRow(lut, t.rows[i])
  {
    MapRows(t, AddColumn(AddColumn(t.cols, "SedRepName"), "sed_type"), row => RemapSedimentRow(lut, row))
  }

  /** `RemapSedimentCB.__call__`: only the sediment table changes. */
  method RemapSedimentCB(tfm: Transformer, lut: map<Value, Match>)
    requires tfm.Valid() && "sediment" in tfm.dfs && HasColumn(tfm.dfs["sediment"], "SEDI")
    modifies tfm`dfs
    ensures tfm.Valid()
    ensures tfm.dfs == old(tfm.dfs)["sediment" := RemapSedimentTable(old(tfm.dfs)["sediment"], lut)]
  {
    tfm.dfs := tfm.dfs["sediment" := RemapSedimentTable(tfm.dfs["sediment"], lut)];
  }

  // ---------------------------------------------------------------------------
  // RemapUnitCB

  /** An entry of `lut_units`: a fixed unit id, or ids by the BASIS code. */
  datatype UnitRule = Fixed(id: int) | ByBasis(ids: map<Value, int>)

  /** The module-level `lut_units` (Bq/m3 = 1, Bq/kgd = 4, Bq/kgw = 5). */
  const LutUnits: map<string, UnitRule> :=
    map["seawater" := Fixed(1), "sediment" := Fixed(4),
        "biota" := ByBasis(map[Str("D") := 4, Str("W") := 5, Str("F") := 5])]

  /** What the source demands of a group: seawater and sediment need a fixed
      id in the callback's own table; any other group is looked up in the
      module-level table, where only biota has ids by BASIS. */
  predicate UnitGroupOk(g: string, t: Table, selfLut: map<string, UnitRule>)
  {
    if g == "seawater" || g == "sediment" then g in selfLut && selfLut[g].Fixed?
    else g == "biota" && HasColumn(t, "BASIS")
  }

  /** `RemapUnitCB` on one group, as written: the biota branch reads the
      module-level `lut_units`, not `self.lut_units`. */
  function UnitTable(g: string, t: Table, selfLut: map<string, UnitRule>): (r: Table)
    requires Valid(t) && UnitGroupOk(g, t, selfLut)
    ensures Valid(r) && r.cols == AddColumn(t.cols, "unit") && |r.rows| == |t.rows|
    ensures forall i, c :: 0 <= i < |t.rows| && c in t.rows[i] && c != "unit" ==> r.rows[i][c] == t.rows[i][c]
    // seawater and sediment read the callback's own table, biota the module-level one
    ensures forall i :: 0 <= i < |t.rows| ==>
              r.rows[i]["unit"] == (if g == "seawater" || g == "sediment" then Num(selfLut[g].id as real)
                                    else Num(GetOr(LutUnits["biota"].ids, t.rows[i]["BASIS"], 0) as real))
  {
    if g == "seawater" || g == "sediment" then
      SetColumn(t, "unit", row => Num(selfLut[g].id as real))
    else
      SetColumn(t, "unit", row => Num(GetOr(LutUnits["biota"].ids, Cell(row, "BASIS"), 0) as real))
  }

  /** With the default table: seawater rows get unit 1, sediment rows 4, and
      biota rows 4 for dry ('D'), 5 for wet or fresh ('W', 'F'), 0 otherwise. */
  lemma DefaultUnits(g: string, t: Table, i: nat)
    requires Valid(t) && UnitGroupOk(g, t, LutUnits) && i < |t.rows|
    ensures var u := UnitTable(g, t, LutUnits).rows[i]["unit"];
            var basis := Cell(t.rows[i], "BASIS");
            && (g == "seawater" ==> u == Num(1.0))
            && (g == "sediment" ==> u == Num(4.0))
            && (g == "biota" ==>
                  u == (if basis == Str("D") then Num(4.0)
                        else if basis == Str("W") || basis == Str("F") then Num(5.0)
                        else Num(0.0)))
  {
    var r := UnitTable(g, t, LutUnits);
    var basis := Cell(t.rows[i], "BASIS");
    if g == "seawater" || g == "sediment" {
      assert r.rows[i]["unit"] == Num(LutUnits[g].id as real);
    } else {
      var ids := map[Str("D") := 4, Str("W") := 5, Str("F") := 5];
      assert LutUnits["biota"].ids == ids;
      assert r.rows[i]["unit"] == Num(GetOr(ids, basis, 0) as real);
    }
  }

  function UnitAll(dfs: map<string, Table>, selfLut: map<string, UnitRule>): (r: map<string, Table>)
    requires forall g :: g in dfs ==> Valid(dfs[g]) && UnitGroupOk(g, dfs[g], selfLut)
    ensures r.Keys == dfs.Keys && forall g :: g in r ==> Valid(r[g])
  {
    MapGroupsSpec(dfs, UnitOf(selfLut))
  }

  function UnitOf(selfLut: map<string, UnitRule>): (string, Table) --> Table
  {
    (g: string, t: Table) requires Valid(t) && UnitGroupOk(g, t, selfLut) => UnitTable(g, t, selfLut)
  }

  method RemapUnitCB(tfm: Transformer, selfLut: map<string, UnitRule>)
    requires tfm.Valid() && forall g :: g in tfm.dfs ==> UnitGroupOk(g, tfm.dfs[g], selfLut)
    modifies tfm`dfs
    ensures tfm.Valid()
    ensures tfm.dfs == UnitAll(old(tfm.dfs), selfLut)
  {
    MapGroups(tfm, UnitOf(selfLut));
  }

  /** The biota units do not depend on the biota entry of the callback's
      own table: a custom `lut_units` is ignored for biota. */
  lemma UnitTableIgnoresOwnBiotaEntry(t: Table, selfLut: map<string, UnitRule>, i: nat)
    requires Valid(t) && HasColumn(t, "BASIS") && i < |t.rows|
    requires "biota" in selfLut && selfLut["biota"] == ByBasis(map[Str("D") := 7])
    requires t.rows[i]["BASIS"] == Str("D")
    ensures UnitTable("biota", t, selfLut).rows[i]["unit"] == Num(4.0)
  {
  }

  /** What the group demands when the biota branch reads the callback's own
      table. */
  predicate UnitGroupOkCorrected(g: string, t: Table, selfLut: map<string, UnitRule>)
  {
    if g == "seawater" || g == "sediment" then g in selfLut && selfLut[g].Fixed?
    else g in selfLut && selfLut[g].ByBasis? && HasColumn(t, "BASIS")
  }

  /** `RemapUnitCB` on one group with `self.lut_units` in both branches. */
  function UnitTableCorrected(g: string, t: Table, selfLut: map<string, UnitRule>): (r: Table)
    requires Valid(t) && UnitGroupOkCorrected(g, t, selfLut)
    ensures Valid(r) && r.cols == AddColumn(t.cols, "unit") && |r.rows| == |t.rows|
    ensures forall i, c :: 0 <= i < |t.rows| && c in t.rows[i] && c != "unit" ==> r.rows[i][c] == t.rows[i][c]
    ensures forall i :: 0 <= i < |t.rows| ==>
              r.rows[i]["unit"] == Num((match selfLut[g]
                                        case Fixed(id) => id
                                        case ByBasis(ids) =>
                                          if t.rows[i]["BASIS"] in ids then ids[t.rows[i]["BASIS"]] else 0) as real)
  {
    if g == "seawater" || g == "sediment" then
      SetColumn(t, "unit", row => Num(selfLut[g].id as real))
    else
      SetColumn(t, "unit", row => Num(GetOr(selfLut[g].ids, Cell(row, "BASIS"), 0) as real))
  }

  /** With the default table the corrected callback agrees with the source. */
  lemma UnitTableCorrectedAgreesOnDefault(g: string, t: Table)
    requires Valid(t) && UnitGroupOk(g, t, LutUnits)
    ensures UnitGroupOkCorrected(g, t, LutUnits)
    ensures UnitTableCorrected(g, t, LutUnits) == UnitTable(g, t, LutUnits)
  {
  }

  function UnitOfCorrected(selfLut: map<string, UnitRule>): (string, Table) --> Table
  {
    (g: string, t: Table) requires Valid(t) && UnitGroupOkCorrected(g, t, selfLut) => UnitTableCorrected(g, t, selfLut)
  }

  function UnitAllCorrected(dfs: map<string, Table>, selfLut: map<string, UnitRule>): (r: map<string, Table>)
    requires forall g :: g in dfs ==> Valid(dfs[g]) && UnitGroupOkCorrected(g, dfs[g], selfLut)
    ensures r.Keys == dfs.Keys && forall g :: g in r ==> Valid(r[g])
  {
    MapGroupsSpec(dfs, UnitOfCorrected(selfLut))
  }

  /** `RemapUnitCB.__call__` reading `self.lut_units` for every group. */
  method RemapUnitCorrectedCB(tfm: Transformer, selfLut: map<string, UnitRule>)
    requires tfm.Valid() && forall g :: g in tfm.dfs ==> UnitGroupOkCorrected(g, tfm.dfs[g], selfLut)
    modifies tfm`dfs
    ensures tfm.Valid()
    ensures tfm.dfs == UnitAllCorrected(old(tfm.dfs), selfLut)
  {
    MapGroups(tfm, UnitOfCorrected(selfLut));
  }

  // ---------------------------------------------------------------------------
  // RemapDetectionLimitCB

  /** Column names of one group: value, relative error and detection-limit label. */
  datatype DlCols = DlCols(val: string, unc: string, dl: string)

  /** `coi_dl` */
  const CoiDl: map<string, DlCols> :=
    map["seawater" := DlCols("VALUE_Bq/m³", "ERROR%_m³", "< VALUE_Bq/m³"),
        "biota" := DlCols("VALUE_Bq/kg", "ERROR%", "< VALUE_Bq/kg"),
        "sediment" := DlCols("VALUE_Bq/kg", "ERROR%_kg", "< VALUE_Bq/kg")]

  /** `_update_detection_limit` on one row: a known label is looked up; an
      unknown one becomes '=' when value and uncertainty are both present,
      and any label still unknown becomes 'Not Available' before the lookup. */
  function DetectionLimit(lut: map<Value, int>, dl: Value, val: Value, unc: Value): (r: Value)
    ensures dl in lut ==> r == Num(lut[dl] as real)
    ensures dl !in lut && !val.Missing? && !unc.Missing? && Str("=") in lut ==> r == Num(lut[Str("=")] as real)
    ensures dl !in lut && (val.Missing? || unc.Missing? || Str("=") !in lut) ==>
              r == (if Str("Not Available") in lut then Num(lut[Str("Not Available")] as real) else Missing)
  {
    var label1 := if !val.Missing? && !unc.Missing? && dl !in lut then Str("=") else dl;
    var label2 := if label1 !in lut then Str("Not Available") else label1;
    if label2 in lut then Num(lut[label2] as real) else Missing
  }

  /** With both fallback labels in the lookup table every row gets one of
      its ids: no detection limit is left missing. */
  lemma DetectionLimitAlwaysKnown(lut: map<Value, int>, dl: Value, val: Value, unc: Value)
    requires Str("=") in lut && Str("Not Available") in lut
    ensures exists k :: k in lut && DetectionLimit(lut, dl, val, unc) == Num(lut[k] as real)
  {
    var k := if dl in lut then dl
             else if !val.Missing? && !unc.Missing? then Str("=")
             else Str("Not Available");
    assert DetectionLimit(lut, dl, val, unc) == Num(lut[k] as real);
  }

  function DetectionLimitTable(t: Table, cols: DlCols, lut: map<Value, int>): (r: Table)
    requires Valid(t) && HasColumn(t, cols.val) && HasColumn(t, cols.unc) && HasColumn(t, cols.dl)
    ensures Valid(r) && r.cols == AddColumn(t.cols, "detection_limit") && |r.rows| == |t.rows|
    ensures forall i :: 0 <= i < |t.rows| ==>
              r.rows[i] == t.rows[i]["detection_limit" :=
                DetectionLimit(lut, t.rows[i][cols.dl], t.rows[i][cols.val], t.rows[i][cols.unc])]
  {
    SetColumn(t, "detection_limit",
              row => DetectionLimit(lut, Cell(row, cols.dl), Cell(row, cols.val), Cell(row, cols.unc)))
  }

  /** The group has an entry in `coi` and the columns that entry names. */
  predicate DlGroupOk(g: string, t: Table, coi: map<string, DlCols>)
  {
    g in coi && HasColumn(t, coi[g].val) && HasColumn(t, coi[g].unc) && HasColumn(t, coi[g].dl)
  }

  function DetectionLimitAll(dfs: map<string, Table>, coi: map<string, DlCols>, lut: map<Value, int>): (r: map<string, Table>)
    requires forall g :: g in dfs ==> Valid(dfs[g]) && DlGroupOk(g, dfs[g], coi)
    ensures r.Keys == dfs.Keys && forall g :: g in r ==> Valid(r[g])
  {
    MapGroupsSpec(dfs, DetectionLimitOf(coi, lut))
  }

  function DetectionLimitOf(coi: map<string, DlCols>, lut: map<Value, int>): (string, Table) --> Table
  {
    (g: string, t: Table) requires Valid(t) && DlGroupOk(g, t, coi) => DetectionLimitTable(t, coi[g], lut)
  }

  /** `RemapDetectionLimitCB.__call__`; every group needs an entry in `coi`. */
  method RemapDetectionLimitCB(tfm: Transformer, coi: map<string, DlCols>, lut: map<Value, int>)
    requires tfm.Valid() && forall g :: g in tfm.dfs ==> DlGroupOk(g, tfm.dfs[g], coi)
    modifies tfm`dfs
    ensures tfm.Valid()
    ensures tfm.dfs == DetectionLimitAll(old(tfm.dfs), coi, lut)
  {
    MapGroups(tfm, DetectionLimitOf(coi, lut));
  }

  // ---------------------------------------------------------------------------
  // RemapFiltCB

  /** `lut_filtered`: not filtered = 2, filtered = 1. */
  const LutFiltered: map<Value, int> := map[Str("N") := 2, Str("n") := 2, Str("F") := 1]

  /** `df['FILT'].map(lambda x: lut.get(x, 0))` where the column exists;
      a table without FILT is returned unchanged. */
  function RemapFiltTable(t: Table, lut: map<Value, int>): (r: Table)
    requires Valid(t)
    ensures Valid(r) && r.cols == t.cols && |r.rows| == |t.rows|
    ensures !HasColumn(t, "FILT") ==> r == t
    ensures HasColumn(t, "FILT") ==>
              forall i :: 0 <= i < |t.rows| ==>
                r.rows[i] == t.rows[i]["FILT" := Num((if t.rows[i]["FILT"] in lut then lut[t.rows[i]["FILT"]] else 0) as real)]
  {
    if HasColumn(t, "FILT") then SetColumn(t, "FILT", row => Num(GetOr(lut, Cell(row, "FILT"), 0) as real))
    else t
  }

  function RemapFiltAll(dfs: map<string, Table>, lut: map<Value, int>): (r: map<string, Table>)
    requires forall g :: g in dfs ==> Valid(dfs[g])
    ensures r.Keys == dfs.Keys && forall g :: g in r ==> Valid(r[g])
  {
    MapGroupsSpec(dfs, RemapFiltOf(lut))
  }

  function RemapFiltOf(lut: map<Value, int>): (string, Table) --> Table
  {
    (g: string, t: Table) requires Valid(t) => RemapFiltTable(t, lut)
  }

  method RemapFiltCB(tfm: Transformer, lut: map<Value, int>)
    requires tfm.Valid()
    modifies tfm`dfs
    ensures tfm.Valid()
    ensures tfm.dfs == RemapFiltAll(old(tfm.dfs), lut)
  {
    MapGroups(tfm, RemapFiltOf(lut));
  }

  // ---------------------------------------------------------------------------
  // AddMeasurementNoteCB

  /** `df[col] = df['METHOD'].map(lambda x: lut.get(x, 0))` where METHOD exists. */
  function MeasurementNoteTable(t: Table, lut: map<Value, Value>, col: string): (r: Table)
    requires Valid(t)
    ensures Valid(r) && |r.rows| == |t.rows|
    ensures !HasColumn(t, "METHOD") ==> r == t
    ensures HasColumn(t, "METHOD") ==>
              r.cols == AddColumn(t.cols, col) &&
              forall i :: 0 <= i < |t.rows| ==>
                r.rows[i] == t.rows[i][col := if t.rows[i]["METHOD"] in lut then lut[t.rows[i]["METHOD"]] else Num(0.0)]
  {
    if HasColumn(t, "METHOD") then
      SetColumn(t, col, row => if Cell(row, "METHOD") in lut then lut[Cell(row, "METHOD")] else Num(0.0))
    else t
  }

  function MeasurementNoteAll(dfs: map<string, Table>, lut: map<Value, Value>, col: string): (r: map<string, Table>)
    requires forall g :: g in dfs ==> Valid(dfs[g])
    ensures r.Keys == dfs.Keys && forall g :: g in r ==> Valid(r[g])
  {
    MapGroupsSpec(dfs, MeasurementNoteOf(lut, col))
  }

  function MeasurementNoteOf(lut: map<Value, Value>, col: string): (string, Table) --> Table
  {
    (g: string, t: Table) requires Valid(t) => MeasurementNoteTable(t, lut, col)
  }

  /** `AddMeasurementNoteCB.__call__` as written: the note goes to the column
      `measurementnote`. */
  method AddMeasurementNoteCB(tfm: Transformer, lut: map<Value, Value>)
    requires tfm.Valid()
    modifies tfm`dfs
    ensures tfm.Valid()
    ensures tfm.dfs == MeasurementNoteAll(old(tfm.dfs), lut, "measurementnote")
  {
    MapGroups(tfm, MeasurementNoteOf(lut, "measurementnote"));
  }

  /** The callback as its docstring describes it: the note goes to the
      column `measurenote`, the name the OpenRefine renaming rules select. */
  method AddMeasureNoteCB(tfm: Transformer, lut: map<Value, Value>)
    requires tfm.Valid()
    modifies tfm`dfs
    ensures tfm.Valid()
    ensures tfm.dfs == MeasurementNoteAll(old(tfm.dfs), lut, "measurenote")
  {
    MapGroups(tfm, MeasurementNoteOf(lut, "measurenote"));
  }
}
