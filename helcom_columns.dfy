/** HELCOM callbacks that copy a provider column under its MARIS name
    (marisco/handlers/helcom.py:466-474, 494-525): sample lab code, station,
    sediment slice top and bottom, and the dry/wet ratio. */
module HelcomColumns {
  import opened Values
  import opened Tables
  import opened Pipeline

  /** `df[dst] = df[src]`: afterwards `dst` holds the cell of `src` in every
      row, `src` itself is kept and no other cell changes. */
  function CopyColumn(t: Table, src: string, dst: string): (r: Table)
    requires Valid(t) && HasColumn(t, src)
    ensures Valid(r) && r.cols == AddColumn(t.cols, dst) && |r.rows| == |t.rows|
    ensures forall i :: 0 <= i < |t.rows| ==> r.rows[i][dst] == t.rows[i][src] && r.rows[i][src] == t.rows[i][src]
    ensures forall i, c :: 0 <= i < |t.rows| && c in t.rows[i] && c != dst ==> r.rows[i][c] == t.rows[i][c]
  {
    SetColumn(t, dst, row => Cell(row, src))
  }

  /** The per-group step of a callback that copies `src` to `dst` in every group. */
  function CopyColumnOf(src: string, dst: string): (string, Table) --> Table
  {
    (g: string, t: Table) requires Valid(t) && HasColumn(t, src) => CopyColumn(t, src, dst)
  }

  function CopyColumnAll(dfs: map<string, Table>, src: string, dst: string): (r: map<string, Table>)
    requires forall g :: g in dfs ==> Valid(dfs[g]) && HasColumn(dfs[g], src)
    ensures r.Keys == dfs.Keys && forall g :: g in r ==> Valid(r[g])
  {
    MapGroupsSpec(dfs, CopyColumnOf(src, dst))
  }

  /** `AddSampleLabCodeCB.__call__`: `samplabcode` copies `KEY` in every group. */
  method AddSampleLabCodeCB(tfm: Transformer)
    requires tfm.Valid() && forall g :: g in tfm.dfs ==> HasColumn(tfm.dfs[g], "KEY")
    modifies tfm`dfs
    ensures tfm.Valid()
    ensures tfm.dfs == CopyColumnAll(old(tfm.dfs), "KEY", "samplabcode")
  {
    MapGroups(tfm, CopyColumnOf("KEY", "samplabcode"));
  }

  /** `RemapStationIdCB.__call__`: `station` copies `STATION` in every group. */
  method RemapStationIdCB(tfm: Transformer)
    requires tfm.Valid() && forall g :: g in tfm.dfs ==> HasColumn(tfm.dfs[g], "STATION")
    modifies tfm`dfs
    ensures tfm.Valid()
    ensures tfm.dfs == CopyColumnAll(old(tfm.dfs), "STATION", "station")
  {
    MapGroups(tfm, CopyColumnOf("STATION", "station"));
  }

  /** `RemapSedSliceTopBottomCB.__call__`: in the sediment table only, `top`
      copies `UPPSLI` and then `bottom` copies `LOWSLI`. */
  method RemapSedSliceTopBottomCB(tfm: Transformer)
    requires tfm.Valid() && "sediment" in tfm.dfs
    requires HasColumn(tfm.dfs["sediment"], "UPPSLI") && HasColumn(tfm.dfs["sediment"], "LOWSLI")
    modifies tfm`dfs
    ensures tfm.Valid()
    ensures var sed := old(tfm.dfs)["sediment"];
            tfm.dfs == old(tfm.dfs)["sediment" := CopyColumn(CopyColumn(sed, "UPPSLI", "top"), "LOWSLI", "bottom")]
  {
    var sed := CopyColumn(tfm.dfs["sediment"], "UPPSLI", "top");
    tfm.dfs := tfm.dfs["sediment" := sed];
    tfm.dfs := tfm.dfs["sediment" := CopyColumn(tfm.dfs["sediment"], "LOWSLI", "bottom")];
  }

  /** Every sediment row gets `top` = UPPSLI and `bottom` = LOWSLI. */
  lemma SedSliceRows(t: Table, i: nat)
    requires Valid(t) && HasColumn(t, "UPPSLI") && HasColumn(t, "LOWSLI") && i < |t.rows|
    ensures var r := CopyColumn(CopyColumn(t, "UPPSLI", "top"), "LOWSLI", "bottom");
            && r.rows[i]["top"] == t.rows[i]["UPPSLI"]
            && r.rows[i]["bottom"] == t.rows[i]["LOWSLI"]
            && forall c :: c in t.rows[i] && c != "top" && c != "bottom" ==> r.rows[i][c] == t.rows[i][c]
  {
    var t1 := CopyColumn(t, "UPPSLI", "top");
    assert t1.rows[i]["LOWSLI"] == t.rows[i]["LOWSLI"];
  }

  // ---------------------------------------------------------------------------
  // LookupDryWetRatio

  /** `_apply_dry_wet_ratio` on one cell: a ratio of 0 % is no data. */
  function DryWetRatio(v: Value): (r: Value)
    ensures IsZero(v) ==> r.Missing?
    ensures !IsZero(v) ==> r == v
  {
    if IsZero(v) then Missing else v
  }

  /** `LookupDryWetRatio` on one table: only a table with `DW%` changes. */
  function DryWetTable(t: Table): (r: Table)
    requires Valid(t)
    ensures Valid(r) && |r.rows| == |t.rows|
    ensures !HasColumn(t, "DW%") ==> r == t
    ensures HasColumn(t, "DW%") ==>
              r.cols == AddColumn(t.cols, "dry_wet_ratio") &&
              forall i :: 0 <= i < |t.rows| ==>
                r.rows[i] == t.rows[i]["dry_wet_ratio" := DryWetRatio(t.rows[i]["DW%"])]
  {
    if HasColumn(t, "DW%") then SetColumn(t, "dry_wet_ratio", row => DryWetRatio(Cell(row, "DW%")))
    else t
  }

  /** No ratio left is zero, and every nonzero one is the provider's `DW%`. */
  lemma DryWetNoZero(t: Table, i: nat)
    requires Valid(t) && HasColumn(t, "DW%") && i < |t.rows|
    ensures var v := DryWetTable(t).rows[i]["dry_wet_ratio"];
            !IsZero(v) && (IsZero(t.rows[i]["DW%"]) <==> v.Missing? && !t.rows[i]["DW%"].Missing?)
  {
  }

  function DryWetOf(): (string, Table) --> Table
  {
    (g: string, t: Table) requires Valid(t) => DryWetTable(t)
  }

  function DryWetAll(dfs: map<string, Table>): (r: map<string, Table>)
    requires forall g :: g in dfs ==> Valid(dfs[g])
    ensures r.Keys == dfs.Keys && forall g :: g in r ==> Valid(r[g])
  {
    MapGroupsSpec(dfs, DryWetOf())
  }

  method LookupDryWetRatio(tfm: Transformer)
    requires tfm.Valid()
    modifies tfm`dfs
    ensures tfm.Valid()
    ensures tfm.dfs == DryWetAll(old(tfm.dfs))
  {
    MapGroups(tfm, DryWetOf());
  }
}
