/** HELCOM measurement values and uncertainties: `SanitizeValue`,
    `unc_rel2stan` and `NormalizeUncCB` (marisco/handlers/helcom.py:194-240). */
module HelcomMeasures {
  import opened Values
  import opened Tables
  import opened Pipeline

  // ---------------------------------------------------------------------------
  // SanitizeValue

  /** The value column of each group (`coi_val`). */
  const CoiVal: map<string, string> :=
    map["seawater" := "VALUE_Bq/m³", "biota" := "VALUE_Bq/kg", "sediment" := "VALUE_Bq/kg"]

  /** The row filter of `dropna(subset=[c])`. */
  function Present(c: string): Row -> bool
  {
    row => !Cell(row, c).Missing?
  }

  /** `SanitizeValue` on one table: rows whose value column is missing are
      dropped (the others keep their order) and `value` copies that column. */
  function SanitizeValueTable(t: Table, valueCol: string): (r: Table)
    requires Valid(t) && HasColumn(t, valueCol)
    ensures Valid(r) && r.cols == AddColumn(t.cols, "value")
    ensures forall k :: 0 <= k < |r.rows| ==> !r.rows[k]["value"].Missing?
    ensures var idx := KeptIndices(t.rows, Present(valueCol));
            && |r.rows| == |idx| && Increasing(idx)
            && (forall k :: 0 <= k < |idx| ==>
                  idx[k] < |t.rows| && r.rows[k] == t.rows[idx[k]]["value" := t.rows[idx[k]][valueCol]])
            && (forall i :: 0 <= i < |t.rows| ==> (i in idx <==> !t.rows[i][valueCol].Missing?))
  {
    var kept := FilterRows(t, Present(valueCol));
    SetColumn(kept, "value", row => Cell(row, valueCol))
  }

  function SanitizeValueAll(dfs: map<string, Table>, coi: map<string, string>): (r: map<string, Table>)
    requires forall g :: g in dfs ==> Valid(dfs[g]) && g in coi && HasColumn(dfs[g], coi[g])
    ensures r.Keys == dfs.Keys && forall g :: g in r ==> Valid(r[g])
  {
    MapGroupsSpec(dfs, SanitizeValueOf(coi))
  }

  function SanitizeValueOf(coi: map<string, string>): (string, Table) --> Table
  {
    (g: string, t: Table) requires Valid(t) && g in coi && HasColumn(t, coi[g]) => SanitizeValueTable(t, coi[g])
  }

  /** `SanitizeValue.__call__`; a group without an entry in `coi` raises
      `KeyError` in the source, hence the precondition. */
  method SanitizeValue(tfm: Transformer, coi: map<string, string>)
    requires tfm.Valid()
    requires forall g :: g in tfm.dfs ==> g in coi && HasColumn(tfm.dfs[g], coi[g])
    modifies tfm`dfs
    ensures tfm.Valid()
    ensures tfm.dfs == SanitizeValueAll(old(tfm.dfs), coi)
  {
    MapGroups(tfm, SanitizeValueOf(coi));
  }

  // ---------------------------------------------------------------------------
  // Relative to absolute uncertainty

  /** `row[unc_col] * row[meas_col] / 100`: the uncertainty given as a
      percentage of the measured value, as an activity. NaN propagates. */
  function UncRel2Stan(meas: Value, relUnc: Value): (r: Value)
    ensures r.Num? <==> meas.Num? && relUnc.Num?
    ensures r.Num? ==> r.x * 100.0 == relUnc.x * meas.x
    ensures r.Num? && 0.0 <= relUnc.x <= 100.0 && 0.0 <= meas.x ==> 0.0 <= r.x <= meas.x
    ensures !r.Num? ==> r == Missing
  {
    if meas.Num? && relUnc.Num? then Num(relUnc.x * meas.x / 100.0) else Missing
  }

  /** The inverse conversion: the absolute uncertainty as a percentage of a
      nonzero measured value. */
  function UncStan2Rel(meas: Value, absUnc: Value): Value
  {
    if meas.Num? && absUnc.Num? && meas.x != 0.0 then Num(absUnc.x * 100.0 / meas.x) else Missing
  }

  lemma UncRel2StanInverse(meas: real, relUnc: real)
    requires meas != 0.0
    ensures UncStan2Rel(Num(meas), UncRel2Stan(Num(meas), Num(relUnc))) == Num(relUnc)
  {
  }

  lemma UncRel2StanExamples(relUnc: real)
    ensures UncRel2Stan(Num(100.0), Num(10.0)) == Num(10.0)
    ensures UncRel2Stan(Num(0.0), Num(relUnc)) == Num(0.0)
    ensures UncRel2Stan(Missing, Num(relUnc)) == Missing
    ensures UncRel2Stan(Num(relUnc), Missing) == Missing
  {
  }

  // ---------------------------------------------------------------------------
  // NormalizeUncCB

  datatype UncCols = UncCols(group: string, val: string, unc: string)

  /** `coi_units_unc` */
  const CoiUnitsUnc: seq<UncCols> :=
    [UncCols("seawater", "VALUE_Bq/m³", "ERROR%_m³"),
     UncCols("biota", "VALUE_Bq/kg", "ERROR%"),
     UncCols("sediment", "VALUE_Bq/kg", "ERROR%_kg")]

  /** `df['uncertainty'] = unc_rel2stan(df, val, unc)` */
  function WithUncertainty(t: Table, val: string, unc: string): (r: Table)
    requires Valid(t)
    ensures Valid(r) && r.cols == AddColumn(t.cols, "uncertainty") && |r.rows| == |t.rows|
    ensures forall i :: 0 <= i < |t.rows| ==>
              r.rows[i] == t.rows[i]["uncertainty" := UncRel2Stan(Cell(t.rows[i], val), Cell(t.rows[i], unc))]
  {
    SetColumn(t, "uncertainty", row => UncRel2Stan(Cell(row, val), Cell(row, unc)))
  }

  predicate AllValid(dfs: map<string, Table>)
  {
    forall g :: g in dfs ==> Valid(dfs[g])
  }

  /** Every entry of `coi` whose group is present names existing columns. */
  predicate UncColumnsPresent(dfs: map<string, Table>, coi: seq<UncCols>)
  {
    forall k :: 0 <= k < |coi| && coi[k].group in dfs ==>
      HasColumns(dfs[coi[k].group], [coi[k].val, coi[k].unc])
  }

  predicate NamedIn(g: string, coi: seq<UncCols>)
  {
    exists k :: 0 <= k < |coi| && coi[k].group == g
  }

  predicate GroupsDistinct(coi: seq<UncCols>)
  {
    forall k, l :: 0 <= k < l < |coi| ==> coi[k].group != coi[l].group
  }

  function NormalizeUncStep(dfs: map<string, Table>, e: UncCols): (r: map<string, Table>)
    requires AllValid(dfs)
    requires e.group in dfs ==> HasColumns(dfs[e.group], [e.val, e.unc])
    ensures AllValid(r) && r.Keys == dfs.Keys
    ensures forall g :: g in dfs ==> ColSet(dfs[g].cols) <= ColSet(r[g].cols)
  {
    if e.group in dfs then dfs[e.group := WithUncertainty(dfs[e.group], e.val, e.unc)] else dfs
  }

  lemma UncColumnsPresentTail(dfs: map<string, Table>, coi: seq<UncCols>)
    requires AllValid(dfs) && coi != [] && UncColumnsPresent(dfs, coi)
    ensures UncColumnsPresent(NormalizeUncStep(dfs, coi[0]), coi[1..])
  {
    var next := NormalizeUncStep(dfs, coi[0]);
    forall k | 0 <= k < |coi[1..]| && coi[1..][k].group in next
      ensures HasColumns(next[coi[1..][k].group], [coi[1..][k].val, coi[1..][k].unc])
    {
      assert coi[1..][k] == coi[k + 1];
    }
  }

  /** The outcome of `NormalizeUncCB.__call__`: the entries of `coi` applied
      in order. */
  function NormalizeUncSpec(dfs: map<string, Table>, coi: seq<UncCols>): (r: map<string, Table>)
    requires AllValid(dfs) && UncColumnsPresent(dfs, coi)
    ensures AllValid(r) && r.Keys == dfs.Keys
    decreases |coi|
  {
    if coi == [] then dfs
    else
      UncColumnsPresentTail(dfs, coi);
      NormalizeUncSpec(NormalizeUncStep(dfs, coi[0]), coi[1..])
  }

  /** Groups that `coi` does not name are left as they were. */
  lemma {:induction false} NormalizeUncUntouched(dfs: map<string, Table>, coi: seq<UncCols>, g: string)
    requires AllValid(dfs) && UncColumnsPresent(dfs, coi)
    requires g in dfs && !NamedIn(g, coi)
    ensures NormalizeUncSpec(dfs, coi)[g] == dfs[g]
    decreases |coi|
  {
    if coi != [] {
      UncColumnsPresentTail(dfs, coi);
      assert coi[0].group != g;
      NormalizeUncUntouched(NormalizeUncStep(dfs, coi[0]), coi[1..], g);
    }
  }

  /** With distinct group names, every named group that is present gets the
      uncertainty column computed from its own value and error columns. */
  lemma {:induction false} NormalizeUncApplies(dfs: map<string, Table>, coi: seq<UncCols>, k: nat)
    requires AllValid(dfs) && UncColumnsPresent(dfs, coi) && GroupsDistinct(coi)
    requires k < |coi| && coi[k].group in dfs
    ensures NormalizeUncSpec(dfs, coi)[coi[k].group] ==
            WithUncertainty(dfs[coi[k].group], coi[k].val, coi[k].unc)
    decreases |coi|
  {
    UncColumnsPresentTail(dfs, coi);
    var next := NormalizeUncStep(dfs, coi[0]);
    if k == 0 {
      NormalizeUncUntouched(next, coi[1..], coi[0].group);
    } else {
      assert coi[1..][k - 1] == coi[k];
      assert GroupsDistinct(coi[1..]) by {
        forall a, b | 0 <= a < b < |coi[1..]| ensures coi[1..][a].group != coi[1..][b].group {
          assert coi[1..][a] == coi[a + 1] && coi[1..][b] == coi[b + 1];
        }
      }
      NormalizeUncApplies(next, coi[1..], k - 1);
    }
  }

  /** `NormalizeUncCB.__call__` with its default converter `unc_rel2stan`. */
  method NormalizeUncCB(tfm: Transformer, coi: seq<UncCols>)
    requires tfm.Valid() && UncColumnsPresent(tfm.dfs, coi)
    modifies tfm`dfs
    ensures tfm.Valid()
    ensures tfm.dfs == NormalizeUncSpec(old(tfm.dfs), coi)
  {
    var i := 0;
    while i < |coi|
      invariant 0 <= i <= |coi|
      invariant AllValid(tfm.dfs) && UncColumnsPresent(tfm.dfs, coi[i..])
      invariant NormalizeUncSpec(tfm.dfs, coi[i..]) == NormalizeUncSpec(old(tfm.dfs), coi)
    {
      var e := coi[i];
      assert coi[i..][0] == e && coi[i..][1..] == coi[i + 1..];
      UncColumnsPresentTail(tfm.dfs, coi[i..]);
      if e.group in tfm.dfs {
        tfm.dfs := tfm.dfs[e.group := WithUncertainty(tfm.dfs[e.group], e.val, e.unc)];
      }
      i := i + 1;
    }
    assert coi[i..] == [];
  }
}
