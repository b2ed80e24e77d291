/** The handler for the legacy MARIS global dump
    (marisco/handlers/maris_legacy.py): splitting the dump by reference and
    sample type, the file name and Zotero key derived from a split, and the
    callbacks that cast stations, drop empty columns and map detection
    limits to their ids. */
module MarisLegacy {
  import opened Values
  import opened Tables
  import opened Pipeline

  // ---------------------------------------------------------------------------
  // DataLoader

  /** `DataLoader.LUT`: provider sample type and group name, in dict order. */
  const SampleTypes: seq<(string, string)> :=
    [("Biota", "BIOTA"), ("Seawater", "SEAWATER"), ("Sediment", "SEDIMENT"), ("Suspended matter", "SUSPENDED_MATTER")]

  /** Python's truth value of the optional list `exclude_ref_id`. */
  predicate Truthy(ids: Option<seq<int>>)
  {
    ids.Some? && ids.value != []
  }

  /** `v in ids` as `Series.isin` decides it: a missing cell is in no list. */
  predicate IsIn(v: Value, ids: seq<int>)
  {
    exists k :: 0 <= k < |ids| && v == Num(ids[k] as real)
  }

  function NotExcluded(ids: seq<int>): Row -> bool
  {
    row => !IsIn(Cell(row, "ref_id"), ids)
  }

  /** `DataLoader._load_data` on the dump already read: with a non-empty
      exclusion list the rows whose `ref_id` is listed are dropped, order
      kept; otherwise the dump is kept as it is. */
  function LoadData(dump: Table, exclude: Option<seq<int>>): (r: Table)
    requires Valid(dump) && (Truthy(exclude) ==> HasColumn(dump, "ref_id"))
    ensures Valid(r) && r.cols == dump.cols
    ensures !Truthy(exclude) ==> r == dump
    ensures Truthy(exclude) ==>
              SelectsInOrder(r.rows, dump.rows, NotExcluded(exclude.value), KeptIndices(dump.rows, NotExcluded(exclude.value)))
  {
    if Truthy(exclude) then FilterRows(dump, NotExcluded(exclude.value)) else dump
  }

  /** A row survives the exclusion exactly when its reference is not listed. */
  lemma LoadDataMembers(dump: Table, exclude: Option<seq<int>>, row: Row)
    requires Valid(dump) && Truthy(exclude) && HasColumn(dump, "ref_id")
    ensures row in LoadData(dump, exclude).rows <==> row in dump.rows && !IsIn(Cell(row, "ref_id"), exclude.value)
  {
    FilterMembers(dump.rows, NotExcluded(exclude.value));
  }

  /** What `DataLoader.__call__` indexes: `df.groupby('samptype')` raises
      `KeyError` without a `samptype` column, and a truthy `ref_id` reads
      `self.df.ref_id`, which raises `AttributeError` without that column. */
  predicate Groupable(df: Table, refId: int)
  {
    HasColumn(df, "samptype") && (refId != 0 ==> HasColumn(df, "ref_id"))
  }

  /** The rows `DataLoader.__call__` puts in the group of `samptype`: that
      sample type, and the reference `refId` unless `refId` is 0 (falsy). */
  function InSample(samptype: string, refId: int): Row -> bool
  {
    row => Cell(row, "samptype") == Str(samptype) && (refId != 0 ==> Cell(row, "ref_id") == Num(refId as real))
  }

  function SampleRows(df: Table, samptype: string, refId: int): (r: Table)
    requires Valid(df) && Groupable(df, refId)
    ensures Valid(r) && r.cols == df.cols
    ensures forall row :: row in r.rows <==> row in df.rows && InSample(samptype, refId)(row)
  {
    FilterMembers(df.rows, InSample(samptype, refId));
    FilterRows(df, InSample(samptype, refId))
  }

  /** One candidate group per entry of the sample-type table. */
  function Candidates(df: Table, refId: int, lut: seq<(string, string)>): (r: seq<NamedTable>)
    requires Valid(df) && Groupable(df, refId)
    ensures |r| == |lut|
    ensures forall i :: 0 <= i < |lut| ==> r[i].name == lut[i].1 && r[i].table == SampleRows(df, lut[i].0, refId)
  {
    seq(|lut|, i requires 0 <= i < |lut| => NamedTable(lut[i].1, SampleRows(df, lut[i].0, refId)))
  }

  function NonEmpty(): NamedTable -> bool
  {
    (nt: NamedTable) => nt.table.rows != []
  }

  /** `{LUT[name]: grp for name, grp in df.groupby('samptype') if name in LUT}`:
      `groupby` yields only sample types that occur, in sorted order, which
      for the names of `SampleTypes` is their dict order (`SampleTypesSorted`). */
  function Groups(df: Table, refId: int, lut: seq<(string, string)>): (r: seq<NamedTable>)
    requires Valid(df) && Groupable(df, refId)
    ensures SelectsInOrder(r, Candidates(df, refId, lut), NonEmpty(), KeptIndices(Candidates(df, refId, lut), NonEmpty()))
  {
    FilterKeepsOrder(Candidates(df, refId, lut), NonEmpty());
    Filter(Candidates(df, refId, lut), NonEmpty())
  }

  /** A group is produced exactly for each sample type that has rows, and
      holds exactly that sample type's rows (of the reference, unless 0). */
  lemma GroupsExact(df: Table, refId: int, lut: seq<(string, string)>, nt: NamedTable)
    requires Valid(df) && Groupable(df, refId)
    ensures nt in Groups(df, refId, lut) <==>
              exists i :: 0 <= i < |lut| && nt == NamedTable(lut[i].1, SampleRows(df, lut[i].0, refId)) && nt.table.rows != []
  {
    var cands := Candidates(df, refId, lut);
    FilterMembers(cands, NonEmpty());
    if nt in cands {
      var i :| 0 <= i < |cands| && cands[i] == nt;
      assert nt == NamedTable(lut[i].1, SampleRows(df, lut[i].0, refId));
    }
    if exists i :: 0 <= i < |lut| && nt == NamedTable(lut[i].1, SampleRows(df, lut[i].0, refId)) && nt.table.rows != [] {
      var i :| 0 <= i < |lut| && nt == NamedTable(lut[i].1, SampleRows(df, lut[i].0, refId)) && nt.table.rows != [];
      assert cands[i] == nt;
    }
  }

  /** Every row of a group has the group's sample type and, unless `refId`
      is 0, the reference `refId`: a row of another type or reference is
      in no group. */
  lemma GroupRowsMatch(df: Table, refId: int, lut: seq<(string, string)>, k: nat, row: Row)
    requires Valid(df) && Groupable(df, refId) && k < |Groups(df, refId, lut)| && row in Groups(df, refId, lut)[k].table.rows
    ensures exists i :: 0 <= i < |lut| && Groups(df, refId, lut)[k].name == lut[i].1 &&
                        row in df.rows && Cell(row, "samptype") == Str(lut[i].0)
    ensures refId != 0 ==> Cell(row, "ref_id") == Num(refId as real)
  {
    var nt := Groups(df, refId, lut)[k];
    GroupsExact(df, refId, lut, nt);
    var i :| 0 <= i < |lut| && nt == NamedTable(lut[i].1, SampleRows(df, lut[i].0, refId)) && nt.table.rows != [];
    assert InSample(lut[i].0, refId)(row);
  }

  /** Strict lexicographic order of Python strings (code point by code point). */
  predicate Before(a: string, b: string)
  {
    exists k :: 0 <= k <= |a| && k < |b| && a[..k] == b[..k] && (k == |a| || a[k] < b[k])
  }

  /** The sample types of `DataLoader.LUT` are listed in sorted order, so
      the groups `groupby` produces come in `SampleTypes` order. */
  lemma SampleTypesSorted()
    ensures Before(SampleTypes[0].0, SampleTypes[1].0)
    ensures Before(SampleTypes[1].0, SampleTypes[2].0)
    ensures Before(SampleTypes[2].0, SampleTypes[3].0)
  {
    assert "Biota"[..0] == "Seawater"[..0];
    assert "Seawater"[..2] == "Sediment"[..2];
    assert "Sediment"[..1] == "Suspended matter"[..1];
  }

  /** No two groups share a name. */
  predicate DistinctNames(groups: seq<NamedTable>)
  {
    forall k, l :: 0 <= k < l < |groups| ==> groups[k].name != groups[l].name
  }

  /** The dict `DataLoader.__call__` returns, as the transformer takes it:
      one key per group name (a later group would overwrite an earlier one). */
  function DictOf(groups: seq<NamedTable>): (r: map<string, Table>)
    ensures forall g :: g in r <==> exists k :: 0 <= k < |groups| && groups[k].name == g
  {
    if groups == [] then map[] else DictOf(groups[..|groups| - 1])[groups[|groups| - 1].name := groups[|groups| - 1].table]
  }

  /** With distinct names, each name holds its group's table. */
  lemma {:induction false} DictOfValues(groups: seq<NamedTable>)
    requires DistinctNames(groups)
    ensures forall k :: 0 <= k < |groups| ==> DictOf(groups)[groups[k].name] == groups[k].table
  {
    if groups != [] {
      var n := |groups| - 1;
      var prefix := groups[..n];
      assert DistinctNames(prefix);
      DictOfValues(prefix);
      forall k | 0 <= k < |groups| ensures DictOf(groups)[groups[k].name] == groups[k].table {
        if k < n {
          assert groups[k] == prefix[k];
        }
      }
    }
  }

  /** The group names of `DataLoader.LUT` are distinct. */
  lemma SampleTypeNamesDistinct()
    ensures forall i, j :: 0 <= i < j < |SampleTypes| ==> SampleTypes[i].1 != SampleTypes[j].1
  {
  }

  /** The groups carry distinct names, so their dict loses none of them. */
  lemma GroupsDistinctNames(df: Table, refId: int)
    requires Valid(df) && Groupable(df, refId)
    ensures DistinctNames(Groups(df, refId, SampleTypes))
  {
    var cands := Candidates(df, refId, SampleTypes);
    var groups := Groups(df, refId, SampleTypes);
    var idx := KeptIndices(cands, NonEmpty());
    SampleTypeNamesDistinct();
    forall k, l | 0 <= k < l < |groups|
      ensures groups[k].name != groups[l].name
    {
      assert idx[k] < idx[l];
      assert groups[k].name == SampleTypes[idx[k]].1;
    }
  }

  /** A group in the dict is the group of one sample type, which has rows. */
  lemma GroupInDict(df: Table, refId: int, i: nat)
    requires Valid(df) && Groupable(df, refId) && i < |SampleTypes| && SampleTypes[i].1 in DictOf(Groups(df, refId, SampleTypes))
    ensures SampleRows(df, SampleTypes[i].0, refId).rows != []
    ensures DictOf(Groups(df, refId, SampleTypes))[SampleTypes[i].1] == SampleRows(df, SampleTypes[i].0, refId)
  {
    var cands := Candidates(df, refId, SampleTypes);
    var groups := Groups(df, refId, SampleTypes);
    var idx := KeptIndices(cands, NonEmpty());
    GroupsDistinctNames(df, refId);
    DictOfValues(groups);
    SampleTypeNamesDistinct();
    var k :| 0 <= k < |groups| && groups[k].name == SampleTypes[i].1;
    assert groups[k] == cands[idx[k]];
    assert idx[k] == i;
    assert idx[k] in idx;
  }

  /** A sample type with rows has its group in the dict. */
  lemma SampleInDict(df: Table, refId: int, i: nat)
    requires Valid(df) && Groupable(df, refId) && i < |SampleTypes| && SampleRows(df, SampleTypes[i].0, refId).rows != []
    ensures SampleTypes[i].1 in DictOf(Groups(df, refId, SampleTypes))
  {
    var cands := Candidates(df, refId, SampleTypes);
    var groups := Groups(df, refId, SampleTypes);
    var idx := KeptIndices(cands, NonEmpty());
    assert NonEmpty()(cands[i]);
    var k :| 0 <= k < |idx| && idx[k] == i;
    assert groups[k].name == SampleTypes[i].1;
  }

  /** The dict of the groups has a key for exactly the sample types that
      have rows, holding exactly those rows. */
  lemma GroupsDict(df: Table, refId: int, i: nat)
    requires Valid(df) && Groupable(df, refId) && i < |SampleTypes|
    ensures var d := DictOf(Groups(df, refId, SampleTypes));
            && (SampleTypes[i].1 in d <==> SampleRows(df, SampleTypes[i].0, refId).rows != [])
            && (SampleTypes[i].1 in d ==> d[SampleTypes[i].1] == SampleRows(df, SampleTypes[i].0, refId))
  {
    if SampleTypes[i].1 in DictOf(Groups(df, refId, SampleTypes)) {
      GroupInDict(df, refId, i);
    }
    if SampleRows(df, SampleTypes[i].0, refId).rows != [] {
      SampleInDict(df, refId, i);
    }
  }

  /** `DataLoader`: the dump, with the excluded references removed once
      at construction. */
  class DataLoader {
    var df: Table

    /** `DataLoader.__init__` with the dump already read from its file. */
    constructor (dump: Table, exclude: Option<seq<int>>)
      requires Valid(dump) && (Truthy(exclude) ==> HasColumn(dump, "ref_id"))
      ensures df == LoadData(dump, exclude)
    {
      df := LoadData(dump, exclude);
    }

    /** `DataLoader.__call__`: the groups of the reference `refId` (of the
        whole dump when `refId` is 0), named after `SampleTypes`. */
    method Call(refId: int) returns (groups: seq<NamedTable>)
      requires Valid(df) && Groupable(df, refId)
      ensures groups == Groups(df, refId, SampleTypes)
      ensures forall k :: 0 <= k < |groups| ==> groups[k].table.rows != [] && Valid(groups[k].table)
      ensures forall i :: 0 <= i < |SampleTypes| ==>
                && (SampleTypes[i].1 in DictOf(groups) <==> SampleRows(df, SampleTypes[i].0, refId).rows != [])
                && (SampleTypes[i].1 in DictOf(groups) ==> DictOf(groups)[SampleTypes[i].1] == SampleRows(df, SampleTypes[i].0, refId))
    {
      groups := Groups(df, refId, SampleTypes);
      forall i | 0 <= i < |SampleTypes| {
        GroupsDict(df, refId, i);
      }
    }
  }

  // ---------------------------------------------------------------------------
  // get_zotero_key, get_fname

  /** `k` is the last `/`-separated segment of `s`: a suffix of `s` free of
      `/` that is all of `s` or follows a `/`. */
  predicate IsLastSegment(k: string, s: string)
  {
    && (forall i :: 0 <= i < |k| ==> k[i] != '/')
    && |k| <= |s| && s[|s| - |k|..] == k
    && (|k| < |s| ==> s[|s| - |k| - 1] == '/')
  }

  /** `s.split('/')[-1]` */
  function LastSegment(s: string): (k: string)
    ensures IsLastSegment(k, s)
    decreases |s|
  {
    if s == [] then []
    else if s[|s| - 1] == '/' then []
    else LastSegment(s[..|s| - 1]) + [s[|s| - 1]]
  }

  /** A longer `/`-free suffix than the last segment would reach back over
      the `/` before it. */
  lemma LastSegmentLongest(k1: string, k2: string, s: string)
    requires IsLastSegment(k1, s) && |k2| <= |s| && s[|s| - |k2|..] == k2
    ensures |k2| > |k1| ==> k2[|k2| - |k1| - 1] == '/'
  {
    if |k2| > |k1| {
      assert k2[|k2| - |k1| - 1] == s[|s| - |k1| - 1];
    }
  }

  /** The last segment is determined by the string: `IsLastSegment` is a
      complete description of `split('/')[-1]`. */
  lemma LastSegmentUnique(k1: string, k2: string, s: string)
    requires IsLastSegment(k1, s) && IsLastSegment(k2, s)
    ensures k1 == k2
  {
    LastSegmentLongest(k1, k2, s);
    LastSegmentLongest(k2, k1, s);
  }

  /** The `zoterourl` of the first row of the first group. */
  predicate HasZoteroUrl(groups: seq<NamedTable>)
  {
    |groups| > 0 && |groups[0].table.rows| > 0 && Cell(groups[0].table.rows[0], "zoterourl").Str?
  }

  /** `get_zotero_key`: the last path segment of the first group's first
      `zoterourl`. */
  function ZoteroKey(groups: seq<NamedTable>): (k: string)
    requires HasZoteroUrl(groups)
    ensures IsLastSegment(k, Cell(groups[0].table.rows[0], "zoterourl").s)
  {
    LastSegment(Cell(groups[0].table.rows[0], "zoterourl").s)
  }

  /** An integral number cell: what an `int64` column of pandas holds. */
  predicate IsIntegral(v: Value)
  {
    v.Num? && v.x == v.x.Floor as real
  }

  predicate HasRefId(groups: seq<NamedTable>)
  {
    |groups| > 0 && |groups[0].table.rows| > 0 && IsIntegral(Cell(groups[0].table.rows[0], "ref_id"))
  }

  /** `get_fname`: the first group's first `ref_id` in decimal, then `.nc`;
      the name reads back as that reference. */
  function FileName(groups: seq<NamedTable>): (f: string)
    requires HasRefId(groups)
    ensures |f| > 3 && f[|f| - 3..] == ".nc"
    ensures ParseInt(f[..|f| - 3]) == Some(Cell(groups[0].table.rows[0], "ref_id").x.Floor)
  {
    var n := Cell(groups[0].table.rows[0], "ref_id").x.Floor;
    var f := IntToString(n) + ".nc";
    assert f[..|f| - 3] == IntToString(n);
    IntToStringRoundTrip(n);
    f
  }

  /** The file of a non-zero reference is named after that reference. */
  lemma FileNameOfReference(df: Table, refId: int)
    requires Valid(df) && Groupable(df, refId) && refId != 0 && |Groups(df, refId, SampleTypes)| > 0
    ensures HasRefId(Groups(df, refId, SampleTypes))
    ensures FileName(Groups(df, refId, SampleTypes)) == IntToString(refId) + ".nc"
  {
    var groups := Groups(df, refId, SampleTypes);
    FilterMembers(Candidates(df, refId, SampleTypes), NonEmpty());
    assert groups[0] in groups;
    assert groups[0].table.rows != [];
    GroupRowsMatch(df, refId, SampleTypes, 0, groups[0].table.rows[0]);
    assert (refId as real).Floor == refId;
  }

  // ---------------------------------------------------------------------------
  // CastStationToStringCB

  /** `fillna('').astype('string')` on one cell: a missing station becomes
      the empty string, a string is kept and any other value is rendered by
      `render` (pandas' own conversion to text). */
  function StationCell(v: Value, render: Value -> string): (r: Value)
    ensures r.Str?
    ensures v.Missing? ==> r == Str("")
    ensures v.Str? ==> r == v
  {
    if v.Missing? then Str("") else if v.Str? then v else Str(render(v))
  }

  function CastStationTable(t: Table, render: Value -> string): (r: Table)
    requires Valid(t)
    ensures Valid(r) && r.cols == t.cols && |r.rows| == |t.rows|
    ensures !HasColumn(t, "STATION") ==> r == t
    ensures HasColumn(t, "STATION") ==>
              forall i :: 0 <= i < |t.rows| ==>
                r.rows[i] == t.rows[i]["STATION" := StationCell(t.rows[i]["STATION"], render)]
  {
    if HasColumn(t, "STATION") then SetColumn(t, "STATION", row => StationCell(Cell(row, "STATION"), render))
    else t
  }

  /** After the cast every station is a string, the empty one exactly where
      it was missing or already empty (provided a number or time in that
      cell does not render as the empty string). */
  lemma StationsAreStrings(t: Table, render: Value -> string, i: nat)
    requires Valid(t) && HasColumn(t, "STATION") && i < |t.rows|
    requires var v := t.rows[i]["STATION"]; v.Num? || v.Time? ==> render(v) != ""
    ensures var v := CastStationTable(t, render).rows[i]["STATION"];
            v.Str? && (v == Str("") <==> t.rows[i]["STATION"] == Missing || t.rows[i]["STATION"] == Str(""))
  {
  }

  function CastStationOf(render: Value -> string): (string, Table) --> Table
  {
    (g: string, t: Table) requires Valid(t) => CastStationTable(t, render)
  }

  function CastStationAll(dfs: map<string, Table>, render: Value -> string): (r: map<string, Table>)
    requires forall g :: g in dfs ==> Valid(dfs[g])
    ensures r.Keys == dfs.Keys && forall g :: g in r ==> Valid(r[g])
  {
    MapGroupsSpec(dfs, CastStationOf(render))
  }

  method CastStationToStringCB(tfm: Transformer, render: Value -> string)
    requires tfm.Valid()
    modifies tfm`dfs
    ensures tfm.Valid()
    ensures tfm.dfs == CastStationAll(old(tfm.dfs), render)
  {
    MapGroups(tfm, CastStationOf(render));
  }

  // ---------------------------------------------------------------------------
  // DropNAColumnsCB

  /** Python `==` on two cells: a missing cell equals nothing, itself included. */
  predicate PyEq(a: Value, b: Value)
  {
    a == b && !a.Missing?
  }

  /** The condition of `dropna(axis=1, how='all')`: no cell of `c` has a value
      (vacuously true of a table without rows). */
  predicate AllMissing(t: Table, c: string)
  {
    forall i :: 0 <= i < |t.rows| ==> Cell(t.rows[i], c).Missing?
  }

  /** `isMarisNA`: the column has a single distinct value (every cell equals
      the first) and that value equals `na`. */
  predicate IsMarisNA(t: Table, c: string, na: Value)
  {
    && |t.rows| > 0
    && (forall i :: 0 <= i < |t.rows| ==> Cell(t.rows[i], c) == Cell(t.rows[0], c))
    && PyEq(Cell(t.rows[0], c), na)
  }

  /** A column is `isMarisNA` exactly when every one of its cells is the
      (non-missing) `na` value. */
  lemma IsMarisNAExact(t: Table, c: string, na: Value)
    ensures IsMarisNA(t, c, na) <==>
              |t.rows| > 0 && !na.Missing? && forall i :: 0 <= i < |t.rows| ==> Cell(t.rows[i], c) == na
  {
  }

  function HasValue(t: Table): string -> bool
  {
    c => !AllMissing(t, c)
  }

  function NotMarisNA(t: Table, na: Value): string -> bool
  {
    c => !IsMarisNA(t, c, na)
  }

  /** Restricting rows to fewer columns does not change whether a kept
      column is `isMarisNA`. */
  lemma MarisNAUnchanged(t: Table, t1: Table, c: string, na: Value)
    requires |t1.rows| == |t.rows|
    requires forall i :: 0 <= i < |t.rows| ==> c in t1.rows[i] && c in t.rows[i] && t1.rows[i][c] == t.rows[i][c]
    ensures IsMarisNA(t1, c, na) <==> IsMarisNA(t, c, na)
  {
    assert forall i :: 0 <= i < |t.rows| ==> Cell(t1.rows[i], c) == Cell(t.rows[i], c);
  }

  /** `dropna(axis=1, how='all')` then `dropMarisNA`. */
  function DropNATable(t: Table, na: Value): (r: Table)
    requires Valid(t)
    ensures Valid(r) && |r.rows| == |t.rows|
    ensures forall c :: c in r.cols <==> c in t.cols && !AllMissing(t, c) && !IsMarisNA(t, c, na)
    ensures forall i, c :: 0 <= i < |t.rows| && c in r.rows[i] ==> r.rows[i][c] == t.rows[i][c]
  {
    var t1 := KeepColumns(t, HasValue(t));
    var r := KeepColumns(t1, NotMarisNA(t1, na));
    forall c | c in t1.cols ensures IsMarisNA(t1, c, na) <==> IsMarisNA(t, c, na) {
      MarisNAUnchanged(t, t1, c, na);
    }
    r
  }

  /** A column survives exactly when the table has rows, some cell of the
      column has a value and some cell differs from `na`: a column mixing
      `na` with missing cells is kept. */
  lemma DropNAKeeps(t: Table, na: Value, c: string)
    requires Valid(t) && c in t.cols
    ensures c in DropNATable(t, na).cols <==>
              |t.rows| > 0 &&
              (exists i :: 0 <= i < |t.rows| && !t.rows[i][c].Missing?) &&
              (exists i :: 0 <= i < |t.rows| && !PyEq(t.rows[i][c], na))
  {
    if |t.rows| > 0 && !AllMissing(t, c) && !IsMarisNA(t, c, na) {
      var i :| 0 <= i < |t.rows| && !Cell(t.rows[i], c).Missing?;
      assert !t.rows[i][c].Missing?;
      if forall j :: 0 <= j < |t.rows| ==> PyEq(t.rows[j][c], na) {
        assert IsMarisNA(t, c, na);
      }
    }
    if !AllMissing(t, c) && IsMarisNA(t, c, na) {
      assert forall j :: 0 <= j < |t.rows| ==> PyEq(t.rows[j][c], na);
    }
  }

  function DropNAOf(na: Value): (string, Table) --> Table
  {
    (g: string, t: Table) requires Valid(t) => DropNATable(t, na)
  }

  function DropNAAll(dfs: map<string, Table>, na: Value): (r: map<string, Table>)
    requires forall g :: g in dfs ==> Valid(dfs[g])
    ensures r.Keys == dfs.Keys && forall g :: g in r ==> Valid(r[g])
  {
    MapGroupsSpec(dfs, DropNAOf(na))
  }

  /** `DropNAColumnsCB.__call__`; the default `na_value` is `Num(0.0)`. */
  method DropNAColumnsCB(tfm: Transformer, na: Value)
    requires tfm.Valid()
    modifies tfm`dfs
    ensures tfm.Valid()
    ensures tfm.dfs == DropNAAll(old(tfm.dfs), na)
  {
    MapGroups(tfm, DropNAOf(na));
  }

  // ---------------------------------------------------------------------------
  // SanitizeDetectionLimitCB

  /** `df[dl_name] = df[dl_name].replace(lut)`: a detection-limit name found
      in the lookup becomes its id, any other cell is kept. */
  function DetectionLimitTable(t: Table, lut: map<Value, Value>, dlName: string): (r: Table)
    requires Valid(t) && HasColumn(t, dlName)
    ensures Valid(r) && r.cols == t.cols && |r.rows| == |t.rows|
    ensures forall i :: 0 <= i < |t.rows| ==>
              var v := t.rows[i][dlName];
              r.rows[i][dlName] == (if v in lut then lut[v] else v)
    ensures forall i, c :: 0 <= i < |t.rows| && c in t.rows[i] && c != dlName ==> r.rows[i][c] == t.rows[i][c]
  {
    SetColumn(t, dlName, row => Replace(Cell(row, dlName), lut))
  }

  /** Every detection limit afterwards is an id of the lookup or a cell that
      is not one of its names. */
  lemma DetectionLimitsKnown(t: Table, lut: map<Value, Value>, dlName: string, i: nat)
    requires Valid(t) && HasColumn(t, dlName) && i < |t.rows|
    ensures var v := DetectionLimitTable(t, lut, dlName).rows[i][dlName];
            v in lut.Values || (v == t.rows[i][dlName] && v !in lut)
  {
  }

  function DetectionLimitOf(lut: map<Value, Value>, dlName: string): (string, Table) --> Table
  {
    (g: string, t: Table) requires Valid(t) && HasColumn(t, dlName) => DetectionLimitTable(t, lut, dlName)
  }

  function DetectionLimitAll(dfs: map<string, Table>, lut: map<Value, Value>, dlName: string): (r: map<string, Table>)
    requires forall g :: g in dfs ==> Valid(dfs[g]) && HasColumn(dfs[g], dlName)
    ensures r.Keys == dfs.Keys && forall g :: g in r ==> Valid(r[g])
  {
    MapGroupsSpec(dfs, DetectionLimitOf(lut, dlName))
  }

  /** `SanitizeDetectionLimitCB.__call__`: every group must have the column
      (`DL` by default). */
  method SanitizeDetectionLimitCB(tfm: Transformer, lut: map<Value, Value>, dlName: string)
    requires tfm.Valid() && forall g :: g in tfm.dfs ==> HasColumn(tfm.dfs[g], dlName)
    modifies tfm`dfs
    ensures tfm.Valid()
    ensures tfm.dfs == DetectionLimitAll(old(tfm.dfs), lut, dlName)
  {
    MapGroups(tfm, DetectionLimitOf(lut, dlName));
  }
}
