/** HELCOM `ParseCoordinates` (marisco/handlers/helcom.py:529-575): finds
    the decimal-degree and degree-minute coordinate columns by name, takes
    the decimal value unless it is missing or zero, and drops rows left
    without a latitude or longitude. */
module HelcomCoordinates {
  import opened Values
  import opened Tables
  import opened Pipeline

  // ---------------------------------------------------------------------------
  // Column-name search: re.compile(f'{type}.*{format}', re.IGNORECASE).search

  /** Case folding of the ASCII letters. Every letter of the patterns used
      here (l, a, t, o, n, d, m) has no other case-insensitive partner. */
  function Fold(c: char): char
  {
    if 'A' <= c <= 'Z' then (c as int + 32) as char else c
  }

  /** `lit` occurs at position `i` of `s`, ignoring case. */
  predicate LitAt(s: string, i: nat, lit: string)
  {
    i + |lit| <= |s| && forall k :: 0 <= k < |lit| ==> Fold(s[i + k]) == Fold(lit[k])
  }

  /** `s[i..j]` holds no newline, so `.*` can span it. */
  predicate NoNewline(s: string, i: nat, j: nat)
  {
    forall k :: i <= k < j && k < |s| ==> s[k] != '\n'
  }

  /** What `pattern.search(s)` succeeding means for the pattern `a.*b`. */
  ghost predicate Matches(s: string, a: string, b: string)
  {
    exists i: nat, j: nat :: MatchAt(s, a, b, i, j)
  }

  /** Some occurrence of `b` starts at or after `j`, with no newline before it. */
  function FollowedBy(s: string, b: string, j: nat): bool
    decreases |s| - j
  {
    if LitAt(s, j, b) then true
    else if j >= |s| || s[j] == '\n' then false
    else FollowedBy(s, b, j + 1)
  }

  /** Tries every start position from `i` on. */
  function SearchFrom(s: string, a: string, b: string, i: nat): bool
    decreases |s| - i
  {
    if i + |a| > |s| then false
    else (LitAt(s, i, a) && FollowedBy(s, b, i + |a|)) || SearchFrom(s, a, b, i + 1)
  }

  function Search(s: string, a: string, b: string): bool
  {
    SearchFrom(s, a, b, 0)
  }

  lemma {:induction false} FollowedByExact(s: string, b: string, j: nat)
    ensures FollowedBy(s, b, j) <==> exists j': nat :: j <= j' && LitAt(s, j', b) && NoNewline(s, j, j')
    decreases |s| - j
  {
    if LitAt(s, j, b) {
      assert NoNewline(s, j, j);
    } else if j >= |s| || s[j] == '\n' {
    } else {
      FollowedByExact(s, b, j + 1);
      if exists j': nat :: j <= j' && LitAt(s, j', b) && NoNewline(s, j, j') {
        var j': nat :| j <= j' && LitAt(s, j', b) && NoNewline(s, j, j');
        assert j' != j;
        assert NoNewline(s, j + 1, j');
      }
      if FollowedBy(s, b, j + 1) {
        var j': nat :| j + 1 <= j' && LitAt(s, j', b) && NoNewline(s, j + 1, j');
        assert NoNewline(s, j, j');
      }
    }
  }

  /** `a` at `i`, then `b` at `j` with no newline between them. */
  predicate MatchAt(s: string, a: string, b: string, i: nat, j: nat)
  {
    i + |a| <= j && LitAt(s, i, a) && LitAt(s, j, b) && NoNewline(s, i + |a|, j)
  }

  /** A successful search from `i` exhibits a match starting at or after `i`. */
  lemma {:induction false} SearchFromSound(s: string, a: string, b: string, i: nat) returns (i': nat, j: nat)
    requires SearchFrom(s, a, b, i)
    ensures i <= i' && MatchAt(s, a, b, i', j)
    decreases |s| - i
  {
    if LitAt(s, i, a) && FollowedBy(s, b, i + |a|) {
      FollowedByExact(s, b, i + |a|);
      i' := i;
      j :| i + |a| <= j && LitAt(s, j, b) && NoNewline(s, i + |a|, j);
    } else {
      i', j := SearchFromSound(s, a, b, i + 1);
    }
  }

  /** A match starting at or after `i` is found by the search from `i`. */
  lemma {:induction false} SearchFromComplete(s: string, a: string, b: string, i: nat, i': nat, j: nat)
    requires i <= i' && MatchAt(s, a, b, i', j)
    ensures SearchFrom(s, a, b, i)
    decreases i' - i
  {
    if i' == i {
      FollowedByExact(s, b, i + |a|);
    } else {
      SearchFromComplete(s, a, b, i + 1, i', j);
    }
  }

  lemma SearchFromExact(s: string, a: string, b: string, i: nat)
    ensures SearchFrom(s, a, b, i) <==> exists i': nat, j: nat :: i <= i' && MatchAt(s, a, b, i', j)
  {
    if SearchFrom(s, a, b, i) {
      var i', j := SearchFromSound(s, a, b, i);
    }
    if exists i': nat, j: nat :: i <= i' && MatchAt(s, a, b, i', j) {
      var i': nat, j: nat :| i <= i' && MatchAt(s, a, b, i', j);
      SearchFromComplete(s, a, b, i, i', j);
    }
  }

  /** The search agrees with the meaning of the pattern. */
  lemma SearchExact(s: string, a: string, b: string)
    ensures Search(s, a, b) <==> Matches(s, a, b)
  {
    SearchFromExact(s, a, b, 0);
  }

  /** `_find_coord_column`: the first column whose name matches. */
  function FindColumn(cols: seq<string>, a: string, b: string): (r: Option<string>)
    ensures r.Some? ==> r.value in cols && Search(r.value, a, b)
    ensures r.Some? ==> exists k :: 0 <= k < |cols| && cols[k] == r.value &&
                          forall l :: 0 <= l < k ==> !Search(cols[l], a, b)
    ensures r.None? <==> forall k :: 0 <= k < |cols| ==> !Search(cols[k], a, b)
  {
    if cols == [] then None
    else if Search(cols[0], a, b) then Some(cols[0])
    else
      var rest := FindColumn(cols[1..], a, b);
      assert forall k :: 1 <= k < |cols| ==> cols[k] == cols[1..][k - 1];
      rest
  }

  /** The four columns `_get_coord_columns` finds. */
  datatype CoordCols = CoordCols(latD: string, latM: string, lonD: string, lonM: string)

  /** `_get_coord_columns`; a column that is not found is `None` in the
      source, and indexing `df[None]` raises, hence `None` here. */
  function CoordColumns(cols: seq<string>): (r: Option<CoordCols>)
    ensures r.Some? ==> (Search(r.value.latD, "LAT", "dddddd") && Search(r.value.latM, "LAT", "ddmmmm") &&
                         Search(r.value.lonD, "LON", "dddddd") && Search(r.value.lonM, "LON", "ddmmmm"))
    ensures r.Some? ==> r.value.latD in cols && r.value.latM in cols && r.value.lonD in cols && r.value.lonM in cols
    ensures r.None? <==> (FindColumn(cols, "LAT", "dddddd").None? || FindColumn(cols, "LAT", "ddmmmm").None? ||
                         FindColumn(cols, "LON", "dddddd").None? || FindColumn(cols, "LON", "ddmmmm").None?)
  {
    match (FindColumn(cols, "LAT", "dddddd"), FindColumn(cols, "LAT", "ddmmmm"),
           FindColumn(cols, "LON", "dddddd"), FindColumn(cols, "LON", "ddmmmm"))
    case (Some(latD), Some(latM), Some(lonD), Some(lonM)) => Some(CoordCols(latD, latM, lonD, lonM))
    case _ => None
  }

  /** A name that matches a coordinate pattern is never `lat` or `lon`, so
      computing `lat` first cannot disturb the longitude columns. */
  lemma MatchIsNotOutputName(s: string, a: string, b: string)
    requires |a| == 3 && |b| == 6 && Search(s, a, b)
    ensures s != "lat" && s != "lon"
  {
    SearchExact(s, a, b);
    var i: nat, j: nat :| i + |a| <= j && LitAt(s, i, a) && LitAt(s, j, b) && NoNewline(s, i + |a|, j);
    assert |s| >= 9;
  }

  // ---------------------------------------------------------------------------
  // Coordinate values

  /** `_safe_convert`: NaN passes through; a value `convert` cannot handle
      (an exception in the source) is returned unchanged. */
  function SafeConvert(convert: Value -> Option<Value>, v: Value): (r: Value)
    ensures v.Missing? ==> r.Missing?
    ensures !v.Missing? && convert(v).Some? ==> r == convert(v).value
    ensures !v.Missing? && convert(v).None? ==> r == v
  {
    if v.Missing? then v
    else match convert(v)
      case Some(x) => x
      case None => v
  }

  /** `np.where(dec.isna() | (dec == 0), minute.apply(_safe_convert), dec)` on one cell. */
  function PickCoord(convert: Value -> Option<Value>, dec: Value, minute: Value): (r: Value)
    ensures !dec.Missing? && !IsZero(dec) ==> r == dec
    ensures (dec.Missing? || IsZero(dec)) ==> r == SafeConvert(convert, minute)
  {
    if dec.Missing? || IsZero(dec) then SafeConvert(convert, minute) else dec
  }

  /** `lat` and then `lon` on one row, `lon` read from the row as updated. */
  function CoordRow(convert: Value -> Option<Value>, cc: CoordCols, r: Row): (out: Row)
    ensures out.Keys == r.Keys + {"lat", "lon"}
    ensures forall c :: c in r && c != "lat" && c != "lon" ==> out[c] == r[c]
    ensures out["lat"] == PickCoord(convert, Cell(r, cc.latD), Cell(r, cc.latM))
    // `lon` sees the original cells unless one of its columns is `lat`
    ensures cc.lonD != "lat" && cc.lonM != "lat" ==>
              out["lon"] == PickCoord(convert, Cell(r, cc.lonD), Cell(r, cc.lonM))
  {
    var r1 := r["lat" := PickCoord(convert, Cell(r, cc.latD), Cell(r, cc.latM))];
    r1["lon" := PickCoord(convert, Cell(r1, cc.lonD), Cell(r1, cc.lonM))]
  }

  /** The row filter of `dropna(subset=['lat', 'lon'])`. */
  function HasLatLon(): Row -> bool
  {
    row => !Cell(row, "lat").Missing? && !Cell(row, "lon").Missing?
  }

  function WithCoordinates(t: Table, convert: Value -> Option<Value>, cc: CoordCols): (r: Table)
    requires Valid(t)
    ensures Valid(r) && r.cols == AddColumn(AddColumn(t.cols, "lat"), "lon") && |r.rows| == |t.rows|
    ensures forall i :: 0 <= i < |t.rows| ==> r.rows[i] == CoordRow(convert, cc, t.rows[i])
  {
    var cols := AddColumn(AddColumn(t.cols, "lat"), "lon");
    assert forall i :: 0 <= i < |t.rows| ==> t.rows[i].Keys == ColSet(t.cols);
    MapRows(t, cols, row => CoordRow(convert, cc, row))
  }

  /** `_format_coordinates` on one table: the rows that keep both a latitude
      and a longitude, in their order. */
  function FormatCoordinates(t: Table, convert: Value -> Option<Value>, cc: CoordCols): (r: Table)
    requires Valid(t)
    ensures Valid(r) && r.cols == AddColumn(AddColumn(t.cols, "lat"), "lon")
    ensures forall k :: 0 <= k < |r.rows| ==> !r.rows[k]["lat"].Missing? && !r.rows[k]["lon"].Missing?
    ensures var mid := WithCoordinates(t, convert, cc);
            SelectsInOrder(r.rows, mid.rows, HasLatLon(), KeptIndices(mid.rows, HasLatLon()))
  {
    FilterRows(WithCoordinates(t, convert, cc), HasLatLon())
  }

  /** A row whose decimal latitude and longitude are both present and
      nonzero is kept, with exactly those coordinates. */
  lemma DecimalCoordinatesKept(t: Table, convert: Value -> Option<Value>, cc: CoordCols, i: nat)
    requires Valid(t) && i < |t.rows|
    requires cc.lonD != "lat"
    requires var d := Cell(t.rows[i], cc.latD); !d.Missing? && !IsZero(d)
    requires var d := Cell(t.rows[i], cc.lonD); !d.Missing? && !IsZero(d)
    ensures var out := CoordRow(convert, cc, t.rows[i]);
            out["lat"] == Cell(t.rows[i], cc.latD) && out["lon"] == Cell(t.rows[i], cc.lonD)
    ensures i in KeptIndices(WithCoordinates(t, convert, cc).rows, HasLatLon())
  {
    var r1 := t.rows[i]["lat" := PickCoord(convert, Cell(t.rows[i], cc.latD), Cell(t.rows[i], cc.latM))];
    assert Cell(r1, cc.lonD) == Cell(t.rows[i], cc.lonD);
    CoordinatesDropExactly(t, convert, cc, i);
  }

  /** A row is dropped exactly when its latitude or longitude comes out
      missing: both the decimal value was missing or zero and the minute
      value was missing (or converted to NaN). */
  lemma CoordinatesDropExactly(t: Table, convert: Value -> Option<Value>, cc: CoordCols, i: nat)
    requires Valid(t) && i < |t.rows|
    ensures var mid := WithCoordinates(t, convert, cc);
            var out := CoordRow(convert, cc, t.rows[i]);
            (i in KeptIndices(mid.rows, HasLatLon()) <==> !out["lat"].Missing? && !out["lon"].Missing?)
  {
    var mid := WithCoordinates(t, convert, cc);
    FilterKeepsOrder(mid.rows, HasLatLon());
  }

  // ---------------------------------------------------------------------------
  // The callback

  predicate CoordGroupOk(t: Table)
  {
    Valid(t) && CoordColumns(t.cols).Some?
  }

  function CoordinatesOf(convert: Value -> Option<Value>): (string, Table) --> Table
  {
    (g: string, t: Table) requires CoordGroupOk(t) => FormatCoordinates(t, convert, CoordColumns(t.cols).value)
  }

  function CoordinatesAll(dfs: map<string, Table>, convert: Value -> Option<Value>): (r: map<string, Table>)
    requires forall g :: g in dfs ==> CoordGroupOk(dfs[g])
    ensures r.Keys == dfs.Keys && forall g :: g in r ==> Valid(r[g])
  {
    MapGroupsSpec(dfs, CoordinatesOf(convert))
  }

  /** `ParseCoordinates.__call__`, with `convert` standing for `ddmm_to_dd`
      (`None` where it raises). */
  method ParseCoordinates(tfm: Transformer, convert: Value -> Option<Value>)
    requires tfm.Valid() && forall g :: g in tfm.dfs ==> CoordColumns(tfm.dfs[g].cols).Some?
    modifies tfm`dfs
    ensures tfm.Valid()
    ensures tfm.dfs == CoordinatesAll(old(tfm.dfs), convert)
  {
    MapGroups(tfm, CoordinatesOf(convert));
  }
}
