/** pandas DataFrames as the handlers use them: an ordered list of column
    labels and a sequence of rows, each row a map from label to cell. */
module Tables {
  import opened Values

  type Row = map<string, Value>

  datatype Table = Table(cols: seq<string>, rows: seq<Row>)

  /** A table with reference group name, as a Python dict entry. */
  datatype NamedTable = NamedTable(name: string, table: Table)

  function ColSet(cols: seq<string>): set<string>
  {
    set c | c in cols
  }

  predicate Distinct<T(==)>(s: seq<T>)
  {
    forall i, j :: 0 <= i < j < |s| ==> s[i] != s[j]
  }

  /** Column labels are unique and every row has exactly the table's columns. */
  predicate Valid(t: Table)
  {
    Distinct(t.cols) && forall i :: 0 <= i < |t.rows| ==> t.rows[i].Keys == ColSet(t.cols)
  }

  /** `col in df.columns` */
  predicate HasColumn(t: Table, c: string)
  {
    c in t.cols
  }

  /** Every label of `cs` is a column of `t` (indexing `df[c]` raises otherwise). */
  predicate HasColumns(t: Table, cs: seq<string>)
  {
    forall c :: c in cs ==> c in t.cols
  }

  /** The cell of a row, read as missing when the row lacks the column. */
  function Cell(r: Row, c: string): Value
  {
    if c in r then r[c] else Missing
  }

  /** The labels after `df[c] = ...`: a new column goes last, an existing one
      keeps its place. */
  function AddColumn(cols: seq<string>, c: string): (r: seq<string>)
    ensures ColSet(r) == ColSet(cols) + {c}
    ensures Distinct(cols) ==> Distinct(r)
    ensures c in cols ==> r == cols
    ensures |r| >= |cols| && r[..|cols|] == cols
  {
    if c in cols then cols else cols + [c]
  }

  /** Rewrites every row with `f`, which must give each row exactly the
      labels `cols`; the vectorised column assignments of pandas. */
  function MapRows(t: Table, cols: seq<string>, f: Row -> Row): (r: Table)
    requires Distinct(cols)
    requires forall i :: 0 <= i < |t.rows| ==> f(t.rows[i]).Keys == ColSet(cols)
    ensures Valid(r) && r.cols == cols && |r.rows| == |t.rows|
    ensures forall i :: 0 <= i < |t.rows| ==> r.rows[i] == f(t.rows[i])
  {
    Table(cols, seq(|t.rows|, i requires 0 <= i < |t.rows| => f(t.rows[i])))
  }

  /** `df[c] = [g(row) for row]`: sets (or appends) column `c`. */
  function SetColumn(t: Table, c: string, g: Row -> Value): (r: Table)
    requires Valid(t)
    ensures Valid(r) && r.cols == AddColumn(t.cols, c) && |r.rows| == |t.rows|
    ensures forall i :: 0 <= i < |t.rows| ==> r.rows[i] == t.rows[i][c := g(t.rows[i])]
  {
    MapRows(t, AddColumn(t.cols, c), row => row[c := g(row)])
  }

  // ---------------------------------------------------------------------------
  // Row filters (`df.dropna(subset=...)`, `df[mask]`)

  function Filter<T>(s: seq<T>, p: T -> bool): (r: seq<T>)
    ensures |r| <= |s|
    ensures forall x :: x in r ==> x in s && p(x)
    decreases |s|
  {
    if s == [] then []
    else Filter(s[..|s| - 1], p) + (if p(s[|s| - 1]) then [s[|s| - 1]] else [])
  }

  /** The positions of `s` that `Filter` keeps, in increasing order. */
  function KeptIndices<T>(s: seq<T>, p: T -> bool): seq<nat>
    decreases |s|
  {
    if s == [] then []
    else KeptIndices(s[..|s| - 1], p) + (if p(s[|s| - 1]) then [|s| - 1] else [])
  }

  predicate Increasing(idx: seq<nat>)
  {
    forall k, l :: 0 <= k < l < |idx| ==> idx[k] < idx[l]
  }

  /** `r` consists of the elements of `s` at the increasing positions `idx`,
      and `idx` holds exactly the positions whose element satisfies `p`:
      `r` is `s` with the other elements removed, order kept. */
  ghost predicate SelectsInOrder<T>(r: seq<T>, s: seq<T>, p: T -> bool, idx: seq<nat>)
  {
    && |r| == |idx|
    && Increasing(idx)
    && (forall k :: 0 <= k < |idx| ==> idx[k] < |s| && r[k] == s[idx[k]])
    && (forall i :: 0 <= i < |s| ==> (i in idx <==> p(s[i])))
  }

  /** The kept positions are increasing, in range, and pick out the
      elements `Filter` keeps. */
  lemma {:induction false} KeptIndicesPick<T>(s: seq<T>, p: T -> bool)
    ensures var idx := KeptIndices(s, p);
            && |idx| == |Filter(s, p)| && Increasing(idx)
            && forall k :: 0 <= k < |idx| ==> idx[k] < |s| && Filter(s, p)[k] == s[idx[k]]
    decreases |s|
  {
    if s != [] {
      var n := |s| - 1;
      var init := s[..n];
      KeptIndicesPick(init, p);
      var idx0 := KeptIndices(init, p);
      var r0 := Filter(init, p);
      var idx := KeptIndices(s, p);
      var r := Filter(s, p);
      if p(s[n]) {
        assert idx == idx0 + [n] && r == r0 + [s[n]];
        forall k | 0 <= k < |idx| ensures idx[k] < |s| && r[k] == s[idx[k]] {
          if k < |idx0| {
            assert idx[k] == idx0[k] && r[k] == r0[k] && init[idx0[k]] == s[idx0[k]];
          }
        }
      } else {
        assert idx == idx0 && r == r0;
        forall k | 0 <= k < |idx| ensures idx[k] < |s| && r[k] == s[idx[k]] {
          assert init[idx0[k]] == s[idx0[k]];
        }
      }
    }
  }

  /** A position is kept exactly when its element satisfies `p`. */
  lemma {:induction false} KeptIndicesExact<T>(s: seq<T>, p: T -> bool)
    ensures forall i :: 0 <= i < |s| ==> (i in KeptIndices(s, p) <==> p(s[i]))
    decreases |s|
  {
    if s != [] {
      var n := |s| - 1;
      var init := s[..n];
      KeptIndicesExact(init, p);
      KeptIndicesPick(init, p);
      var idx0 := KeptIndices(init, p);
      var idx := KeptIndices(s, p);
      assert idx == idx0 + (if p(s[n]) then [n] else []);
      assert n !in idx0;
      forall i | 0 <= i < |s| ensures (i in idx <==> p(s[i])) {
        if i < n {
          assert s[i] == init[i];
          assert i in idx <==> i in idx0;
        }
      }
    }
  }

  lemma FilterKeepsOrder<T>(s: seq<T>, p: T -> bool)
    ensures SelectsInOrder(Filter(s, p), s, p, KeptIndices(s, p))
  {
    KeptIndicesPick(s, p);
    KeptIndicesExact(s, p);
  }

  /** `Filter` keeps exactly the elements satisfying `p`. */
  lemma FilterMembers<T>(s: seq<T>, p: T -> bool)
    ensures forall x :: x in Filter(s, p) <==> x in s && p(x)
  {
    FilterKeepsOrder(s, p);
    forall x | x in s && p(x) ensures x in Filter(s, p) {
      var i :| 0 <= i < |s| && s[i] == x;
      var idx := KeptIndices(s, p);
      assert i in idx;
      var k :| 0 <= k < |idx| && idx[k] == i;
      assert Filter(s, p)[k] == x;
    }
  }

  function FilterRows(t: Table, p: Row -> bool): (r: Table)
    requires Valid(t)
    ensures Valid(r) && r.cols == t.cols
    ensures SelectsInOrder(r.rows, t.rows, p, KeptIndices(t.rows, p))
  {
    FilterKeepsOrder(t.rows, p);
    Table(t.cols, Filter(t.rows, p))
  }

  // ---------------------------------------------------------------------------
  // Column selection

  /** `df.drop(columns=...)`-style selection: keeps the columns satisfying
      `keep`, in their order, and restricts every row to them. */
  function KeepColumns(t: Table, keep: string -> bool): (r: Table)
    requires Valid(t)
    ensures Valid(r) && |r.rows| == |t.rows|
    ensures r.cols == Filter(t.cols, keep)
    ensures forall c :: c in r.cols <==> c in t.cols && keep(c)
    ensures forall i, c :: 0 <= i < |t.rows| && c in r.rows[i] ==> r.rows[i][c] == t.rows[i][c]
  {
    var cols := Filter(t.cols, keep);
    FilterKeepsOrder(t.cols, keep);
    assert forall c :: c in cols <==> c in t.cols && keep(c) by {
      forall c | c in t.cols && keep(c) ensures c in cols {
        var i :| 0 <= i < |t.cols| && t.cols[i] == c;
        var idx := KeptIndices(t.cols, keep);
        assert i in idx;
        var k :| 0 <= k < |idx| && idx[k] == i;
        assert cols[k] == c;
      }
    }
    assert Distinct(cols) by {
      var idx := KeptIndices(t.cols, keep);
      forall k, l | 0 <= k < l < |cols| ensures cols[k] != cols[l] {
        assert idx[k] < idx[l];
      }
    }
    MapRows(t, cols, row => map c | c in row && keep(c) :: row[c])
  }
}
