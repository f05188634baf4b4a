/** `clean_df_by_columns`: drops, in place, the columns that hold no value at
    all, and then the columns with fewer non-null cells than the number of
    rows times `threshold` (0.5 by default). */
module ColumnCleaner {
  import opened Tables

  /** The columns of `cols` that satisfy `keep`, in their order. */
  function FilterColumns(cols: seq<string>, keep: string -> bool): (kept: seq<string>)
    ensures forall c :: c in kept <==> c in cols && keep(c)
    ensures Subsequence(kept, cols)
    ensures DistinctColumns(cols) ==> DistinctColumns(kept)
  {
    if cols == [] then []
    else
      var prev := FilterColumns(cols[..|cols| - 1], keep);
      var c := cols[|cols| - 1];
      if keep(c) then prev + [c] else prev
  }

  /** `sub` is `s` with some elements left out: the rest keep their order. */
  predicate Subsequence(sub: seq<string>, s: seq<string>)
  {
    if sub == [] then true
    else if s == [] then false
    else if sub[|sub| - 1] == s[|s| - 1] then Subsequence(sub[..|sub| - 1], s[..|s| - 1])
    else Subsequence(sub, s[..|s| - 1])
  }

  lemma {:induction false} FilterColumnsExtensional(cols: seq<string>, p: string -> bool, q: string -> bool)
    requires forall c :: c in cols ==> p(c) == q(c)
    ensures FilterColumns(cols, p) == FilterColumns(cols, q)
  {
    if cols != [] {
      FilterColumnsExtensional(cols[..|cols| - 1], p, q);
    }
  }

  lemma {:induction false} FilterOfFilter(cols: seq<string>, p: string -> bool, q: string -> bool)
    ensures FilterColumns(FilterColumns(cols, p), q) == FilterColumns(cols, c => p(c) && q(c))
  {
    if cols != [] {
      var init := cols[..|cols| - 1];
      var c := cols[|cols| - 1];
      FilterOfFilter(init, p, q);
      var prev := FilterColumns(init, p);
      if p(c) {
        assert (prev + [c])[..|prev|] == prev;
      }
    }
  }

  /** The row with only the cells of columns `cols`. */
  function RestrictRow(r: Row, cols: seq<string>): (r': Row)
    ensures r'.Keys == r.Keys * (set c | c in cols)
    ensures forall c :: c in r' ==> r'[c] == r[c]
  {
    map c | c in r.Keys && c in cols :: r[c]
  }

  /** The frame with only the columns that satisfy `keep`; every row loses
      the cells of the other columns and keeps the rest. */
  function KeepColumns(t: Table, keep: string -> bool): (r: Table)
    ensures |r.rows| == |t.rows|
    ensures forall c :: c in r.columns <==> c in t.columns && keep(c)
    ensures Subsequence(r.columns, t.columns)
    ensures forall i, c :: 0 <= i < |r.rows| && c in r.columns ==> Cell(r.rows[i], c) == Cell(t.rows[i], c)
    ensures forall i, c :: 0 <= i < |r.rows| && c !in r.columns ==> c !in r.rows[i]
  {
    var kept := FilterColumns(t.columns, keep);
    Table(kept, RestrictRows(t.rows, kept))
  }

  function RestrictRows(rows: seq<Row>, cols: seq<string>): (rows': seq<Row>)
    ensures |rows'| == |rows|
    ensures forall i :: 0 <= i < |rows| ==> rows'[i] == RestrictRow(rows[i], cols)
  {
    seq(|rows|, i requires 0 <= i < |rows| => RestrictRow(rows[i], cols))
  }

  /** `df.dropna(axis=1, how="all")`: keeps the columns with a value
      somewhere, in their order, and every row as it was on them. */
  function DropEmptyColumns(t: Table): (r: Table)
    ensures |r.rows| == |t.rows|
    ensures forall c :: c in r.columns <==> c in t.columns && ColumnCount(t.rows, c) > 0
    ensures Subsequence(r.columns, t.columns)
    ensures forall i, c :: 0 <= i < |r.rows| && c in r.columns ==> Cell(r.rows[i], c) == Cell(t.rows[i], c)
  {
    KeepColumns(t, c => ColumnCount(t.rows, c) > 0)
  }

  /** `count >= n * threshold`, with the threshold an exact real. */
  predicate AtLeastShare(count: int, n: int, threshold: real)
  {
    count as real >= n as real * threshold
  }

  /** `df.dropna(axis=1, thresh=n*threshold)`: keeps the columns with at
      least `n * threshold` non-null cells, in their order, and every row as
      it was on them. */
  function DropSparseColumns(t: Table, n: int, threshold: real): (r: Table)
    ensures |r.rows| == |t.rows|
    ensures forall c :: c in r.columns <==> c in t.columns && AtLeastShare(ColumnCount(t.rows, c), n, threshold)
    ensures Subsequence(r.columns, t.columns)
    ensures forall i, c :: 0 <= i < |r.rows| && c in r.columns ==> Cell(r.rows[i], c) == Cell(t.rows[i], c)
  {
    KeepColumns(t, c => AtLeastShare(ColumnCount(t.rows, c), n, threshold))
  }

  /** Both passes of `clean_df_by_columns` on the frame's value. The second
      pass's threshold is computed from the row count, which the first pass
      does not change. Every surviving column is a column of the frame with
      a value somewhere, and every row keeps its cells in it (the exact rule
      is CleanColumnsEffect). */
  function CleanColumns(t: Table, threshold: real): (r: Table)
    ensures |r.rows| == |t.rows|
    ensures forall c :: c in r.columns ==> c in t.columns && ColumnCount(t.rows, c) > 0
    ensures forall i, c :: 0 <= i < |r.rows| && c in r.columns ==> Cell(r.rows[i], c) == Cell(t.rows[i], c)
  {
    var withValues := DropEmptyColumns(t);
    DropSparseColumns(withValues, |withValues.rows|, threshold)
  }

  /** The keep rule both passes amount to, on the original frame. */
  predicate Survives(t: Table, threshold: real, c: string)
  {
    ColumnCount(t.rows, c) > 0 && AtLeastShare(ColumnCount(t.rows, c), |t.rows|, threshold)
  }

  /** Cutting a row down to a set of columns that contains `c` leaves the
      non-null count of column `c` as it was. */
  lemma {:induction false} ColumnCountOfRestricted(rows: seq<Row>, kept: seq<string>, c: string)
    requires c in kept
    ensures ColumnCount(RestrictRows(rows, kept), c) == ColumnCount(rows, c)
  {
    var cut := RestrictRows(rows, kept);
    if rows != [] {
      var init := rows[..|rows| - 1];
      ColumnCountOfRestricted(init, kept, c);
      assert cut[..|cut| - 1] == RestrictRows(init, kept);
      assert Cell(cut[|cut| - 1], c) == Cell(rows[|rows| - 1], c);
    }
  }

  /** The two passes keep exactly the columns, in their original order, that
      have a value somewhere and at least `rows * threshold` non-null cells. */
  lemma CleanColumnsKeeps(t: Table, threshold: real)
    ensures CleanColumns(t, threshold).columns == FilterColumns(t.columns, c => Survives(t, threshold, c))
  {
    var p := c => ColumnCount(t.rows, c) > 0;
    var first := DropEmptyColumns(t);
    var q := c => AtLeastShare(ColumnCount(first.rows, c), |t.rows|, threshold);
    var q' := c => AtLeastShare(ColumnCount(t.rows, c), |t.rows|, threshold);
    forall c | c in first.columns
      ensures q(c) == q'(c)
    {
      ColumnCountOfRestricted(t.rows, first.columns, c);
    }
    FilterColumnsExtensional(first.columns, q, q');
    FilterOfFilter(t.columns, p, q');
    FilterColumnsExtensional(t.columns, c => p(c) && q'(c), c => Survives(t, threshold, c));
  }

  /** What cleaning does to a frame: the same number of rows in the same
      order, a column survives iff it has a value and at least
      `rows * threshold` non-null cells, the survivors keep their relative
      order, and every surviving cell keeps its value. */
  lemma CleanColumnsEffect(t: Table, threshold: real)
    ensures var r := CleanColumns(t, threshold);
      && |r.rows| == |t.rows|
      && (forall c :: c in r.columns <==> c in t.columns && Survives(t, threshold, c))
      && Subsequence(r.columns, t.columns)
      && (forall i, c :: 0 <= i < |r.rows| && c in r.columns ==> Cell(r.rows[i], c) == Cell(t.rows[i], c))
      && (forall i :: 0 <= i < |r.rows| ==> r.rows[i].Keys == t.rows[i].Keys * (set c | c in r.columns))
  {
    CleanColumnsKeeps(t, threshold);
    var r := CleanColumns(t, threshold);
    var first := DropEmptyColumns(t);
    forall i | 0 <= i < |r.rows|
      ensures r.rows[i].Keys == t.rows[i].Keys * (set c | c in r.columns)
      ensures forall c :: c in r.columns ==> Cell(r.rows[i], c) == Cell(t.rows[i], c)
    {
      assert forall c :: c in r.columns ==> c in first.columns;
    }
  }

  /** Cleaning keeps a frame well formed. */
  lemma CleanColumnsWellFormed(t: Table, threshold: real)
    requires WellFormed(t)
    ensures WellFormed(CleanColumns(t, threshold))
  {
    CleanColumnsEffect(t, threshold);
    CleanColumnsKeeps(t, threshold);
    var r := CleanColumns(t, threshold);
    forall i | 0 <= i < |r.rows|
      ensures r.rows[i].Keys == set c | c in r.columns
    {
    }
  }

  /** `clean_df_by_columns(df, threshold)`, which reassigns the frame twice. */
  method CleanByColumns(df: DataFrame, threshold: real)
    modifies df
    ensures df.Snapshot() == CleanColumns(old(df.Snapshot()), threshold)
  {
    // dropna(axis=1, how="all")
    var withValues := DropEmptyColumns(df.Snapshot());
    df.columns, df.rows := withValues.columns, withValues.rows;
    // dropna(axis=1, thresh=df.shape[0]*threshold)
    var dense := DropSparseColumns(df.Snapshot(), |df.rows|, threshold);
    df.columns, df.rows := dense.columns, dense.rows;
  }
}
