/** `clean_df_by_region`: visits the region groups in ascending region code
    and keeps a whole region, rows unchanged and in order, when it passes one
    of two quality rules; `dropna` chooses the rule. */
module RegionFilter {
  import opened Tables
  import opened Grouping

  /** The density rule's row test, `dropna(thresh=group_rows*threshold)`: the
      row's non-null cells over all columns, against the group's ROW count
      times the threshold. */
  predicate DenseRow(r: Row, cols: seq<string>, groupRows: nat, threshold: real)
  {
    NonNullCount(r, cols) as real >= groupRows as real * threshold
  }

  /** Number of rows of `g` passing the density row test. */
  function DenseRowCount(g: seq<Row>, cols: seq<string>, groupRows: nat, threshold: real): (k: nat)
    ensures k <= |g|
  {
    if g == [] then 0
    else DenseRowCount(g[..|g| - 1], cols, groupRows, threshold)
         + (if DenseRow(g[|g| - 1], cols, groupRows, threshold) then 1 else 0)
  }

  /** Number of rows of `g` in which exactly two cells equal 0. */
  function TwoZeroRowCount(g: seq<Row>, cols: seq<string>): (k: nat)
    ensures k <= |g|
  {
    if g == [] then 0
    else TwoZeroRowCount(g[..|g| - 1], cols) + (if ZeroCount(g[|g| - 1], cols) == 2 then 1 else 0)
  }

  /** Density rule: more than 60% of the group's rows pass the row test
      (`dense / rows > 0.6`, cross-multiplied; see DensityRatioExact). */
  predicate KeepByDensity(g: seq<Row>, cols: seq<string>, threshold: real)
  {
    5 * DenseRowCount(g, cols, |g|, threshold) > 3 * |g|
  }

  /** Zero rule: fewer than 60% of the group's rows hold exactly two zeros
      (`zeros / rows < 0.6`, cross-multiplied; see ZeroRatioExact). */
  predicate KeepByZeros(g: seq<Row>, cols: seq<string>)
  {
    5 * TwoZeroRowCount(g, cols) < 3 * |g|
  }

  predicate KeepRegion(g: seq<Row>, cols: seq<string>, threshold: real, dropna: bool)
  {
    if dropna then KeepByDensity(g, cols, threshold) else KeepByZeros(g, cols)
  }

  /** The rows of the kept regions among `codes`, region after region. */
  function KeptRows(rows: seq<Row>, cols: seq<string>, codes: seq<string>, threshold: real, dropna: bool): seq<Row>
  {
    if codes == [] then []
    else
      var g := Group(rows, codes[|codes| - 1]);
      KeptRows(rows, cols, codes[..|codes| - 1], threshold, dropna)
        + (if KeepRegion(g, cols, threshold, dropna) then g else [])
  }

  /** The value `clean_df_by_region(df, threshold, dropna)` returns, or the
      KeyError `groupby` raises when the frame has no region column. The
      result keeps the frame's columns and holds only rows of the frame. */
  function FilterRegions(t: Table, threshold: real, dropna: bool): (r: Result<Table>)
    ensures r.Err? <==> RegionColumn !in t.columns
    ensures r.Err? ==> r.error == KeyError
    ensures r.Ok? ==> r.value.columns == t.columns
    ensures r.Ok? ==> forall i :: 0 <= i < |r.value.rows| ==> r.value.rows[i] in t.rows
  {
    if RegionColumn !in t.columns then Err(KeyError)
    else
      KeptRowsOrdered(t.rows, t.columns, RegionCodes(t.rows), threshold, dropna);
      Ok(Table(t.columns, KeptRows(t.rows, t.columns, RegionCodes(t.rows), threshold, dropna)))
  }

  /** `clean_df_by_region`: raises at `groupby` without a region column,
      and otherwise runs the loop over the groups. */
  method CleanByRegion(t: Table, threshold: real, dropna: bool) returns (res: Result<Table>)
    requires RegionsTyped(t.rows)
    ensures res == FilterRegions(t, threshold, dropna)
  {
    if RegionColumn !in t.columns {
      return Err(KeyError);
    }
    var kept := KeepRegions(t, threshold, dropna);
    res := Ok(Table(t.columns, kept));
  }

  /** The loop over the groups, growing the result by concatenation. */
  method KeepRegions(t: Table, threshold: real, dropna: bool) returns (kept: seq<Row>)
    requires RegionsTyped(t.rows)
    ensures kept == KeptRows(t.rows, t.columns, RegionCodes(t.rows), threshold, dropna)
  {
    var codes := RegionCodes(t.rows);
    kept := [];
    var k := 0;
    while k < |codes|
      invariant 0 <= k <= |codes|
      invariant kept == KeptRows(t.rows, t.columns, codes[..k], threshold, dropna)
    {
      var g := Group(t.rows, codes[k]);
      if dropna {
        if KeepByDensity(g, t.columns, threshold) {
          kept := kept + g;
        }
      } else {
        if KeepByZeros(g, t.columns) {
          kept := kept + g;
        }
      }
      KeptRowsStep(t.rows, t.columns, codes, k, threshold, dropna);
      k := k + 1;
    }
    assert codes[..k] == codes;
  }

  lemma KeptRowsStep(rows: seq<Row>, cols: seq<string>, codes: seq<string>, k: int, threshold: real, dropna: bool)
    requires 0 <= k < |codes|
    ensures KeptRows(rows, cols, codes[..k + 1], threshold, dropna)
            == KeptRows(rows, cols, codes[..k], threshold, dropna)
               + (if KeepRegion(Group(rows, codes[k]), cols, threshold, dropna) then Group(rows, codes[k]) else [])
  {
    assert codes[..k + 1][..k] == codes[..k];
  }

  /** Restricted to one region, the result is that region's whole group, as
      it was, when the region is among `codes` and passes the rule, and
      nothing otherwise. */
  lemma {:induction false} KeptRowsOfRegion(rows: seq<Row>, cols: seq<string>, codes: seq<string>,
                                            threshold: real, dropna: bool, code: string)
    requires StrictlyAscending(codes)
    ensures Group(KeptRows(rows, cols, codes, threshold, dropna), code)
            == if code in codes && KeepRegion(Group(rows, code), cols, threshold, dropna) then Group(rows, code) else []
  {
    if codes != [] {
      var init := codes[..|codes| - 1];
      var last := codes[|codes| - 1];
      var g := Group(rows, last);
      var chunk := if KeepRegion(g, cols, threshold, dropna) then g else [];
      var prefix := KeptRows(rows, cols, init, threshold, dropna);
      assert KeptRows(rows, cols, codes, threshold, dropna) == prefix + chunk;
      SplitLast(codes);
      AscendingPrefix(codes, init, last);
      KeptRowsOfRegion(rows, cols, init, threshold, dropna, code);
      GroupOfConcat(prefix, chunk, code);
      GroupOfGroup(rows, last, code);
      var whole := KeptRows(rows, cols, codes, threshold, dropna);
      if code == last {
        assert Group(prefix, code) == [];
        assert Group(chunk, code) == chunk;
        assert Group(whole, code) == chunk;
        assert code in codes && Group(rows, code) == g;
      } else {
        assert Group(chunk, code) == [];
        assert Group(whole, code) == Group(prefix, code);
        assert code in codes <==> code in init;
      }
    }
  }

  /** The result is ordered by region code and holds only rows whose region
      is among `codes`, each of them a row of the input. */
  lemma {:induction false} KeptRowsOrdered(rows: seq<Row>, cols: seq<string>, codes: seq<string>,
                                           threshold: real, dropna: bool)
    requires StrictlyAscending(codes)
    ensures var out := KeptRows(rows, cols, codes, threshold, dropna);
      && RegionOrdered(out)
      && (forall i :: 0 <= i < |out| ==> RegionOf(out[i]).Some? && RegionOf(out[i]).value in codes)
      && (forall i :: 0 <= i < |out| ==> out[i] in rows)
  {
    if codes != [] {
      var init := codes[..|codes| - 1];
      var last := codes[|codes| - 1];
      var g := Group(rows, last);
      var chunk := if KeepRegion(g, cols, threshold, dropna) then g else [];
      SplitLast(codes);
      AscendingPrefix(codes, init, last);
      KeptRowsOrdered(rows, cols, init, threshold, dropna);
      var prefix := KeptRows(rows, cols, init, threshold, dropna);
      AppendRegionOrdered(prefix, init, chunk, last);
      var out := prefix + chunk;
      forall i | 0 <= i < |out|
        ensures out[i] in rows
      {
        if i < |prefix| {
          assert out[i] == prefix[i];
        } else {
          assert out[i] == chunk[i - |prefix|];
        }
      }
    }
  }

  /** What the filter does to a frame: it raises KeyError exactly when the
      frame has no region column; otherwise the columns are the same, every
      output row is an input row with a region code, the rows are ordered by
      region code, and each region contributes either its whole group, in
      its original order, or nothing, as the chosen rule decides. */
  lemma FilterRegionsEffect(t: Table, threshold: real, dropna: bool)
    ensures FilterRegions(t, threshold, dropna) == Err(KeyError) <==> RegionColumn !in t.columns
    ensures FilterRegions(t, threshold, dropna).Ok? ==>
      var out := FilterRegions(t, threshold, dropna).value;
      && out.columns == t.columns
      && (forall i :: 0 <= i < |out.rows| ==> out.rows[i] in t.rows && RegionOf(out.rows[i]).Some?)
      && RegionOrdered(out.rows)
      && forall code :: Group(out.rows, code)
           == if |Group(t.rows, code)| > 0 && KeepRegion(Group(t.rows, code), t.columns, threshold, dropna)
              then Group(t.rows, code) else []
  {
    if RegionColumn in t.columns {
      var codes := RegionCodes(t.rows);
      KeptRowsOrdered(t.rows, t.columns, codes, threshold, dropna);
      var out := FilterRegions(t, threshold, dropna).value;
      forall code
        ensures Group(out.rows, code)
             == if |Group(t.rows, code)| > 0 && KeepRegion(Group(t.rows, code), t.columns, threshold, dropna)
                then Group(t.rows, code) else []
      {
        KeptRowsOfRegion(t.rows, t.columns, codes, threshold, dropna, code);
      }
    }
  }

  /** The density rule is the source's real-valued ratio test
      `dense / rows > 0.6`, with 0.6 exact. */
  lemma DensityRatioExact(g: seq<Row>, cols: seq<string>, threshold: real)
    requires |g| > 0
    ensures KeepByDensity(g, cols, threshold)
            <==> (DenseRowCount(g, cols, |g|, threshold) as real) / (|g| as real) > 0.6
  {
    RatioAbove(DenseRowCount(g, cols, |g|, threshold), |g|);
  }

  /** The zero rule is the source's real-valued ratio test
      `zeros / rows < 0.6`, with 0.6 exact. */
  lemma ZeroRatioExact(g: seq<Row>, cols: seq<string>)
    requires |g| > 0
    ensures KeepByZeros(g, cols) <==> (TwoZeroRowCount(g, cols) as real) / (|g| as real) < 0.6
  {
    RatioBelow(TwoZeroRowCount(g, cols), |g|);
  }

  /** The rules at their extremes: an empty group is never kept; a group
      kept by the density rule has a dense row, and one kept by the zero
      rule a row without exactly two zeros; a non-empty group whose rows are
      all dense is kept by the density rule, and one without two-zero rows
      by the zero rule. */
  lemma RuleExtremes(g: seq<Row>, cols: seq<string>, threshold: real)
    ensures KeepByDensity(g, cols, threshold) ==> |g| > 0 && DenseRowCount(g, cols, |g|, threshold) > 0
    ensures |g| > 0 && DenseRowCount(g, cols, |g|, threshold) == |g| ==> KeepByDensity(g, cols, threshold)
    ensures KeepByZeros(g, cols) ==> |g| > 0 && TwoZeroRowCount(g, cols) < |g|
    ensures |g| > 0 && TwoZeroRowCount(g, cols) == 0 ==> KeepByZeros(g, cols)
  {
  }

  lemma RatioAbove(q: nat, n: nat)
    requires n > 0
    ensures (q as real) / (n as real) > 0.6 <==> 5 * q > 3 * n
  {
    RealRatioAbove(q as real, n as real);
  }

  lemma RatioBelow(q: nat, n: nat)
    requires n > 0
    ensures (q as real) / (n as real) < 0.6 <==> 5 * q < 3 * n
  {
    RealRatioBelow(q as real, n as real);
  }

  lemma RealRatioAbove(a: real, b: real)
    requires b > 0.0
    ensures a / b > 0.6 <==> 5.0 * a > 3.0 * b
  {
    var r := a / b;
    assert r * b == a;
    if r > 0.6 {
      assert (r - 0.6) * b > 0.0;
    } else {
      assert (0.6 - r) * b >= 0.0;
    }
  }

  lemma RealRatioBelow(a: real, b: real)
    requires b > 0.0
    ensures a / b < 0.6 <==> 5.0 * a < 3.0 * b
  {
    var r := a / b;
    assert r * b == a;
    if r < 0.6 {
      assert (0.6 - r) * b > 0.0;
    } else {
      assert (r - 0.6) * b >= 0.0;
    }
  }
}
