/** `aggregate_daily_stats_to_weekly`: per region, in ascending region code,
    skips to the first Monday, then folds every seven consecutive daily rows
    into one weekly row. A window is appended only when the row after it is
    read, and nothing is appended after the loop, so the last window of a
    region is never emitted, even when it is complete. */
module WeeklyAggregator {
  import opened Tables
  import opened Grouping
  import Calendar

  /** A metric cell: a number, or null for pandas' NaN. */
  predicate IsMetric(v: Value)
  {
    v.Num? || v.Null?
  }

  /** `+=` on metric cells: NaN absorbs. */
  function AddMetric(a: Value, b: Value): (r: Value)
    requires IsMetric(a) && IsMetric(b)
    ensures IsMetric(r)
    ensures r.Null? <==> a.Null? || b.Null?
  {
    if a.Num? && b.Num? then Num(a.n + b.n) else Null
  }

  /** What the loop reads from a daily row: a numeric `hospitalized_new`
      and a `hospitalized_cumulative` cell. */
  predicate MetricRow(r: Row)
  {
    NewColumn in r && IsMetric(r[NewColumn]) && CumulativeColumn in r
  }

  predicate MetricRows(rows: seq<Row>)
  {
    forall i :: 0 <= i < |rows| ==> MetricRow(rows[i])
  }

  /** A row whose date `strptime(date, "%Y-%m-%d")` can parse. */
  predicate Dated(r: Row)
  {
    Cell(r, DateColumn).Str? && Calendar.IsCalendarDate(Cell(r, DateColumn).s)
  }

  /** What one group needs: metric rows, the first of them dated. */
  predicate Weekable(g: seq<Row>)
  {
    MetricRows(g) && (|g| > 0 ==> Dated(g[0]))
  }

  /** What the whole frame needs: every row a dated metric row. */
  predicate DailyRows(rows: seq<Row>)
  {
    MetricRows(rows) && forall i {:trigger Dated(rows[i])} :: 0 <= i < |rows| ==> Dated(rows[i])
  }

  /** `weekday()` of the group's first date. */
  function FirstWeekday(g: seq<Row>): (w: int)
    requires |g| > 0 && Dated(g[0])
    ensures 0 <= w < 7
  {
    Calendar.Weekday(Cell(g[0], DateColumn).s)
  }

  /** `idx`: how many leading rows to skip so that the first window starts on
      a Monday. */
  function AlignmentOffset(firstWeekday: int): (idx: int)
    requires 0 <= firstWeekday < 7
    ensures 0 <= idx < 7
    ensures (firstWeekday + idx) % 7 == 0
  {
    if firstWeekday == 0 then 0 else 7 - firstWeekday
  }

  /** `hospitalized_new` summed over the `len` rows from row `s` on, left
      to right, as the repeated `+=` does. */
  function WindowSum(g: seq<Row>, s: int, len: int): (v: Value)
    requires 0 <= s && 1 <= len && s + len <= |g| && MetricRows(g)
    ensures IsMetric(v)
    decreases len
  {
    if len == 1 then g[s][NewColumn] else AddMetric(WindowSum(g, s, len - 1), g[s + len - 1][NewColumn])
  }

  /** The plain integer total of the numeric `hospitalized_new` cells. */
  function NewTotal(rows: seq<Row>): int
  {
    if rows == [] then 0
    else NewTotal(rows[..|rows| - 1])
         + (if Cell(rows[|rows| - 1], NewColumn).Num? then Cell(rows[|rows| - 1], NewColumn).n else 0)
  }

  /** The window of `len` days starting at row `s`, reduced to one row: the
      first row, with `hospitalized_new` the window's sum and
      `hospitalized_cumulative` the window's last value. */
  function WindowRow(g: seq<Row>, s: int, len: int): (w: Row)
    requires 0 <= s && 1 <= len && s + len <= |g| && MetricRows(g)
    ensures NewColumn in w && IsMetric(w[NewColumn])
  {
    g[s][NewColumn := WindowSum(g, s, len)][CumulativeColumn := g[s + len - 1][CumulativeColumn]]
  }

  /** `week_data += row`: the day's new cases are added (NaN absorbing) and
      its cumulative count replaces the window's; every other cell of the
      window is kept. */
  function Accumulate(weekData: Row, day: Row): (r: Row)
    requires NewColumn in weekData && IsMetric(weekData[NewColumn]) && MetricRow(day)
    ensures r.Keys == weekData.Keys + {CumulativeColumn}
    ensures IsMetric(r[NewColumn])
    ensures r[NewColumn].Null? <==> weekData[NewColumn].Null? || day[NewColumn].Null?
    ensures r[NewColumn].Num? ==> r[NewColumn].n == weekData[NewColumn].n + day[NewColumn].n
    ensures r[CumulativeColumn] == day[CumulativeColumn]
    ensures forall c :: c in weekData && c != NewColumn && c != CumulativeColumn ==> r[c] == weekData[c]
  {
    weekData[NewColumn := AddMetric(weekData[NewColumn], day[NewColumn])][CumulativeColumn := day[CumulativeColumn]]
  }

  /** The first `n` seven-day windows from row `idx` on, in order. */
  function Windows(g: seq<Row>, idx: int, n: nat): (w: seq<Row>)
    requires 0 <= idx && idx + 7 * n <= |g| && MetricRows(g)
    ensures |w| == n
    ensures forall k :: 0 <= k < n ==> w[k] == WindowRow(g, idx + 7 * k, 7)
  {
    seq(n, k requires 0 <= k < n => WindowRow(g, idx + 7 * k, 7))
  }

  /** The weekly rows of one region's group, or the IndexError of
      `iloc[0]` (an empty group) or of `iloc[idx]` (no row at the offset).
      Every emitted window is followed by at least one more row. */
  function RegionWeeks(g: seq<Row>): (r: Result<seq<Row>>)
    requires Weekable(g)
    ensures |g| == 0 ==> r == Err(IndexError)
    ensures r.Err? ==> r.error == IndexError
    ensures r.Ok? ==> 7 * |r.value| < |g|
  {
    if |g| == 0 then Err(IndexError)
    else
      var idx := AlignmentOffset(FirstWeekday(g));
      if |g| <= idx then Err(IndexError)
      else Ok(Windows(g, idx, (|g| - idx - 1) / 7))
  }

  /** The inner loop of `aggregate_daily_stats_to_weekly` for one group. */
  method AggregateRegion(g: seq<Row>) returns (r: Result<seq<Row>>)
    requires Weekable(g)
    ensures r == RegionWeeks(g)
  {
    if |g| == 0 {
      return Err(IndexError);
    }
    var idx := AlignmentOffset(FirstWeekday(g));
    if |g| <= idx {
      return Err(IndexError);
    }
    var weeks := FoldWeeks(g, idx);
    r := Ok(weeks);
  }

  /** The loop from `iloc[idx]` on: `week_day` counts the rows folded into
      `week_data` after its first, and a full window is appended when the
      next row is read. */
  method FoldWeeks(g: seq<Row>, idx: int) returns (weeks: seq<Row>)
    requires 0 <= idx < |g| && MetricRows(g)
    ensures weeks == Windows(g, idx, (|g| - idx - 1) / 7)
  {
    var weekData := g[idx];
    var weekDay := 0;
    weeks := [];
    ghost var start := idx;
    var j := idx + 1;
    while j < |g|
      invariant idx + 1 <= j <= |g|
      invariant 0 <= weekDay <= 6
      invariant start == idx + 7 * |weeks| && j == start + weekDay + 1
      invariant forall k :: 0 <= k < |weeks| ==> weeks[k] == WindowRow(g, idx + 7 * k, 7)
      invariant weekData == WindowRow(g, start, weekDay + 1)
    {
      var row := g[j];
      if weekDay < 6 {
        weekData := Accumulate(weekData, row);
        weekDay := weekDay + 1;
      } else {
        weeks := weeks + [weekData];
        weekDay := 0;
        weekData := row;
        start := j;
      }
      j := j + 1;
    }
    WeekCount(|g| - idx - 1, |weeks|, weekDay);
  }

  lemma WeekCount(m: int, n: int, rest: int)
    requires m == 7 * n + rest && 0 <= rest < 7
    ensures m / 7 == n
  {
  }

  lemma GroupIsDaily(rows: seq<Row>, code: string)
    requires DailyRows(rows)
    ensures Weekable(Group(rows, code))
  {
  }

  /** The weekly rows of region `code`'s group. */
  function GroupWeeks(rows: seq<Row>, code: string): Result<seq<Row>>
    requires DailyRows(rows)
  {
    GroupIsDaily(rows, code);
    RegionWeeks(Group(rows, code))
  }

  /** The weekly rows of the groups of `codes`, group after group; the first
      group that raises stops the whole computation. */
  function WeeklyRows(rows: seq<Row>, codes: seq<string>): Result<seq<Row>>
    requires DailyRows(rows)
  {
    if codes == [] then Ok([])
    else
      match WeeklyRows(rows, codes[..|codes| - 1])
      case Err(e) => Err(e)
      case Ok(prefix) =>
        match GroupWeeks(rows, codes[|codes| - 1])
        case Err(e) => Err(e)
        case Ok(weeks) => Ok(prefix + weeks)
  }

  /** The value `aggregate_daily_stats_to_weekly(df)` returns or raises:
      the KeyError of `groupby` when the frame has no region column, or a
      group's IndexError; a result keeps the frame's columns. */
  function AggregateWeekly(t: Table): (r: Result<Table>)
    requires DailyRows(t.rows)
    ensures RegionColumn !in t.columns ==> r == Err(KeyError)
    ensures RegionColumn in t.columns && r.Err? ==> r.error == IndexError
    ensures r.Ok? ==> r.value.columns == t.columns
  {
    if RegionColumn !in t.columns then Err(KeyError)
    else
      WeeklyRowsError(t.rows, RegionCodes(t.rows));
      match WeeklyRows(t.rows, RegionCodes(t.rows))
      case Err(e) => Err(e)
      case Ok(rows) => Ok(Table(t.columns, rows))
  }

  /** The only error a group raises is IndexError. */
  lemma {:induction false} WeeklyRowsError(rows: seq<Row>, codes: seq<string>)
    requires DailyRows(rows)
    ensures WeeklyRows(rows, codes).Err? ==> WeeklyRows(rows, codes).error == IndexError
  {
    if codes != [] {
      WeeklyRowsError(rows, codes[..|codes| - 1]);
    }
  }

  /** `aggregate_daily_stats_to_weekly`: raises at `groupby` without a
      region column, and otherwise runs the loop over the groups. */
  method AggregateDailyStatsToWeekly(t: Table) returns (r: Result<Table>)
    requires RegionsTyped(t.rows) && DailyRows(t.rows)
    ensures r == AggregateWeekly(t)
  {
    if RegionColumn !in t.columns {
      return Err(KeyError);
    }
    var weekly := AggregateGroups(t.rows);
    r := match weekly case Err(e) => Err(e) case Ok(rows) => Ok(Table(t.columns, rows));
  }

  /** The loop over the groups, growing the result by appending each
      group's weekly rows; the first group that raises ends it. */
  method AggregateGroups(rows: seq<Row>) returns (r: Result<seq<Row>>)
    requires RegionsTyped(rows) && DailyRows(rows)
    ensures r == WeeklyRows(rows, RegionCodes(rows))
  {
    var codes := RegionCodes(rows);
    var aggregated: seq<Row> := [];
    var k := 0;
    while k < |codes|
      invariant 0 <= k <= |codes|
      invariant WeeklyRows(rows, codes[..k]) == Ok(aggregated)
    {
      var g := Group(rows, codes[k]);
      GroupIsDaily(rows, codes[k]);
      var weeks := AggregateRegion(g);
      WeeklyRowsStep(rows, codes, k);
      if weeks.Err? {
        PrefixError(rows, codes, k + 1);
        return Err(weeks.error);
      }
      aggregated := aggregated + weeks.value;
      k := k + 1;
    }
    assert codes[..k] == codes;
    r := Ok(aggregated);
  }

  lemma WeeklyRowsStep(rows: seq<Row>, codes: seq<string>, k: int)
    requires DailyRows(rows) && 0 <= k < |codes|
    ensures WeeklyRows(rows, codes[..k + 1])
            == match WeeklyRows(rows, codes[..k])
               case Err(e) => Err(e)
               case Ok(prefix) =>
                 match GroupWeeks(rows, codes[k])
                 case Err(e) => Err(e)
                 case Ok(weeks) => Ok(prefix + weeks)
  {
    assert codes[..k + 1][..k] == codes[..k];
  }

  /** An error in the groups of a prefix of `codes` is the error of all. */
  lemma {:induction false} PrefixError(rows: seq<Row>, codes: seq<string>, k: nat)
    requires DailyRows(rows) && k <= |codes| && WeeklyRows(rows, codes[..k]).Err?
    ensures WeeklyRows(rows, codes) == WeeklyRows(rows, codes[..k])
    decreases |codes| - k
  {
    if k < |codes| {
      assert codes[..k + 1][..k] == codes[..k];
      PrefixError(rows, codes, k + 1);
    } else {
      assert codes[..k] == codes;
    }
  }

  // ---- Properties of one region's weekly rows ----

  /** A group raises IndexError exactly when it has no row at the offset;
      otherwise it yields floor((n - idx - 1) / 7) rows, and the rows after
      the last emitted window, between one and seven of them, yield
      nothing. */
  lemma RegionWeeksCount(g: seq<Row>)
    requires Weekable(g) && |g| > 0
    ensures var idx := AlignmentOffset(FirstWeekday(g));
      && (RegionWeeks(g).Err? <==> |g| <= idx)
      && (RegionWeeks(g).Ok? ==>
            && |RegionWeeks(g).value| == (|g| - idx - 1) / 7
            && 1 <= |g| - (idx + 7 * |RegionWeeks(g).value|) <= 7)
  {
  }

  /** Each weekly row stands for the seven rows from `idx + 7k` on, all of
      them followed by another row: `hospitalized_new` is their sum,
      `hospitalized_cumulative` the seventh row's value, every other column
      the first row's. */
  lemma WeekContents(g: seq<Row>, k: int)
    requires Weekable(g) && RegionWeeks(g).Ok? && 0 <= k < |RegionWeeks(g).value|
    ensures var s := AlignmentOffset(FirstWeekday(g)) + 7 * k;
      var w := RegionWeeks(g).value[k];
      && s + 7 < |g|
      && w.Keys == g[s].Keys
      && w[NewColumn] == WindowSum(g, s, 7)
      && w[CumulativeColumn] == g[s + 6][CumulativeColumn]
      && forall c :: c in g[s] && c != NewColumn && c != CumulativeColumn ==> w[c] == g[s][c]
  {
  }

  /** The rows before the offset take no part: two groups of the same
      length whose first dates fall on the same weekday and that agree from
      the offset on have the same weekly rows. */
  lemma LeadingRowsIgnored(g: seq<Row>, h: seq<Row>)
    requires Weekable(g) && Weekable(h) && |g| == |h| && |g| > 0
    requires FirstWeekday(g) == FirstWeekday(h)
    requires forall i :: AlignmentOffset(FirstWeekday(g)) <= i < |g| ==> g[i] == h[i]
    ensures RegionWeeks(g) == RegionWeeks(h)
  {
    var idx := AlignmentOffset(FirstWeekday(g));
    if idx < |g| {
      var n := (|g| - idx - 1) / 7;
      forall k | 0 <= k < n
        ensures WindowRow(g, idx + 7 * k, 7) == WindowRow(h, idx + 7 * k, 7)
      {
        SameSum(g, h, idx + 7 * k, 7);
      }
      assert Windows(g, idx, n) == Windows(h, idx, n);
    }
  }

  lemma {:induction false} SameSum(g: seq<Row>, h: seq<Row>, s: int, len: int)
    requires MetricRows(g) && MetricRows(h) && 0 <= s && 1 <= len && s + len <= |g| == |h|
    requires forall i :: s <= i < s + len ==> g[i] == h[i]
    ensures WindowSum(g, s, len) == WindowSum(h, s, len)
    decreases len
  {
    if len > 1 {
      SameSum(g, h, s, len - 1);
    }
  }

  /** NaN propagates through the weekly sum: it is null iff some day's
      `hospitalized_new` is null, and otherwise the integer total. */
  lemma {:induction false} WindowSumMeaning(g: seq<Row>, s: int, len: int)
    requires 0 <= s && 1 <= len && s + len <= |g| && MetricRows(g)
    ensures WindowSum(g, s, len).Null? <==> exists i :: s <= i < s + len && g[i][NewColumn].Null?
    ensures WindowSum(g, s, len).Num? ==> WindowSum(g, s, len).n == NewTotal(g[s..s + len])
    decreases len
  {
    var w := g[s..s + len];
    if len == 1 {
      assert w[..0] == [];
    } else {
      WindowSumMeaning(g, s, len - 1);
      assert w[..len - 1] == g[s..s + len - 1];
    }
  }

  /** Fourteen consecutive days from Monday 6 January 2020, one new case a
      day and the cumulative count running 1..14, give ONE weekly row
      (7 new, cumulative 7): the second week is complete but is never
      appended. */
  lemma FourteenDaysFromMonday(g: seq<Row>)
    requires |g| == 14 && MetricRows(g) && Cell(g[0], DateColumn) == Str("2020-01-06")
    requires forall i :: 0 <= i < 14 ==> g[i][NewColumn] == Num(1) && g[i][CumulativeColumn] == Num(i + 1)
    ensures Weekable(g)
    ensures RegionWeeks(g).Ok? && |RegionWeeks(g).value| == 1
    ensures Cell(RegionWeeks(g).value[0], NewColumn) == Num(7)
    ensures Cell(RegionWeeks(g).value[0], CumulativeColumn) == Num(7)
  {
    StartsOnMonday(g);
    OneCaseADay(g);
    assert RegionWeeks(g).value[0] == WindowRow(g, 0, 7);
  }

  lemma StartsOnMonday(g: seq<Row>)
    requires |g| > 0 && Cell(g[0], DateColumn) == Str("2020-01-06")
    ensures Dated(g[0]) && FirstWeekday(g) == 0
  {
    Calendar.FirstMondayOf2020();
  }

  lemma OneCaseADay(g: seq<Row>)
    requires |g| >= 7 && MetricRows(g)
    requires forall i :: 0 <= i < 7 ==> g[i][NewColumn] == Num(1) && g[i][CumulativeColumn] == Num(i + 1)
    ensures Cell(WindowRow(g, 0, 7), NewColumn) == Num(7)
    ensures Cell(WindowRow(g, 0, 7), CumulativeColumn) == Num(7)
  {
    var week := g[0..7];
    forall i | 0 <= i < 7
      ensures Cell(week[i], NewColumn) == Num(1) && !g[i][NewColumn].Null?
    {
      assert week[i] == g[i];
    }
    NewTotalOfOnes(week);
    WindowSumMeaning(g, 0, 7);
  }

  lemma {:induction false} NewTotalOfOnes(rows: seq<Row>)
    requires forall i :: 0 <= i < |rows| ==> Cell(rows[i], NewColumn) == Num(1)
    ensures NewTotal(rows) == |rows|
  {
    if rows != [] {
      NewTotalOfOnes(rows[..|rows| - 1]);
    }
  }

  // ---- Properties of the whole frame's weekly rows ----

  /** A weekly row keeps the cells of the window's first row outside the two
      metrics, so it keeps its region code. */
  lemma RegionWeeksRegion(g: seq<Row>, code: string)
    requires Weekable(g) && RegionWeeks(g).Ok?
    requires forall i :: 0 <= i < |g| ==> RegionOf(g[i]) == Some(code)
    ensures forall i :: 0 <= i < |RegionWeeks(g).value| ==> RegionOf(RegionWeeks(g).value[i]) == Some(code)
  {
    var w := RegionWeeks(g).value;
    forall i | 0 <= i < |w|
      ensures RegionOf(w[i]) == Some(code)
    {
      WeekContents(g, i);
      var s := AlignmentOffset(FirstWeekday(g)) + 7 * i;
      assert Cell(w[i], RegionColumn) == Cell(g[s], RegionColumn);
    }
  }

  /** ... and it keeps the window's first row's set of columns. */
  lemma RegionWeeksKeys(g: seq<Row>, keys: set<string>)
    requires Weekable(g) && RegionWeeks(g).Ok?
    requires forall i :: 0 <= i < |g| ==> g[i].Keys == keys
    ensures forall i :: 0 <= i < |RegionWeeks(g).value| ==> RegionWeeks(g).value[i].Keys == keys
  {
    var w := RegionWeeks(g).value;
    forall i | 0 <= i < |w|
      ensures w[i].Keys == keys
    {
      WeekContents(g, i);
    }
  }

  /** The weekly rows fail exactly when some group among `codes` fails. */
  lemma {:induction false} WeeklyRowsFail(rows: seq<Row>, codes: seq<string>)
    requires DailyRows(rows)
    ensures WeeklyRows(rows, codes).Err?
        <==> exists c :: c in codes && GroupWeeks(rows, c).Err?
  {
    if codes != [] {
      var init := codes[..|codes| - 1];
      WeeklyRowsFail(rows, init);
      SplitLast(codes);
    }
  }

  /** A successful run over `codes` is the run over all codes but the last,
      followed by the last group's weekly rows. */
  lemma WeeklyRowsSplit(rows: seq<Row>, codes: seq<string>)
    requires DailyRows(rows) && codes != [] && WeeklyRows(rows, codes).Ok?
    ensures WeeklyRows(rows, codes[..|codes| - 1]).Ok?
    ensures RegionWeeks(Group(rows, codes[|codes| - 1])).Ok?
    ensures WeeklyRows(rows, codes).value
            == WeeklyRows(rows, codes[..|codes| - 1]).value + RegionWeeks(Group(rows, codes[|codes| - 1])).value
  {
    GroupIsDaily(rows, codes[|codes| - 1]);
  }

  /** When no group fails, the result is ordered by region code and holds
      only rows of regions among `codes`. */
  lemma {:induction false} WeeklyRowsOrdered(rows: seq<Row>, codes: seq<string>)
    requires DailyRows(rows) && StrictlyAscending(codes) && WeeklyRows(rows, codes).Ok?
    ensures var out := WeeklyRows(rows, codes).value;
      && RegionOrdered(out)
      && forall i :: 0 <= i < |out| ==> RegionOf(out[i]).Some? && RegionOf(out[i]).value in codes
  {
    if codes != [] {
      var init := codes[..|codes| - 1];
      var last := codes[|codes| - 1];
      SplitLast(codes);
      AscendingPrefix(codes, init, last);
      WeeklyRowsSplit(rows, codes);
      WeeklyRowsOrdered(rows, init);
      var prefix := WeeklyRows(rows, init).value;
      var g := Group(rows, last);
      GroupIsDaily(rows, last);
      var chunk := RegionWeeks(g).value;
      RegionWeeksRegion(g, last);
      AppendRegionOrdered(prefix, init, chunk, last);
    }
  }

  /** When no group fails and all rows have the same columns, so do the
      weekly rows. */
  lemma {:induction false} WeeklyRowsKeys(rows: seq<Row>, codes: seq<string>, keys: set<string>)
    requires DailyRows(rows) && WeeklyRows(rows, codes).Ok?
    requires forall i :: 0 <= i < |rows| ==> rows[i].Keys == keys
    ensures forall i :: 0 <= i < |WeeklyRows(rows, codes).value| ==> WeeklyRows(rows, codes).value[i].Keys == keys
  {
    if codes != [] {
      var init := codes[..|codes| - 1];
      var last := codes[|codes| - 1];
      WeeklyRowsSplit(rows, codes);
      WeeklyRowsKeys(rows, init, keys);
      var prefix := WeeklyRows(rows, init).value;
      var g := Group(rows, last);
      GroupIsDaily(rows, last);
      var chunk := RegionWeeks(g).value;
      RegionWeeksKeys(g, keys);
      var out := prefix + chunk;
      forall i | 0 <= i < |out|
        ensures out[i].Keys == keys
      {
        if i < |prefix| {
          assert out[i] == prefix[i];
        } else {
          assert out[i] == chunk[i - |prefix|];
        }
      }
    }
  }

  /** Restricted to one region, the result is that region's own weekly
      rows when the region is among `codes`, and nothing otherwise. */
  lemma {:induction false} WeeklyRowsOfRegion(rows: seq<Row>, codes: seq<string>, code: string)
    requires DailyRows(rows) && StrictlyAscending(codes) && WeeklyRows(rows, codes).Ok?
    ensures code in codes ==> GroupWeeks(rows, code).Ok?
    ensures Group(WeeklyRows(rows, codes).value, code)
            == if code in codes then GroupWeeks(rows, code).value else []
  {
    GroupIsDaily(rows, code);
    if codes != [] {
      var init := codes[..|codes| - 1];
      var last := codes[|codes| - 1];
      SplitLast(codes);
      AscendingPrefix(codes, init, last);
      WeeklyRowsSplit(rows, codes);
      WeeklyRowsOfRegion(rows, init, code);
      var prefix := WeeklyRows(rows, init).value;
      var g := Group(rows, last);
      GroupIsDaily(rows, last);
      var chunk := RegionWeeks(g).value;
      RegionWeeksRegion(g, last);
      GroupOfConcat(prefix, chunk, code);
      GroupOfUniform(chunk, last, code);
      if code == last {
        assert Group(prefix, code) == [];
      } else {
        assert code in codes <==> code in init;
      }
    }
  }

  /** What the aggregation does to a frame: it raises KeyError exactly when
      the frame has no region column, and IndexError exactly when, with one,
      some region's group has no row at its offset; otherwise the columns
      are the same, the rows are ordered by region code, a well-formed frame
      stays well formed, and each region's rows are exactly that region's
      weekly rows. */
  lemma AggregateWeeklyEffect(t: Table)
    requires DailyRows(t.rows)
    ensures AggregateWeekly(t) == Err(KeyError) <==> RegionColumn !in t.columns
    ensures AggregateWeekly(t) == Err(IndexError)
        <==> RegionColumn in t.columns && exists c :: |Group(t.rows, c)| > 0 && GroupWeeks(t.rows, c).Err?
    ensures AggregateWeekly(t).Ok? ==>
      var out := AggregateWeekly(t).value;
      && out.columns == t.columns
      && RegionOrdered(out.rows)
      && (WellFormed(t) ==> WellFormed(out))
      && forall code :: Group(out.rows, code) == if |Group(t.rows, code)| > 0 then GroupWeeks(t.rows, code).value else []
  {
    var codes := RegionCodes(t.rows);
    WeeklyRowsFail(t.rows, codes);
    if AggregateWeekly(t).Ok? {
      var out := AggregateWeekly(t).value;
      WeeklyRowsOrdered(t.rows, codes);
      if WellFormed(t) {
        WeeklyRowsKeys(t.rows, codes, set c | c in t.columns);
      }
      forall code
        ensures Group(out.rows, code) == if |Group(t.rows, code)| > 0 then GroupWeeks(t.rows, code).value else []
      {
        WeeklyRowsOfRegion(t.rows, codes, code);
      }
    }
  }
}
