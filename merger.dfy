/** `merge_dfs`: gives both frames, in place, an `id` column holding region
    code followed by date, and inner-joins them on it. */
module Merger {
  import opened Tables

  /** `open_covid_region_code + date` for one row: string concatenation, or
      NaN when either cell is NaN. */
  function IdOf(r: Row): (v: Value)
    ensures v.Str? <==> Cell(r, RegionColumn).Str? && Cell(r, DateColumn).Str?
    ensures !v.Str? ==> v.Null?
    ensures v.Str? ==>
      var code, date := Cell(r, RegionColumn).s, Cell(r, DateColumn).s;
      |v.s| == |code| + |date| && v.s[..|code|] == code && v.s[|code|..] == date
  {
    if Cell(r, RegionColumn).Str? && Cell(r, DateColumn).Str?
    then Str(Cell(r, RegionColumn).s + Cell(r, DateColumn).s)
    else Null
  }

  /** Region and date cells that `+` can combine: strings, or NaN. */
  predicate IdReady(rows: seq<Row>)
  {
    forall i :: 0 <= i < |rows| ==>
      (Cell(rows[i], RegionColumn).Str? || Cell(rows[i], RegionColumn).Null?) &&
      (Cell(rows[i], DateColumn).Str? || Cell(rows[i], DateColumn).Null?)
  }

  /** The row with its `id` cell set; every other cell is kept. */
  function AddId(r: Row): (r': Row)
    ensures r'.Keys == r.Keys + {IdColumn}
    ensures r'[IdColumn] == IdOf(r)
    ensures forall c :: c in r && c != IdColumn ==> r'[c] == r[c]
  {
    r[IdColumn := IdOf(r)]
  }

  function AddIds(rows: seq<Row>): (rows': seq<Row>)
    ensures |rows'| == |rows|
    ensures forall i :: 0 <= i < |rows| ==> rows'[i] == AddId(rows[i])
  {
    seq(|rows|, i requires 0 <= i < |rows| => AddId(rows[i]))
  }

  /** `df["id"] = df["open_covid_region_code"] + df["date"]` on a frame's
      value: a new column goes last, an existing one keeps its place. */
  function WithId(t: Table): (u: Table)
    ensures forall c :: c in u.columns <==> c in t.columns || c == IdColumn
    ensures |t.columns| <= |u.columns| && u.columns[..|t.columns|] == t.columns
    ensures |u.rows| == |t.rows|
    ensures forall i :: 0 <= i < |u.rows| ==> Cell(u.rows[i], IdColumn) == IdOf(t.rows[i])
    ensures forall i, c :: 0 <= i < |u.rows| && c != IdColumn ==> Cell(u.rows[i], c) == Cell(t.rows[i], c)
  {
    Table(if IdColumn in t.columns then t.columns else t.columns + [IdColumn], AddIds(t.rows))
  }

  /** Setting the `id` column twice is setting it once: it is built from
      cells that it does not overwrite. */
  lemma WithIdIdempotent(t: Table)
    ensures WithId(WithId(t)) == WithId(t)
  {
    var once := WithId(t);
    forall i | 0 <= i < |t.rows|
      ensures AddId(once.rows[i]) == once.rows[i]
    {
      assert Cell(once.rows[i], RegionColumn) == Cell(t.rows[i], RegionColumn);
      assert Cell(once.rows[i], DateColumn) == Cell(t.rows[i], DateColumn);
    }
  }

  /** The `id` column keeps a frame well formed and keeps its region and
      date cells. */
  lemma WithIdShape(t: Table)
    ensures WellFormed(t) ==> WellFormed(WithId(t))
    ensures IdReady(t.rows) ==> IdReady(WithId(t).rows)
    ensures forall i :: 0 <= i < |t.rows| ==>
      Cell(WithId(t).rows[i], RegionColumn) == Cell(t.rows[i], RegionColumn) &&
      Cell(WithId(t).rows[i], DateColumn) == Cell(t.rows[i], DateColumn)
  {
    var u := WithId(t);
    if WellFormed(t) {
      forall i, j | 0 <= i < j < |u.columns|
        ensures u.columns[i] != u.columns[j]
      {
        if IdColumn !in t.columns && j == |t.columns| {
          assert u.columns[i] == t.columns[i];
        }
      }
      forall i | 0 <= i < |u.rows|
        ensures u.rows[i].Keys == set c | c in u.columns
      {
      }
    }
  }

  /** With `YYYY-MM-DD` dates, equal ids mean the same region and the same
      date. */
  lemma IdIdentifiesRegionAndDate(r: Row, s: Row)
    requires Cell(r, RegionColumn).Str? && Cell(r, DateColumn).Str? && |Cell(r, DateColumn).s| == 10
    requires Cell(s, RegionColumn).Str? && Cell(s, DateColumn).Str? && |Cell(s, DateColumn).s| == 10
    ensures IdOf(r) == IdOf(s) <==>
      Cell(r, RegionColumn) == Cell(s, RegionColumn) && Cell(r, DateColumn) == Cell(s, DateColumn)
  {
    var a, d := Cell(r, RegionColumn).s, Cell(r, DateColumn).s;
    var a', d' := Cell(s, RegionColumn).s, Cell(s, DateColumn).s;
    if IdOf(r) == IdOf(s) {
      assert a + d == a' + d';
      assert |a| == |a'|;
      assert a == (a + d)[..|a|] && a' == (a' + d')[..|a'|];
      assert d == (a + d)[|a|..] && d' == (a' + d')[|a'|..];
    }
  }

  /** A row of the merged frame: the left row and the right row it was
      matched with. */
  datatype MergedRow = MergedRow(left: Row, right: Row)

  /** Equal `id` cells; pandas matches NaN keys with each other. */
  predicate SameId(l: Row, r: Row)
  {
    Cell(l, IdColumn) == Cell(r, IdColumn)
  }

  /** The rows of `b` whose id is `key`. */
  function IdCount(b: seq<Row>, key: Value): (k: nat)
    ensures k <= |b|
  {
    if b == [] then 0
    else IdCount(b[..|b| - 1], key) + (if Cell(b[|b| - 1], IdColumn) == key then 1 else 0)
  }

  /** The left row `l` paired with each row of `b` with the same id, in the
      order of `b`. */
  function Matches(l: Row, b: seq<Row>): (m: seq<MergedRow>)
    ensures |m| == IdCount(b, Cell(l, IdColumn))
    ensures forall x :: x in m ==> x.left == l && x.right in b && SameId(x.left, x.right)
  {
    if b == [] then []
    else
      var r := b[|b| - 1];
      Matches(l, b[..|b| - 1]) + (if SameId(l, r) then [MergedRow(l, r)] else [])
  }

  /** `pd.merge(df1, df2, on="id")` on the rows: every pair of a left row
      and a right row with the same id, left row after left row. */
  function InnerJoin(a: seq<Row>, b: seq<Row>): (m: seq<MergedRow>)
    ensures forall x :: x in m ==> x.left in a && x.right in b && SameId(x.left, x.right)
  {
    if a == [] then []
    else InnerJoin(a[..|a| - 1], b) + Matches(a[|a| - 1], b)
  }

  /** A pair occurs in `Matches(l, b)` once for each copy of its right row
      in `b`, provided it pairs `l` with a row of the same id. */
  lemma {:induction false} MatchesMultiplicity(l: Row, b: seq<Row>, x: MergedRow)
    ensures multiset(Matches(l, b))[x]
            == if x.left == l && SameId(x.left, x.right) then multiset(b)[x.right] else 0
  {
    if b != [] {
      var init := b[..|b| - 1];
      MatchesMultiplicity(l, init, x);
      assert b == init + [b[|b| - 1]];
    }
  }

  /** The join holds each pair of a left and a right row with the same id
      exactly as often as the two rows' copies multiply, and no other
      pair. */
  lemma {:induction false} JoinMultiplicity(a: seq<Row>, b: seq<Row>, x: MergedRow)
    ensures multiset(InnerJoin(a, b))[x]
            == if SameId(x.left, x.right) then multiset(a)[x.left] * multiset(b)[x.right] else 0
  {
    if a != [] {
      var init := a[..|a| - 1];
      var l := a[|a| - 1];
      JoinMultiplicity(init, b, x);
      MatchesMultiplicity(l, b, x);
      JoinStep(a, b, x);
      CountStep(a, x.left);
      if SameId(x.left, x.right) {
        var copies, k := multiset(init)[x.left], multiset(b)[x.right];
        if l == x.left {
          MulSucc(copies, k);
          assert multiset(InnerJoin(a, b))[x] == copies * k + k == (copies + 1) * k;
          assert multiset(a)[x.left] == copies + 1;
        } else {
          assert multiset(InnerJoin(a, b))[x] == copies * k;
          assert multiset(a)[x.left] == copies;
        }
      }
    }
  }

  lemma MulSucc(c: int, k: int)
    ensures (c + 1) * k == c * k + k
  {
  }

  lemma JoinStep(a: seq<Row>, b: seq<Row>, x: MergedRow)
    requires a != []
    ensures multiset(InnerJoin(a, b))[x]
            == multiset(InnerJoin(a[..|a| - 1], b))[x] + multiset(Matches(a[|a| - 1], b))[x]
  {
  }

  lemma CountStep(a: seq<Row>, r: Row)
    requires a != []
    ensures multiset(a)[r] == multiset(a[..|a| - 1])[r] + if a[|a| - 1] == r then 1 else 0
  {
    assert a == a[..|a| - 1] + [a[|a| - 1]];
  }

  /** One more left row adds its `d` copies of the `k` matches. */
  lemma ProductStep(joined: int, before: int, d: int, k: int, count: int)
    requires joined == before * k + d * k && count == before + d
    ensures joined == count * k
  {
    assert (before + d) * k == before * k + d * k;
  }

  /** Number of merged rows whose id is `key`. */
  function JoinedWithId(m: seq<MergedRow>, key: Value): (k: nat)
    ensures k <= |m|
  {
    if m == [] then 0
    else JoinedWithId(m[..|m| - 1], key) + (if Cell(m[|m| - 1].left, IdColumn) == key then 1 else 0)
  }

  lemma {:induction false} JoinedWithIdOfConcat(m: seq<MergedRow>, n: seq<MergedRow>, key: Value)
    ensures JoinedWithId(m + n, key) == JoinedWithId(m, key) + JoinedWithId(n, key)
  {
    if n != [] {
      assert (m + n)[..|m + n| - 1] == m + n[..|n| - 1];
      JoinedWithIdOfConcat(m, n[..|n| - 1], key);
    } else {
      assert m + n == m;
    }
  }

  lemma MatchesWithId(l: Row, b: seq<Row>, key: Value)
    ensures JoinedWithId(Matches(l, b), key) == if Cell(l, IdColumn) == key then IdCount(b, key) else 0
  {
    var m := Matches(l, b);
    if Cell(l, IdColumn) == key {
      AllWithId(m, key);
    } else {
      NoneWithId(m, key);
    }
  }

  lemma {:induction false} AllWithId(m: seq<MergedRow>, key: Value)
    requires forall i :: 0 <= i < |m| ==> Cell(m[i].left, IdColumn) == key
    ensures JoinedWithId(m, key) == |m|
  {
    if m != [] {
      AllWithId(m[..|m| - 1], key);
    }
  }

  lemma {:induction false} NoneWithId(m: seq<MergedRow>, key: Value)
    requires forall i :: 0 <= i < |m| ==> Cell(m[i].left, IdColumn) != key
    ensures JoinedWithId(m, key) == 0
  {
    if m != [] {
      NoneWithId(m[..|m| - 1], key);
    }
  }

  /** For each id, the join has as many rows as the two frames' rows with
      that id multiplied: one for every combination. */
  lemma {:induction false} JoinCountPerId(a: seq<Row>, b: seq<Row>, key: Value)
    ensures JoinedWithId(InnerJoin(a, b), key) == IdCount(a, key) * IdCount(b, key)
  {
    if a != [] {
      var init := a[..|a| - 1];
      var l := a[|a| - 1];
      var d := if Cell(l, IdColumn) == key then 1 else 0;
      var before, k := IdCount(init, key), IdCount(b, key);
      JoinCountPerId(init, b, key);
      JoinedWithIdOfConcat(InnerJoin(init, b), Matches(l, b), key);
      MatchesWithId(l, b, key);
      ProductStep(JoinedWithId(InnerJoin(a, b), key), before, d, k, IdCount(a, key));
    }
  }

  /** Total size: each left row contributes one row per right row with its
      id. */
  function MatchTotal(a: seq<Row>, b: seq<Row>): nat
  {
    if a == [] then 0
    else MatchTotal(a[..|a| - 1], b) + IdCount(b, Cell(a[|a| - 1], IdColumn))
  }

  lemma {:induction false} JoinSize(a: seq<Row>, b: seq<Row>)
    ensures |InnerJoin(a, b)| == MatchTotal(a, b)
  {
    if a != [] {
      JoinSize(a[..|a| - 1], b);
    }
  }

  /** No row of `b` has id `key` exactly when none is counted. */
  lemma {:induction false} IdCountZero(b: seq<Row>, key: Value)
    ensures IdCount(b, key) == 0 <==> forall j :: 0 <= j < |b| ==> Cell(b[j], IdColumn) != key
  {
    if b != [] {
      var init := b[..|b| - 1];
      IdCountZero(init, key);
      assert forall j :: 0 <= j < |init| ==> init[j] == b[j];
    }
  }

  /** The join is empty exactly when no left row shares its id with a right
      row. */
  lemma {:induction false} JoinEmpty(a: seq<Row>, b: seq<Row>)
    ensures InnerJoin(a, b) == [] <==> forall i, j :: 0 <= i < |a| && 0 <= j < |b| ==> !SameId(a[i], b[j])
  {
    if a != [] {
      var init := a[..|a| - 1];
      var l := a[|a| - 1];
      JoinEmpty(init, b);
      IdCountZero(b, Cell(l, IdColumn));
      assert forall i :: 0 <= i < |init| ==> init[i] == a[i];
    }
  }

  /** The columns `df["open_covid_region_code"] + df["date"]` reads; a
      frame without either raises `KeyError`. */
  predicate HasIdSources(t: Table)
  {
    RegionColumn in t.columns && DateColumn in t.columns
  }

  /** `merge_dfs(df1, df2)`: sets the `id` column of both frames in place
      (the same frame given twice gets it once, with the same result) and
      returns their join. `df1` is changed before `df2` is read, so a
      `KeyError` from `df2` leaves `df1` with its new column. */
  method MergeDfs(df1: DataFrame, df2: DataFrame) returns (m: Result<seq<MergedRow>>)
    requires IdReady(df1.rows) && IdReady(df2.rows)
    modifies df1, df2
    ensures m.Err? <==> !HasIdSources(old(df1.Snapshot())) || !HasIdSources(old(df2.Snapshot()))
    ensures m.Err? ==> m.error == KeyError
    ensures df1.Snapshot()
            == if HasIdSources(old(df1.Snapshot())) then WithId(old(df1.Snapshot())) else old(df1.Snapshot())
    ensures df2.Snapshot()
            == if HasIdSources(old(df1.Snapshot())) && HasIdSources(old(df2.Snapshot()))
               then WithId(old(df2.Snapshot())) else old(df2.Snapshot())
    ensures m.Ok? ==> m.value == InnerJoin(df1.rows, df2.rows)
  {
    ghost var t1 := df1.Snapshot();
    if !HasIdSources(df1.Snapshot()) {
      return Err(KeyError);
    }
    var u1 := WithId(df1.Snapshot());
    df1.columns, df1.rows := u1.columns, u1.rows;
    if !HasIdSources(df2.Snapshot()) {
      return Err(KeyError);
    }
    var u2 := WithId(df2.Snapshot());
    df2.columns, df2.rows := u2.columns, u2.rows;
    if df1 == df2 {
      WithIdIdempotent(t1);
    }
    m := Ok(InnerJoin(df1.rows, df2.rows));
  }
}
