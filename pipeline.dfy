/** `load_raw_data` and `load_processed_data`: a raw table is read once and
    kept in a cache; a processed table is built once from the raw one (clean
    the columns, then filter the regions, and for files other than the
    symptom search trends also aggregate to weeks) and kept in a cache of its
    own. The caches are the `.pkl` files, keyed by file name. */
module Pipeline {
  import opened Tables
  import opened Grouping
  import opened ColumnCleaner
  import opened RegionFilter
  import opened WeeklyAggregator

  /** The default `threshold` of both cleaners. */
  const Threshold: real := 0.5

  /** The marker of the symptom search-trend files. */
  const SymptomMarker: string := "symptom"

  /** Python's `sub in s` on strings. */
  function ContainsSub(s: string, sub: string): (b: bool)
    ensures b ==> |sub| <= |s|
    ensures |sub| <= |s| && s[..|sub|] == sub ==> b
    decreases |s|
  {
    if |s| < |sub| then false
    else if s[..|sub|] == sub then true
    else ContainsSub(s[1..], sub)
  }

  /** `sub` occurs in `s` at position `i`. */
  predicate OccursAt(s: string, sub: string, i: int)
  {
    0 <= i && i + |sub| <= |s| && s[i..i + |sub|] == sub
  }

  /** A window of `s[1..]` is the window of `s` one place to the right. */
  lemma TailWindow(s: string, i: int, len: int)
    requires 1 <= i && 0 <= len && i + len <= |s|
    ensures s[i..i + len] == s[1..][i - 1..i - 1 + len]
  {
  }

  /** `sub in s` holds exactly when `sub` occurs at some position of `s`. */
  lemma {:induction false} ContainsSubMeaning(s: string, sub: string)
    ensures ContainsSub(s, sub) <==> exists i :: OccursAt(s, sub, i)
    decreases |s|
  {
    if |s| < |sub| {
      forall i
        ensures !OccursAt(s, sub, i)
      {
      }
    } else if s[..|sub|] == sub {
      assert OccursAt(s, sub, 0);
    } else {
      ContainsSubMeaning(s[1..], sub);
      if ContainsSub(s, sub) {
        var i :| OccursAt(s[1..], sub, i);
        TailWindow(s, i + 1, |sub|);
        assert OccursAt(s, sub, i + 1);
      } else {
        forall i
          ensures !OccursAt(s, sub, i)
        {
          if i > 0 && i + |sub| <= |s| {
            TailWindow(s, i, |sub|);
            assert !OccursAt(s[1..], sub, i - 1);
          }
        }
      }
    }
  }

  predicate IsSymptomFile(name: string)
  {
    ContainsSub(name, SymptomMarker)
  }

  /** What the hospitalisation branch needs from a raw table: the three
      columns it reads, dated metric rows, and metric columns dense enough
      to survive the column cleaner (otherwise pandas raises a KeyError,
      which is not modelled). */
  predicate HospitalReady(raw: Table)
  {
    && NewColumn in raw.columns && CumulativeColumn in raw.columns && DateColumn in raw.columns
    && DailyRows(raw.rows)
    && (|raw.rows| > 0 ==> Survives(raw, Threshold, NewColumn) && Survives(raw, Threshold, CumulativeColumn))
  }

  predicate Ready(name: string, raw: Table)
  {
    RegionsTyped(raw.rows) && (!IsSymptomFile(name) ==> HospitalReady(raw))
  }

  /** If every row has a value in column `c`, the column count is the row
      count. */
  lemma {:induction false} ColumnCountFull(rows: seq<Row>, c: string)
    requires forall i :: 0 <= i < |rows| ==> Cell(rows[i], c) != Null
    ensures ColumnCount(rows, c) == |rows|
  {
    if rows != [] {
      ColumnCountFull(rows[..|rows| - 1], c);
    }
  }

  /** Column cleaning keeps region cells sortable. */
  lemma CleanedTyped(raw: Table)
    requires RegionsTyped(raw.rows)
    ensures RegionsTyped(CleanColumns(raw, Threshold).rows)
  {
    CleanColumnsEffect(raw, Threshold);
    var r := CleanColumns(raw, Threshold);
    forall i | 0 <= i < |r.rows|
      ensures Cell(r.rows[i], RegionColumn).Str? || Cell(r.rows[i], RegionColumn).Null?
    {
      if RegionColumn !in r.columns {
        assert RegionColumn !in r.rows[i];
      }
    }
  }

  /** Column cleaning keeps what the weekly aggregation reads: the metric
      columns are dense enough and the dates are never null. */
  lemma CleanedDaily(raw: Table)
    requires HospitalReady(raw)
    ensures DailyRows(CleanColumns(raw, Threshold).rows)
  {
    CleanColumnsEffect(raw, Threshold);
    var r := CleanColumns(raw, Threshold);
    if |raw.rows| > 0 {
      forall i | 0 <= i < |raw.rows|
        ensures Cell(raw.rows[i], DateColumn) != Null
      {
        assert Dated(raw.rows[i]);
      }
      ColumnCountFull(raw.rows, DateColumn);
      assert Survives(raw, Threshold, DateColumn);
      forall i | 0 <= i < |r.rows|
        ensures MetricRow(r.rows[i]) && Dated(r.rows[i])
      {
        assert MetricRow(raw.rows[i]) && Dated(raw.rows[i]);
        assert Cell(r.rows[i], NewColumn) == Cell(raw.rows[i], NewColumn);
        assert Cell(r.rows[i], DateColumn) == Cell(raw.rows[i], DateColumn);
      }
    }
  }

  /** Region filtering keeps only input rows, so it keeps what the weekly
      aggregation reads. */
  lemma FilteredDaily(t: Table, dropna: bool)
    requires DailyRows(t.rows) && RegionColumn in t.columns
    ensures FilterRegions(t, Threshold, dropna).Ok?
    ensures DailyRows(FilterRegions(t, Threshold, dropna).value.rows)
    ensures RegionsTyped(FilterRegions(t, Threshold, dropna).value.rows)
  {
    KeptRowsOrdered(t.rows, t.columns, RegionCodes(t.rows), Threshold, dropna);
    var out := FilterRegions(t, Threshold, dropna).value.rows;
    forall i | 0 <= i < |out|
      ensures MetricRow(out[i]) && Dated(out[i])
    {
      var j :| 0 <= j < |t.rows| && t.rows[j] == out[i];
      assert MetricRow(t.rows[j]) && Dated(t.rows[j]);
    }
  }

  /** The column-cleaned raw table: what the region filter sees. */
  function Cleaned(raw: Table): (c: Table)
    ensures c == CleanColumns(raw, Threshold)
    ensures HospitalReady(raw) ==> DailyRows(c.rows)
  {
    if HospitalReady(raw) then CleanedDaily(raw); CleanColumns(raw, Threshold)
    else CleanColumns(raw, Threshold)
  }

  /** The region column outlives column cleaning exactly when the raw
      table has it with at least half of its cells set; an empty table
      loses every column, so grouping it by region raises `KeyError`. */
  lemma RegionColumnKept(raw: Table)
    ensures RegionColumn in Cleaned(raw).columns <==> RegionColumn in raw.columns && Survives(raw, Threshold, RegionColumn)
    ensures |raw.rows| == 0 ==> Cleaned(raw).columns == []
  {
    CleanColumnsEffect(raw, Threshold);
  }

  /** The hospitalisation table after the zero rule, when the cleaned
      table still has its region column: what the weekly aggregation
      sees. */
  function ZeroFiltered(raw: Table): (k: Table)
    requires HospitalReady(raw) && RegionColumn in Cleaned(raw).columns
    ensures Ok(k) == FilterRegions(Cleaned(raw), Threshold, false)
    ensures DailyRows(k.rows)
  {
    FilteredDaily(Cleaned(raw), false);
    FilterRegions(Cleaned(raw), Threshold, false).value
  }

  /** What `load_processed_data` builds from a raw table on a cache miss:
      `KeyError` when column cleaning dropped the region column, otherwise a
      symptom table always, and any other table unless the weekly
      aggregation raises `IndexError`. */
  function ProcessRaw(name: string, raw: Table): (r: Result<Table>)
    requires Ready(name, raw)
    ensures RegionColumn !in Cleaned(raw).columns ==> r == Err(KeyError)
    ensures IsSymptomFile(name) && RegionColumn in Cleaned(raw).columns ==> r.Ok?
    ensures RegionColumn in Cleaned(raw).columns && r.Err? ==> r.error == IndexError
    ensures r.Ok? ==> r.value.columns == Cleaned(raw).columns
  {
    if IsSymptomFile(name) then FilterRegions(Cleaned(raw), Threshold, true)
    else match FilterRegions(Cleaned(raw), Threshold, false)
      case Err(e) => Err(e)
      case Ok(_) => AggregateWeekly(ZeroFiltered(raw))
  }

  /** A symptom file is cleaned by columns and then by the density rule,
      never aggregated: each region keeps all its cleaned rows or none,
      and every row is a row of the column-cleaned table. */
  lemma SymptomProcessing(name: string, raw: Table)
    requires Ready(name, raw) && IsSymptomFile(name)
    ensures ProcessRaw(name, raw) == Err(KeyError) <==> RegionColumn !in Cleaned(raw).columns
    ensures ProcessRaw(name, raw).Ok? ==> var cleaned := Cleaned(raw);
      var out := ProcessRaw(name, raw).value;
      && (forall i :: 0 <= i < |out.rows| ==> out.rows[i] in cleaned.rows)
      && forall code :: Group(out.rows, code)
           == if |Group(cleaned.rows, code)| > 0 && KeepByDensity(Group(cleaned.rows, code), cleaned.columns, Threshold)
              then Group(cleaned.rows, code) else []
  {
    FilterRegionsEffect(Cleaned(raw), Threshold, true);
  }

  /** Any other file is cleaned by columns, filtered by the zero rule, and
      aggregated to weeks: it raises `KeyError` exactly when cleaning
      dropped the region column, `IndexError` exactly when a surviving
      region has no row at its offset, and otherwise each region's rows are the weekly
      rows of its cleaned rows if the region passes the zero rule, and
      nothing if it does not. */
  lemma HospitalProcessing(name: string, raw: Table)
    requires Ready(name, raw) && !IsSymptomFile(name)
    ensures ProcessRaw(name, raw) == Err(KeyError) <==> RegionColumn !in Cleaned(raw).columns
    ensures RegionColumn in Cleaned(raw).columns ==> var kept := ZeroFiltered(raw);
      ProcessRaw(name, raw).Err? <==> exists c :: |Group(kept.rows, c)| > 0 && GroupWeeks(kept.rows, c).Err?
    ensures ProcessRaw(name, raw).Ok? ==> forall code ::
      Ok(Group(ProcessRaw(name, raw).value.rows, code))
      == if |Group(Cleaned(raw).rows, code)| > 0 && KeepByZeros(Group(Cleaned(raw).rows, code), Cleaned(raw).columns)
         then GroupWeeks(Cleaned(raw).rows, code) else Ok([])
  {
    if RegionColumn !in Cleaned(raw).columns {
      return;
    }
    var kept := ZeroFiltered(raw);
    WeeklyRowsFail(kept.rows, RegionCodes(kept.rows));
    if ProcessRaw(name, raw).Ok? {
      forall code
        ensures Ok(Group(ProcessRaw(name, raw).value.rows, code))
             == if |Group(Cleaned(raw).rows, code)| > 0 && KeepByZeros(Group(Cleaned(raw).rows, code), Cleaned(raw).columns)
                then GroupWeeks(Cleaned(raw).rows, code) else Ok([])
      {
        HospitalRegion(raw, code);
      }
    }
  }

  lemma HospitalRegion(raw: Table, code: string)
    requires HospitalReady(raw) && RegionColumn in Cleaned(raw).columns && AggregateWeekly(ZeroFiltered(raw)).Ok?
    ensures Ok(Group(AggregateWeekly(ZeroFiltered(raw)).value.rows, code))
            == if |Group(Cleaned(raw).rows, code)| > 0 && KeepByZeros(Group(Cleaned(raw).rows, code), Cleaned(raw).columns)
               then GroupWeeks(Cleaned(raw).rows, code) else Ok([])
  {
    var cleaned := Cleaned(raw);
    var kept := ZeroFiltered(raw);
    KeptRowsOfRegion(cleaned.rows, cleaned.columns, RegionCodes(cleaned.rows), Threshold, false, code);
    WeeklyRowsOfRegion(kept.rows, RegionCodes(kept.rows), code);
  }

  /** The build step of `load_processed_data`: clean the frame's columns
      in place, then filter its regions, and aggregate unless it is a
      symptom file. */
  method Process(name: string, raw: Table) returns (r: Result<Table>)
    requires Ready(name, raw)
    ensures r == ProcessRaw(name, raw)
  {
    var df := new DataFrame(raw);
    CleanByColumns(df, Threshold);
    var cleaned := df.Snapshot();
    assert cleaned == Cleaned(raw);
    CleanedTyped(raw);
    if ContainsSub(name, SymptomMarker) {
      r := CleanByRegion(cleaned, Threshold, true);
    } else {
      var kept := CleanByRegion(cleaned, Threshold, false);
      if kept.Err? {
        return kept;
      }
      FilteredDaily(cleaned, false);
      assert kept.value == ZeroFiltered(raw);
      r := AggregateDailyStatsToWeekly(kept.value);
    }
  }

  /** Where `load_raw_data` finds a table: its pickle if there is one,
      otherwise the CSV file. */
  function RawSource(sources: map<string, Table>, rawCache: map<string, Table>, name: string): (r: Result<Table>)
    ensures r.Err? <==> name !in rawCache && name !in sources
    ensures name in rawCache ==> r == Ok(rawCache[name])
  {
    if name in rawCache then Ok(rawCache[name])
    else if name in sources then Ok(sources[name])
    else Err(NotFound)
  }

  /** The file system under the data directory: the raw CSV files, the raw
      pickles, and the processed pickles, each keyed by file name. */
  class DataStore {
    var sources: map<string, Table>
    var rawCache: map<string, Table>
    var processedCache: map<string, Table>

    constructor (csvFiles: map<string, Table>)
      ensures sources == csvFiles && rawCache == map[] && processedCache == map[]
    {
      sources := csvFiles;
      rawCache := map[];
      processedCache := map[];
    }

    /** The raw table a load of `name` would give now. */
    function RawTable(name: string): Result<Table>
      reads this
    {
      RawSource(sources, rawCache, name)
    }

    /** The raw table `name` would be processed from is one the pipeline can
        process. */
    predicate Loadable(name: string)
      reads this
    {
      RawTable(name).Ok? ==> Ready(name, RawTable(name).value)
    }

    /** `load_raw_data(name)`: a missing pickle is written from the CSV
        file first; the table comes from the pickle. */
    method LoadRawData(name: string) returns (r: Result<Table>)
      modifies this
      ensures r == old(RawTable(name))
      ensures rawCache == if r.Ok? then old(rawCache)[name := r.value] else old(rawCache)
      ensures sources == old(sources) && processedCache == old(processedCache)
    {
      if name !in rawCache {
        if name !in sources {
          return Err(NotFound);
        }
        rawCache := rawCache[name := sources[name]];
      }
      r := Ok(rawCache[name]);
    }

    /** `load_processed_data(name)`: a missing processed pickle is built
        from the raw table and written; a build that raises writes nothing
        (the raw pickle written on the way stays). */
    method LoadProcessedData(name: string) returns (r: Result<Table>)
      requires name !in processedCache ==> Loadable(name)
      modifies this
      ensures name in old(processedCache) ==> r == Ok(old(processedCache)[name]) && unchanged(this)
      ensures name !in old(processedCache) ==>
        && r == (match old(RawTable(name)) case Err(e) => Err(e) case Ok(raw) => ProcessRaw(name, raw))
        && processedCache == (if r.Ok? then old(processedCache)[name := r.value] else old(processedCache))
        && rawCache == (if old(RawTable(name)).Ok? then old(rawCache)[name := old(RawTable(name)).value] else old(rawCache))
      ensures sources == old(sources)
    {
      if name in processedCache {
        return Ok(processedCache[name]);
      }
      var loaded := LoadRawData(name);
      if loaded.Err? {
        return Err(loaded.error);
      }
      var processed := Process(name, loaded.value);
      if processed.Err? {
        return processed;
      }
      processedCache := processedCache[name := processed.value];
      r := processed;
    }
  }

  /** Loading twice gives what loading once gives: the second load is
      served from the processed pickle the first one wrote, or, when the
      first failed, fails in the same way on the same raw table. */
  method LoadProcessedTwice(store: DataStore, name: string) returns (first: Result<Table>, second: Result<Table>)
    requires name !in store.processedCache ==> store.Loadable(name)
    modifies store
    ensures second == first
  {
    first := store.LoadProcessedData(name);
    second := store.LoadProcessedData(name);
  }
}
