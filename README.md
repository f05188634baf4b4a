# covid-analysis data processing, modelled in Dafny

This project models `data/data_process.py` of the covid-analysis repository.
The script turns two Google COVID-19 open data sets into analysis tables:

- daily hospitalisation counts per region (`aggregated_cc_by_us`);
- weekly symptom search trends per region (`2020_US_weekly_symptoms_dataset_v003`).

The model covers five parts of the script:

- **Column cleaner** (`clean_df_by_columns`). It drops the columns that hold no value at all. It then drops the columns with fewer non-null cells than `rows * threshold`.
- **Region filter** (`clean_df_by_region`). It visits the region groups in ascending region code. It keeps or drops each region whole, by one of two rules:
  - the density rule: more than 60% of the group's rows have at least `group_rows * threshold` non-null cells;
  - the zero rule: fewer than 60% of the group's rows have exactly two cells equal to 0.
- **Weekly aggregator** (`aggregate_daily_stats_to_weekly`). For each region, it skips to the first Monday. It then folds every seven daily rows into one weekly row: `hospitalized_new` is summed; `hospitalized_cumulative` is taken from the seventh day. A window is appended only when the loop reads the row after it, and nothing is appended after the loop. So a region yields floor((n - idx - 1) / 7) weekly rows, and 14 days from a Monday give one row (`RegionWeeksCount`, `FourteenDaysFromMonday`).
- **Merger** (`merge_dfs`). It gives both frames an `id` column holding region code followed by date, and inner-joins them on `id`.
- **Loaders** (`load_raw_data`, `load_processed_data`). Both cache the tables they build, keyed by file name. A processed table is built by cleaning columns first. A symptom file then gets only the density rule. Any other file gets the zero rule, then weekly aggregation.

The errors the core raises are modelled as results:

- `KeyError` when `groupby` or `df[...]` names a column the frame does not have. The column cleaner drops every column of an empty table, and the region column of a table where it is set in fewer than half of the rows. Such a table then has no region column.
- `IndexError` when a region has no row at its Monday offset.
- a missing raw file.

## How the model is organised

- **Data model** (`tables.dfy`). A table is a list of column names and a sequence of rows. A row maps column names to cells: `Null` (pandas' NaN), `Num(int)` or `Str(string)`. `DataFrame` is a class with `columns` and `rows` fields, for the operations that change a frame in place.
- **`groupby`** (`grouping.dfy`). Groups are modelled as the region codes in ascending order, compared code point by code point as Python compares strings. Each group keeps the frame's row order. Rows with a null region code belong to no group.
- **Dates** (`calendar.dfy`). `strptime(date, "%Y-%m-%d").weekday()` is modelled on dates written `YYYY-MM-DD`, the extended calendar date form of section 4.1.2.2 of ISO 8601:2004. The weekday comes from a proleptic Gregorian days-from-civil count, numbered Monday = 0 as Python does. It is proved to step along consecutive days, and 6 January 2020 is proved to be a Monday.
- **Imperative operations.** Each one is a method proved against a specification function:
  - `CleanByColumns` updates a `DataFrame` in place;
  - `CleanByRegion` and `AggregateDailyStatsToWeekly` check for the region column, then run the source's group loops, `KeepRegions` and `AggregateGroups`; `FoldWeeks` is the week loop inside a group. The loops carry their invariants;
  - `MergeDfs` writes `id` into both frames;
  - `DataStore.LoadRawData` and `DataStore.LoadProcessedData` update the caches, which are map fields of a `DataStore` object.

  Lemmas about the specification functions state what the source promises.

## Model

| member | source | states |
|---|---|---|
| Tables.NonNullCount | data/data_process.py:42 | the number of non-null cells of a row over the given columns is at most the number of columns |
| Tables.ZeroCount | data/data_process.py:47 | the number of cells equal to the number 0 is at most the number of non-null cells, and so at most the number of columns |
| Tables.ColumnCount | data/data_process.py:31-33 | a column's non-null count is at most the number of rows |
| Tables.DataFrame.constructor | data/data_process.py:72 | a frame built from a table holds exactly that table |
| Grouping.Group | data/data_process.py:12 | a region's group is no longer than the frame, and every row of it is a frame row with that region code |
| Grouping.RegionCodes | data/data_process.py:12 | the codes `groupby` visits are strictly ascending, and a code is visited iff its group is non-empty |
| Grouping.GroupOfConcat | data/data_process.py:44 | grouping distributes over concatenation, so a concatenated result can be grouped region by region |
| Grouping.GroupOfGroup | data/data_process.py:39 | regrouping one region's group by a code gives that group back for the same code and nothing for any other |
| Grouping.AppendRegionOrdered | data/data_process.py:44 | appending a region's rows after rows of strictly smaller regions keeps the result ordered by region code |
| Grouping.GroupOfUniform | data/data_process.py:25 | rows that all carry one region code form one group, for that code only |
| Grouping.LexLessTotal | data/data_process.py:12 | Python's string order is total on distinct strings, so the group keys can be sorted |
| Calendar.Number | data/data_process.py:13 | the decimal value of a digit string is non-negative and below 10 to the power of its length |
| Calendar.DaysFromCivil | data/data_process.py:13 | the proleptic Gregorian day count used for `weekday()` is anchored at 1970-01-01 = day 0, counting January 1970 day by day |
| Calendar.DaysInMonth | data/data_process.py:13 | every month has 28 to 31 days, February 29 exactly in leap years |
| Calendar.NextDay | data/data_process.py:13 | the day after a calendar date is again a calendar date |
| Calendar.NextDayIsOneLater | data/data_process.py:13 | the day count of the next day is one more, across month and year ends |
| Calendar.NextDayNextWeekday | data/data_process.py:13 | the next day's weekday is the following weekday, Sunday being followed by Monday |
| Calendar.Weekday | data/data_process.py:13 | `weekday()` of a date lies in 0..6 |
| Calendar.FirstMondayOf2020 | data/data_process.py:13 | "2020-01-06" is a calendar date and its weekday is 0 (Monday) |
| ColumnCleaner.FilterColumns | data/data_process.py:31-33 | a column is kept iff it is an input column passing the rule; kept columns keep their order and stay distinct |
| ColumnCleaner.KeepColumns | data/data_process.py:31-33 | `dropna(axis=1)` with a column rule: the same number of rows; a column is kept iff it is a frame column passing the rule; kept columns keep their order and their cells; dropped columns leave every row |
| ColumnCleaner.DropEmptyColumns | data/data_process.py:31 | `how="all"`: a column is kept iff it has at least one non-null cell; order and cells kept |
| ColumnCleaner.DropSparseColumns | data/data_process.py:33 | `thresh=n * threshold`: a column is kept iff its non-null count is at least n * threshold; order and cells kept |
| ColumnCleaner.CleanColumns | data/data_process.py:29-33 | the two passes keep the row count, keep only frame columns that have a value, and keep every surviving cell |
| ColumnCleaner.RestrictRow | data/data_process.py:31-33 | dropping columns leaves a row with exactly its cells in the kept columns, their values unchanged |
| ColumnCleaner.ColumnCountOfRestricted | data/data_process.py:33 | dropping other columns does not change a kept column's non-null count, so the second pass counts as on the original |
| ColumnCleaner.CleanColumnsKeeps | data/data_process.py:31-33 | the two passes keep exactly the columns, in order, with a value and at least rows * threshold non-null cells |
| ColumnCleaner.CleanColumnsEffect | data/data_process.py:29-33 | same rows in the same order; a column survives iff it has a value and at least rows * threshold non-null cells; survivors keep their order and their cells |
| ColumnCleaner.CleanColumnsWellFormed | data/data_process.py:29-33 | a frame whose rows all hold exactly its distinct columns keeps that shape |
| ColumnCleaner.CleanByColumns | data/data_process.py:29-33 | the in-place double `dropna` leaves the frame equal to the cleaned value of the old frame |
| RegionFilter.DenseRowCount | data/data_process.py:42 | the rows passing the density row test are at most the group's rows |
| RegionFilter.TwoZeroRowCount | data/data_process.py:47-48 | the rows with exactly two zero cells are at most the group's rows |
| RegionFilter.RuleExtremes | data/data_process.py:42-49 | a region the density rule keeps is non-empty with a dense row, and one whose rows are all dense is kept; a region the zero rule keeps is non-empty and not all two-zero rows, and one without two-zero rows is kept |
| RegionFilter.FilterRegions | data/data_process.py:36-51 | KeyError iff the frame has no region column; otherwise the same columns and only input rows |
| RegionFilter.KeepRegions | data/data_process.py:37-50 | the loop over the groups returns the concatenation of the kept groups in ascending code order |
| RegionFilter.CleanByRegion | data/data_process.py:36-51 | KeyError when the frame has no region column, and otherwise the rows the group loop keeps, under the frame's columns |
| RegionFilter.KeptRowsOfRegion | data/data_process.py:39-50 | restricted to one region, the result is that region's whole group, unchanged and in order, if the region is visited and passes the rule, and nothing otherwise |
| RegionFilter.KeptRowsOrdered | data/data_process.py:37-50 | the result is ordered by region code, and every row is an input row of a visited region |
| RegionFilter.FilterRegionsEffect | data/data_process.py:36-51 | KeyError iff the frame has no region column; otherwise same columns, every output row an input row, rows ordered by region, and each region contributes all its rows or none, as its rule decides |
| RegionFilter.DensityRatioExact | data/data_process.py:43 | the cross-multiplied density rule is exactly `dense / rows > 0.6` over the reals |
| RegionFilter.ZeroRatioExact | data/data_process.py:49 | the cross-multiplied zero rule is exactly `zeros / rows < 0.6` over the reals |
| WeeklyAggregator.AddMetric | data/data_process.py:19 | `+=` on metric cells is null iff either operand is null |
| WeeklyAggregator.AlignmentOffset | data/data_process.py:14 | the offset is in 0..6 and moves the first weekday onto a Monday, (first_weekday + idx) % 7 == 0 |
| WeeklyAggregator.FirstWeekday | data/data_process.py:13 | the first date's weekday lies in 0..6 |
| WeeklyAggregator.Accumulate | data/data_process.py:19-20 | one day added to a week: `hospitalized_new` summed (null iff either is null), `hospitalized_cumulative` taken from the day, every other cell of the week kept |
| WeeklyAggregator.WindowSum | data/data_process.py:19 | the running sum of a window is again a metric cell, null or an integer (its value is stated by WindowSumMeaning) |
| WeeklyAggregator.RegionWeeks | data/data_process.py:12-25 | an empty group raises IndexError, the only error; otherwise fewer than one weekly row per seven daily rows |
| WeeklyAggregator.FoldWeeks | data/data_process.py:15-25 | the `week_day`/`week_data` loop from `iloc[idx]` emits exactly the first floor((n - idx - 1) / 7) seven-day windows, in order |
| WeeklyAggregator.AggregateRegion | data/data_process.py:12-25 | one group's weekly rows, or IndexError when the group has no row at its offset |
| WeeklyAggregator.AggregateWeekly | data/data_process.py:9-26 | KeyError when the frame has no region column, otherwise only IndexError can be raised, and a result keeps the frame's columns |
| WeeklyAggregator.AggregateGroups | data/data_process.py:11-25 | the loop over the groups returns the groups' weekly rows concatenated in ascending code order, or the first group's IndexError |
| WeeklyAggregator.AggregateDailyStatsToWeekly | data/data_process.py:9-26 | KeyError when the frame has no region column; otherwise the group loop's weekly rows under the frame's columns, or the first group's IndexError |
| WeeklyAggregator.WeeklyRowsError | data/data_process.py:11-25 | the only error the group loop raises is IndexError |
| WeeklyAggregator.WeeklyRowsSplit | data/data_process.py:11-25 | a successful loop's rows are the earlier groups' rows followed by the last group's weekly rows |
| WeeklyAggregator.PrefixError | data/data_process.py:11-25 | an error raised by an earlier group is the error of the whole call |
| WeeklyAggregator.RegionWeeksCount | data/data_process.py:14-25 | IndexError iff n <= idx; otherwise floor((n - idx - 1) / 7) weekly rows, with between one and seven trailing rows never emitted |
| WeeklyAggregator.WeekContents | data/data_process.py:15-25 | the k-th weekly row covers the seven rows from idx + 7k, all followed by another row: new cases summed, cumulative from the seventh row, other cells and columns from the first row |
| WeeklyAggregator.WindowSumMeaning | data/data_process.py:19 | the weekly sum is null iff some day's value is null, and otherwise the integer total of the days |
| WeeklyAggregator.LeadingRowsIgnored | data/data_process.py:13-17 | groups that agree from the offset on, and whose first dates share a weekday, give the same weekly rows: the rows before the offset never contribute |
| WeeklyAggregator.FourteenDaysFromMonday | data/data_process.py:13-25 | fourteen days from Monday 6 January 2020, one case a day, give ONE weekly row with 7 new cases and cumulative 7 |
| WeeklyAggregator.StartsOnMonday | data/data_process.py:13-14 | a group starting on 2020-01-06 has first weekday 0, so its offset is 0 |
| WeeklyAggregator.RegionWeeksRegion | data/data_process.py:15-25 | every weekly row keeps its group's region code |
| WeeklyAggregator.RegionWeeksKeys | data/data_process.py:15-25 | weekly rows keep the columns of the daily rows |
| WeeklyAggregator.WeeklyRowsFail | data/data_process.py:11-25 | the aggregation raises iff some visited group raises |
| WeeklyAggregator.WeeklyRowsOrdered | data/data_process.py:11-25 | the weekly rows are ordered by region code and come from visited regions only |
| WeeklyAggregator.WeeklyRowsOfRegion | data/data_process.py:11-25 | restricted to one region, the result is that region's own weekly rows if it is visited, and nothing otherwise |
| WeeklyAggregator.AggregateWeeklyEffect | data/data_process.py:9-26 | KeyError iff the frame has no region column; IndexError iff it has one and some region has no row at its offset; otherwise same columns, rows ordered by region, well-formedness kept, and each region's rows exactly its weekly rows |
| Merger.IdOf | data/data_process.py:56-57 | the id is a string iff region code and date are strings, and then it is the code followed by the date; otherwise it is null |
| Merger.AddId | data/data_process.py:56-57 | the row gains an `id` cell equal to region code followed by date (null if either is null); every other cell is kept |
| Merger.WithId | data/data_process.py:56-57 | the columns are the old ones plus `id`, the old ones first in their order; the same number of rows; each row's `id` cell is its IdOf and every other cell is kept |
| Merger.WithIdIdempotent | data/data_process.py:56-57 | setting `id` twice is setting it once |
| Merger.WithIdShape | data/data_process.py:56-57 | setting `id` keeps a frame well formed and keeps region and date cells |
| Merger.IdIdentifiesRegionAndDate | data/data_process.py:56-57 | with `YYYY-MM-DD` dates, two ids are equal iff region codes and dates are equal |
| Merger.Matches | data/data_process.py:58 | a left row is paired once with each right row of the same id, and with nothing else |
| Merger.InnerJoin | data/data_process.py:58 | every merged row pairs a row of df1 with a row of df2 with equal `id` |
| Merger.JoinMultiplicity | data/data_process.py:58 | a pair occurs as often as its left row's copies times its right row's copies when the ids match, and never otherwise |
| Merger.JoinCountPerId | data/data_process.py:58 | for each id k the join has count1(k) * count2(k) rows |
| Merger.JoinSize | data/data_process.py:58 | the join's size is the sum over left rows of the right rows with the same id |
| Merger.JoinEmpty | data/data_process.py:58 | the join is empty iff no row of df1 shares its id with a row of df2 |
| Merger.MergeDfs | data/data_process.py:54-58 | KeyError iff either frame lacks the region or the date column; df1 gets its `id` column in place whenever it has both, df2 only when both frames do; on success the result is the join of the updated frames, also when they are the same frame |
| Pipeline.ContainsSub | data/data_process.py:76 | `sub in s` is false when `sub` is longer than `s` and true when `s` starts with `sub` |
| Pipeline.ContainsSubMeaning | data/data_process.py:76 | `"symptom" in name` holds iff the marker occurs at some position of the name |
| Pipeline.CleanedTyped | data/data_process.py:74-77 | column cleaning keeps region cells sortable by `groupby` |
| Pipeline.CleanedDaily | data/data_process.py:74-81 | column cleaning keeps the metric columns, the dates, and the rows the aggregation reads |
| Pipeline.FilteredDaily | data/data_process.py:79-81 | on a frame with a region column the region filter succeeds and keeps only input rows, so the aggregation's preconditions survive it |
| Pipeline.RegionColumnKept | data/data_process.py:31-37 | the region column outlives column cleaning iff the raw table has it set in at least half of its rows, and an empty raw table loses every column |
| Pipeline.ZeroFiltered | data/data_process.py:79 | the hospitalisation table after the zero rule is the successful filter result and still has dated metric rows |
| Pipeline.ProcessRaw | data/data_process.py:72-81 | KeyError when column cleaning dropped the region column; otherwise a symptom file always succeeds, any other file can only raise IndexError, and a processed table has the cleaned columns |
| Pipeline.SymptomProcessing | data/data_process.py:74-77 | a symptom file raises KeyError iff cleaning dropped the region column; otherwise it gets the density rule only, and each region keeps all its cleaned rows or none |
| Pipeline.HospitalProcessing | data/data_process.py:74-81 | any other file raises KeyError iff cleaning dropped the region column; then it gets the zero rule and aggregation, raises IndexError iff a kept region has no row at its offset, and otherwise each region's rows are its weekly rows if it passes the zero rule, nothing otherwise |
| Pipeline.Process | data/data_process.py:72-81 | the in-place cleaning, the filter loop and the aggregation loop compute the processed table |
| Pipeline.RawSource | data/data_process.py:61-66 | a raw table is found iff it has a pickle or a CSV file, and a pickle takes precedence |
| Pipeline.DataStore.constructor | data/data_process.py:61-83 | a new store has the given CSV files and no pickles |
| Pipeline.DataStore.LoadRawData | data/data_process.py:61-66 | returns the pickle, or the CSV file after writing its pickle; nothing else changes |
| Pipeline.DataStore.LoadProcessedData | data/data_process.py:69-83 | a processed pickle is returned as it is, with nothing asked of the raw table; otherwise the raw table is loaded and processed, and the result is written only when the build succeeds |
| Pipeline.LoadProcessedTwice | data/data_process.py:69-83 | loading the same name twice gives the same result |

## Left out

- File I/O. Paths, `exists`, `read_csv` and `to_pickle`/`read_pickle` become the three map fields of `DataStore`. A pickle round trip is taken as the identity.
- The `__main__` block is commented out and is not modelled.
- WeeklyAggregator.AddMetric: metrics are integers and NaN is `Null`, which absorbs in `+=`. Float64 rounding is not modelled.
- Calendar.IsCalendarDate: dates must be exactly `YYYY-MM-DD`. Other strings that `strptime` also accepts, such as single-digit months, are not modelled. A date it rejects is a precondition, not a modelled error.
- Pipeline.HospitalReady: a hospitalisation table without `hospitalized_new` or `hospitalized_cumulative`, or one whose metric column the cleaner drops, makes `week_data[...]` raise KeyError. A table without `date` makes `g_df.date` raise AttributeError. This precondition excludes those tables; they are not modelled as errors.
- Grouping.RegionsTyped: region cells that mix strings with other types are excluded, because the order in which `groupby` sorts mixed-type keys is not modelled.
- Tables.Cell: a column is looked up in the frame's column list, as pandas does, so KeyError is decided by that list. A row with no cell for a listed column reads as NaN.
- Merger.IdReady: `+` on a numeric region or date cell raises TypeError. This precondition excludes it.
- Merger.InnerJoin: the merged frame is modelled as (left row, right row) pairs. The `_x`/`_y` renaming of shared column names is not modelled. The result order is left row by left row; the proved properties are about counts and multisets, not pandas' exact row order.
- Merger.SameId: pandas matches NaN keys with each other; the model does the same by comparing `Null` cells as equal.
- pandas internals are not modelled: index reset (`ignore_index`), dtype coercion by `append`/`concat`, and the removal of `DataFrame.append` in pandas 2.
- Concurrent access to the pickle files is not modelled.
