/** Tables as the pipeline sees them: an ordered list of column names and an
    ordered sequence of rows, each row a mapping from column name to a cell.
    A pandas NaN is the cell `Null`; numeric metrics are integers. */
module Tables {

  datatype Value = Null | Num(n: int) | Str(s: string)

  type Row = map<string, Value>

  datatype Table = Table(columns: seq<string>, rows: seq<Row>)

  /** Results of the operations that can raise: `iloc` past the end of a
      group, a column label the frame does not have, a missing file. */
  datatype Error = IndexError | KeyError | NotFound

  datatype Result<T> = Ok(value: T) | Err(error: Error)

  datatype Option<T> = None | Some(value: T)

  const RegionColumn: string := "open_covid_region_code"
  const DateColumn: string := "date"
  const NewColumn: string := "hospitalized_new"
  const CumulativeColumn: string := "hospitalized_cumulative"
  const IdColumn: string := "id"

  /** The cell of `r` in column `c`; a cell that is not there reads as null. */
  function Cell(r: Row, c: string): Value
  {
    if c in r then r[c] else Null
  }

  predicate DistinctColumns(cols: seq<string>)
  {
    forall i, j :: 0 <= i < j < |cols| ==> cols[i] != cols[j]
  }

  /** A frame whose column names are distinct and whose every row holds
      exactly those columns. */
  predicate WellFormed(t: Table)
  {
    && DistinctColumns(t.columns)
    && forall i :: 0 <= i < |t.rows| ==> t.rows[i].Keys == set c | c in t.columns
  }

  /** Number of columns of `cols` in which row `r` is not null
      (`DataFrame.count(axis=1)` for one row). */
  function NonNullCount(r: Row, cols: seq<string>): (k: nat)
    ensures k <= |cols|
  {
    if cols == [] then 0
    else NonNullCount(r, cols[..|cols| - 1]) + (if Cell(r, cols[|cols| - 1]) != Null then 1 else 0)
  }

  /** Number of columns of `cols` in which row `r` equals the number 0
      (`(df == 0).sum(axis=1)` for one row: null and strings never equal 0). */
  function ZeroCount(r: Row, cols: seq<string>): (k: nat)
    ensures k <= NonNullCount(r, cols) <= |cols|
  {
    if cols == [] then 0
    else ZeroCount(r, cols[..|cols| - 1]) + (if Cell(r, cols[|cols| - 1]) == Num(0) then 1 else 0)
  }

  /** Number of rows whose cell in column `c` is not null
      (`DataFrame.count()` for one column). */
  function ColumnCount(rows: seq<Row>, c: string): (k: nat)
    ensures k <= |rows|
  {
    if rows == [] then 0
    else ColumnCount(rows[..|rows| - 1], c) + (if Cell(rows[|rows| - 1], c) != Null then 1 else 0)
  }

  /** A pandas DataFrame that is changed in place: the column index and the
      rows are fields that the in-place operations reassign. */
  class DataFrame {
    var columns: seq<string>
    var rows: seq<Row>

    constructor (t: Table)
      ensures Snapshot() == t
    {
      columns := t.columns;
      rows := t.rows;
    }

    /** The frame's current contents as a value. */
    function Snapshot(): Table
      reads this
    {
      Table(columns, rows)
    }
  }
}
