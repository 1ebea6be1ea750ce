/** The data model: a table is a header (the column names, in order) and a
    sequence of rows, each row mapping every column name to a cell. The
    column operations are the pandas ones the pipeline uses: reading a
    column, assigning a column (`df[name] = values`), dropping a column,
    selecting columns (`df[[a, b]]`) and side-by-side concatenation
    (`pd.concat([df1, df2], axis=1)`). */
module Tables {
  import opened Seqs

  datatype Option<T> = None | Some(value: T)

  /** Why the pipeline stops: a column it indexes is absent (pandas raises
      `KeyError`), or the `fecha` text of a row (0-based) is not a date in
      the expected format (pandas raises `ValueError`). */
  datatype Error = MissingColumn(name: string) | BadDate(row: nat)

  datatype Result<T> = Ok(value: T) | Err(error: Error) {
    predicate IsFailure() { Err? }

    function PropagateFailure<U>(): Result<U>
      requires Err?
    {
      Err(error)
    }

    function Extract(): T
      requires Ok?
    {
      value
    }
  }

  /** A calendar date (proleptic Gregorian), the value of a `date` cell. */
  datatype Date = Date(year: int, month: int, day: int)

  /** A cell of a transformed table. `Missing` is pandas' NaN / NaT. */
  datatype Cell = Missing | Text(s: string) | Int(n: int) | Day(date: Date)

  type Row<C> = map<string, C>

  datatype Table<C> = Table(columns: seq<string>, rows: seq<Row<C>>)

  /** Column names are unique and every row has exactly the columns of the
      header. */
  predicate WellFormed<C>(t: Table<C>)
  {
    && Distinct(t.columns)
    && forall i :: 0 <= i < |t.rows| ==> t.rows[i].Keys == Elems(t.columns)
  }

  /** `df[name]`: the cells of one column, in row order. */
  function Column<C>(t: Table<C>, name: string): (cells: seq<C>)
    requires WellFormed(t) && name in t.columns
    ensures |cells| == |t.rows|
    ensures forall i :: 0 <= i < |t.rows| ==> cells[i] == t.rows[i][name]
  {
    seq(|t.rows|, i requires 0 <= i < |t.rows| => t.rows[i][name])
  }

  /** `df[name] = cells`: an existing column keeps its position, a new one
      is appended; every other cell is unchanged. */
  function SetColumn<C>(t: Table<C>, name: string, cells: seq<C>): (r: Table<C>)
    requires WellFormed(t) && |cells| == |t.rows|
    ensures WellFormed(r) && |r.rows| == |t.rows|
    ensures r.columns == Put(t.columns, name)
    ensures forall i :: 0 <= i < |t.rows| ==> r.rows[i] == t.rows[i][name := cells[i]]
  {
    var r := Table(Put(t.columns, name),
                   seq(|t.rows|, i requires 0 <= i < |t.rows| => t.rows[i][name := cells[i]]));
    assert forall i :: 0 <= i < |r.rows| ==> r.rows[i].Keys == t.rows[i].Keys + {name};
    r
  }

  /** `df.drop(columns=name)`. */
  function DropColumn<C>(t: Table<C>, name: string): (r: Table<C>)
    requires WellFormed(t) && name in t.columns
    ensures WellFormed(r) && |r.rows| == |t.rows|
    ensures r.columns == Remove(t.columns, name) && name !in r.columns
    ensures forall i :: 0 <= i < |t.rows| ==> r.rows[i] == t.rows[i] - {name}
  {
    var r := Table(Remove(t.columns, name),
                   seq(|t.rows|, i requires 0 <= i < |t.rows| => t.rows[i] - {name}));
    assert name !in Elems(r.columns);
    r
  }

  /** `df[names]`: the named columns, in the order given. */
  function Select<C>(t: Table<C>, names: seq<string>): (r: Table<C>)
    requires WellFormed(t) && Distinct(names)
    requires forall k :: 0 <= k < |names| ==> names[k] in t.columns
    ensures WellFormed(r) && |r.rows| == |t.rows| && r.columns == names
    ensures forall i, c :: 0 <= i < |t.rows| && c in names ==> c in r.rows[i] && r.rows[i][c] == t.rows[i][c]
  {
    Table(names, seq(|t.rows|, i requires 0 <= i < |t.rows| =>
                       map c | c in Elems(names) :: t.rows[i][c]))
  }

  /** `pd.concat([t, u], axis=1)` for tables with the same rows and no
      column in common. */
  function Concat<C>(t: Table<C>, u: Table<C>): (r: Table<C>)
    requires WellFormed(t) && WellFormed(u) && |t.rows| == |u.rows|
    requires Elems(t.columns) !! Elems(u.columns)
    ensures WellFormed(r) && |r.rows| == |t.rows|
    ensures r.columns == t.columns + u.columns
    ensures forall i :: 0 <= i < |t.rows| ==> r.rows[i] == t.rows[i] + u.rows[i]
  {
    var r := Table(t.columns + u.columns,
                   seq(|t.rows|, i requires 0 <= i < |t.rows| => t.rows[i] + u.rows[i]));
    assert Elems(r.columns) == Elems(t.columns) + Elems(u.columns);
    assert Distinct(r.columns) by {
      forall i, j | 0 <= i < j < |r.columns|
        ensures r.columns[i] != r.columns[j]
      {
        if i < |t.columns| <= j {
          assert r.columns[i] in Elems(t.columns);
          assert r.columns[j] in Elems(u.columns);
        }
      }
    }
    r
  }
}
