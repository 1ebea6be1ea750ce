/** `separate_tables` (notebooks/data_transformation.py, lines 41–45): the
    transformed table is cut into a text table holding `day_id` and
    `daily_overview`, and a properties table holding everything else, so
    that the two can be joined back on `day_id`. */
module Separation {
  import opened Seqs
  import opened Tables
  import opened Transformation
  import opened TransformResults

  /** `(t[['day_id', 'daily_overview']], t.drop(columns=['daily_overview']))`.
      Selecting an absent column raises before anything is dropped. */
  function SeparateTables(t: Table<Cell>): (r: Result<(Table<Cell>, Table<Cell>)>)
    requires WellFormed(t)
    ensures r.Ok? <==> "day_id" in t.columns && "daily_overview" in t.columns
    ensures "day_id" !in t.columns ==> r == Err(MissingColumn("day_id"))
    ensures "day_id" in t.columns && "daily_overview" !in t.columns ==> r == Err(MissingColumn("daily_overview"))
  {
    if "day_id" !in t.columns then Err(MissingColumn("day_id"))
    else if "daily_overview" !in t.columns then Err(MissingColumn("daily_overview"))
    else Ok((Select(t, ["day_id", "daily_overview"]), DropColumn(t, "daily_overview")))
  }

  /** The two tables have the rows of the input, in its order: the text
      table exactly its two columns, the properties table every column but
      `daily_overview`, each in its former position. */
  lemma SeparateShape(t: Table<Cell>)
    requires WellFormed(t) && SeparateTables(t).Ok?
    ensures var (text, props) := SeparateTables(t).value;
      && WellFormed(text) && WellFormed(props)
      && |text.rows| == |t.rows| && |props.rows| == |t.rows|
      && text.columns == ["day_id", "daily_overview"]
      && props.columns == t.columns[..IndexOf(t.columns, "daily_overview")]
                          + t.columns[IndexOf(t.columns, "daily_overview") + 1..]
      && (forall i :: 0 <= i < |t.rows| ==>
            && text.rows[i] == (map c | c in {"day_id", "daily_overview"} :: t.rows[i][c])
            && props.rows[i] == t.rows[i] - {"daily_overview"})
  {
    var (text, props) := SeparateTables(t).value;
    RemoveAt(t.columns, IndexOf(t.columns, "daily_overview"));
    forall i | 0 <= i < |t.rows|
      ensures text.rows[i] == (map c | c in {"day_id", "daily_overview"} :: t.rows[i][c])
    {
      assert text.rows[i].Keys == Elems(text.columns);
    }
  }

  /** The row of `rows` whose `key` cell is `v`, the first one if several. */
  function FindKey(rows: seq<Row<Cell>>, key: string, v: Cell): (r: Option<nat>)
    ensures r.Some? ==> r.value < |rows| && key in rows[r.value] && rows[r.value][key] == v
    ensures r.Some? ==> forall j :: 0 <= j < r.value ==> !(key in rows[j] && rows[j][key] == v)
    ensures r.None? ==> forall j :: 0 <= j < |rows| ==> !(key in rows[j] && rows[j][key] == v)
  {
    if rows == [] then None
    else if key in rows[0] && rows[0][key] == v then Some(0)
    else match FindKey(rows[1..], key, v)
      case None => None
      case Some(j) => Some(j + 1)
  }

  /** No two rows share a `key` value. */
  predicate UniqueKey(t: Table<Cell>, key: string)
    requires WellFormed(t) && key in t.columns
  {
    forall i, j :: 0 <= i < j < |t.rows| ==> t.rows[i][key] != t.rows[j][key]
  }

  /** The first row with a given key value is found. */
  lemma FindFirst(rows: seq<Row<Cell>>, key: string, v: Cell, i: nat)
    requires i < |rows| && key in rows[i] && rows[i][key] == v
    requires forall j :: 0 <= j < i ==> !(key in rows[j] && rows[j][key] == v)
    ensures FindKey(rows, key, v) == Some(i)
  {
    var f := FindKey(rows, key, v);
    if f.None? {
      assert false;
    } else if f.value < i {
      assert false;
    } else if f.value > i {
      assert false;
    }
  }

  /** When `day_id` identifies the rows, joining the two tables back on it
      restores the input: every properties row finds the text row of the
      same position, and the two together are the input row. */
  lemma SeparateRejoin(t: Table<Cell>)
    requires WellFormed(t) && SeparateTables(t).Ok? && UniqueKey(t, "day_id")
    ensures var (text, props) := SeparateTables(t).value;
      forall i :: 0 <= i < |t.rows| ==>
        && "day_id" in props.rows[i]
        && FindKey(text.rows, "day_id", props.rows[i]["day_id"]) == Some(i)
        && props.rows[i] + text.rows[i] == t.rows[i]
  {
    SeparateShape(t);
    var (text, props) := SeparateTables(t).value;
    forall i | 0 <= i < |t.rows|
      ensures "day_id" in props.rows[i]
      ensures FindKey(text.rows, "day_id", props.rows[i]["day_id"]) == Some(i)
      ensures props.rows[i] + text.rows[i] == t.rows[i]
    {
      RejoinRow(t.rows[i]);
      var v := t.rows[i]["day_id"];
      forall j | 0 <= j < i
        ensures !("day_id" in text.rows[j] && text.rows[j]["day_id"] == v)
      {
        assert text.rows[j]["day_id"] == t.rows[j]["day_id"];
      }
      FindFirst(text.rows, "day_id", v, i);
    }
  }

  /** One row: its cells without `daily_overview`, together with its
      `day_id` and `daily_overview` cells, are the whole row. */
  lemma RejoinRow(row: Row<Cell>)
    requires "day_id" in row && "daily_overview" in row
    ensures "day_id" in row - {"daily_overview"}
    ensures (row - {"daily_overview"}) + (map c | c in {"day_id", "daily_overview"} :: row[c]) == row
  {
    var m := (row - {"daily_overview"}) + (map c | c in {"day_id", "daily_overview"} :: row[c]);
    assert m.Keys == row.Keys;
    assert "day_id" != "daily_overview";
  }

  /** Row numbers are a unique key. */
  lemma NumberedIsUnique(t: Table<Cell>)
    requires WellFormed(t) && "day_id" in t.columns
    requires forall i :: 0 <= i < |t.rows| ==> t.rows[i]["day_id"] == Int(i + 1)
    ensures UniqueKey(t, "day_id")
  {
  }

  /** The whole pipeline: the transform keeps `daily_overview` and numbers
      the rows, so its result can always be separated and joined back. */
  lemma PipelineSeparates(t0: Table<Cell>)
    requires WellFormed(t0) && NoTokenClash(t0) && TransformTable(t0).Ok?
    requires "daily_overview" in t0.columns
    ensures SeparateTables(TransformTable(t0).value).Ok?
    ensures UniqueKey(TransformTable(t0).value, "day_id")
  {
    var r := TransformTable(t0).value;
    assert "daily_overview" in r.columns by {
      OtherColumns(t0);
      assert !Reserved("daily_overview");
    }
    assert "day_id" in r.columns && forall i :: 0 <= i < |r.rows| ==> r.rows[i]["day_id"] == Int(i + 1) by {
      DayIds(t0);
    }
    NumberedIsUnique(r);
  }
}
