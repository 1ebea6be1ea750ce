/** `transform_data` (notebooks/data_transformation.py, lines 9–39) as the
    chain of its steps. The caller's table is never changed (the source
    works on a copy), so each step is a function from the table before it to
    the table after it; a step that indexes a column that is not there, or a
    date that does not parse, makes the whole transform fail. */
module Transformation {
  import opened Seqs
  import opened Strings
  import opened Tables
  import opened Dates
  import opened Encodings
  import opened Dummies

  /** A table as loaded from the CSV file: every cell is a text or missing. */
  type RawTable = Table<Option<string>>

  function LiftCell(c: Option<string>): Cell
  {
    match c
    case None => Missing
    case Some(s) => Text(s)
  }

  /** `raw_data.copy()`, read as a table of transform cells. */
  function Copy(raw: RawTable): (t: Table<Cell>)
    requires WellFormed(raw)
    ensures WellFormed(t) && t.columns == raw.columns && |t.rows| == |raw.rows|
    ensures forall i, c :: 0 <= i < |raw.rows| && c in raw.columns ==>
      c in t.rows[i] && t.rows[i][c] == LiftCell(raw.rows[i][c])
  {
    Table(raw.columns, seq(|raw.rows|, i requires 0 <= i < |raw.rows| =>
                             map c | c in raw.rows[i] :: LiftCell(raw.rows[i][c])))
  }

  function NormalizeColumns(cols: seq<string>): (r: seq<string>)
    ensures |r| == |cols|
  {
    seq(|cols|, k requires 0 <= k < |cols| => NormalizeName(cols[k]))
  }

  /** Rewriting a rewritten header changes nothing. */
  lemma NormalizeColumnsIdempotent(cols: seq<string>)
    ensures NormalizeColumns(NormalizeColumns(cols)) == NormalizeColumns(cols)
  {
    forall k | 0 <= k < |cols|
      ensures NormalizeColumns(NormalizeColumns(cols))[k] == NormalizeColumns(cols)[k]
    {
      NormalizeIdempotent(cols[k]);
    }
  }

  /** Line 16: every column is renamed to its normalised name; the cells stay
      in their rows under the new name. */
  function NormalizeHeader<C>(t: Table<C>): (r: Table<C>)
    requires WellFormed(t) && Distinct(NormalizeColumns(t.columns))
    ensures WellFormed(r) && |r.rows| == |t.rows|
    ensures r.columns == NormalizeColumns(t.columns)
    ensures forall i, k :: 0 <= i < |t.rows| && 0 <= k < |t.columns| ==>
      r.rows[i][r.columns[k]] == t.rows[i][t.columns[k]]
  {
    var names := NormalizeColumns(t.columns);
    var r := Table(names, seq(|t.rows|, i requires 0 <= i < |t.rows| =>
                       map n | n in Elems(names) :: t.rows[i][t.columns[IndexOf(names, n)]]));
    assert forall k :: 0 <= k < |names| ==> names[k] in Elems(names) && IndexOf(names, names[k]) == k;
    r
  }

  /** The table after the header rewrite, the one every later step sees. */
  function Normalized(raw: RawTable): (t: Table<Cell>)
    requires WellFormed(raw) && Distinct(NormalizeColumns(raw.columns))
    ensures WellFormed(t) && |t.rows| == |raw.rows|
  {
    NormalizeHeader(Copy(raw))
  }

  /** The normalised table has one column per input column, named by
      `NormalizeName`, holding that column's values. */
  lemma NormalizedCells(raw: RawTable)
    requires WellFormed(raw) && Distinct(NormalizeColumns(raw.columns))
    ensures WellFormed(Normalized(raw)) && |Normalized(raw).rows| == |raw.rows|
    ensures |Normalized(raw).columns| == |raw.columns|
    ensures forall k :: 0 <= k < |raw.columns| ==> Normalized(raw).columns[k] == NormalizeName(raw.columns[k])
    ensures forall i, k :: 0 <= i < |raw.rows| && 0 <= k < |raw.columns| ==>
      Normalized(raw).rows[i][NormalizeName(raw.columns[k])] == LiftCell(raw.rows[i][raw.columns[k]])
  {
  }

  // ---------------------------------------------------------------------------
  // Lines 19–20: the date

  /** The texts pandas' `strptime` path reads as NaT instead of parsing
      them: the empty text and pandas' `nat_strings`. */
  const NaTTexts: set<string> := {"", "NaT", "nat", "NAT", "nan", "NaN", "NAN"}

  /** A cell that becomes a missing date. */
  predicate IsNaT(c: Cell)
  {
    c == Missing || (c.Text? && c.s in NaTTexts)
  }

  /** `pd.to_datetime(cell, format='%d/%m/%Y')`; `None` is the error. A
      missing value or a NaT text becomes a missing date. Numbers and dates
      do not reach this step (the cells come from the CSV text); they are
      errors here. */
  function ToDatetime(c: Cell): (r: Option<Cell>)
    ensures IsNaT(c) ==> r == Some(Missing)
    ensures c.Text? ==> (r.Some? <==> c.s in NaTTexts || ParseDate(c.s).Some?)
    ensures r.Some? && !IsNaT(c) ==> c.Text? && r.value.Day? && ParseDate(c.s) == Some(r.value.date)
  {
    match c
    case Missing => Some(Missing)
    case Text(s) =>
      if s in NaTTexts then Some(Missing)
      else
        (match ParseDate(s)
         case Some(d) => Some(Day(d))
         case None => None)
    case _ => None
  }

  /** A NaT text is never a date in the `%d/%m/%Y` format, so reading it as
      NaT only turns what would be an error into a missing date. */
  lemma NaTTextsAreNotDates(s: string)
    requires s in NaTTexts
    ensures ParseDate(s).None?
  {
    if ParseDate(s).Some? {
      ShortestDate(s);
    }
  }

  /** The column conversion: it fails at the first cell that does not
      convert, and otherwise converts every cell. */
  function ToDatetimeColumn(cells: seq<Cell>): (r: Result<seq<Cell>>)
    ensures r.Ok? <==> forall i :: 0 <= i < |cells| ==> ToDatetime(cells[i]).Some?
    ensures r.Ok? ==> (&& |r.value| == |cells|
                       && forall i :: 0 <= i < |cells| ==> r.value[i] == ToDatetime(cells[i]).value)
    ensures r.Err? ==> && r.error.BadDate? && r.error.row < |cells|
                       && ToDatetime(cells[r.error.row]).None?
                       && forall j :: 0 <= j < r.error.row ==> ToDatetime(cells[j]).Some?
  {
    if cells == [] then Ok([])
    else
      var init := cells[..|cells| - 1];
      assert forall i :: 0 <= i < |init| ==> init[i] == cells[i];
      match ToDatetimeColumn(init)
      case Err(e) => Err(e)
      case Ok(done) =>
        match ToDatetime(cells[|cells| - 1])
        case None => Err(BadDate(|cells| - 1))
        case Some(d) => Ok(done + [d])
  }

  /** Every `fecha` cell converts. */
  predicate DatesConvert(t: Table<Cell>)
    requires WellFormed(t) && "fecha" in t.columns
  {
    forall i :: 0 <= i < |t.rows| ==> ToDatetime(t.rows[i]["fecha"]).Some?
  }

  function ConvertDate(t: Table<Cell>): (r: Result<Table<Cell>>)
    requires WellFormed(t)
    ensures "fecha" !in t.columns ==> r == Err(MissingColumn("fecha"))
    ensures "fecha" in t.columns && !DatesConvert(t) ==>
      && r.Err? && r.error.BadDate? && r.error.row < |t.rows|
      && ToDatetime(t.rows[r.error.row]["fecha"]).None?
      && forall j :: 0 <= j < r.error.row ==> ToDatetime(t.rows[j]["fecha"]).Some?
    ensures r.Ok? <==> "fecha" in t.columns && DatesConvert(t)
    ensures r.Ok? ==>
      && WellFormed(r.value) && |r.value.rows| == |t.rows|
      && r.value.columns == Remove(Put(t.columns, "date"), "fecha")
      && forall i :: 0 <= i < |t.rows| ==>
           r.value.rows[i] == t.rows[i]["date" := ToDatetime(t.rows[i]["fecha"]).value] - {"fecha"}
  {
    if "fecha" !in t.columns then Err(MissingColumn("fecha"))
    else
      var dates :- ToDatetimeColumn(Column(t, "fecha"));
      Ok(DropColumn(SetColumn(t, "date", dates), "fecha"))
  }

  // ---------------------------------------------------------------------------
  // Line 23: the row numbers

  function AddDayId(t: Table<Cell>): (r: Table<Cell>)
    requires WellFormed(t)
    ensures WellFormed(r) && |r.rows| == |t.rows| && r.columns == Put(t.columns, "day_id")
    ensures forall i :: 0 <= i < |t.rows| ==> r.rows[i] == t.rows[i]["day_id" := Int(i + 1)]
  {
    SetColumn(t, "day_id", seq(|t.rows|, i => Int(i + 1)))
  }

  // ---------------------------------------------------------------------------
  // Lines 26–33: the two encodings and the default fill

  /** `df[name] = df[name].map(m)`. */
  function EncodeColumn(t: Table<Cell>, name: string, m: map<string, int>): (r: Result<Table<Cell>>)
    requires WellFormed(t)
    ensures r.Ok? <==> name in t.columns
    ensures r.Err? ==> r.error == MissingColumn(name)
    ensures r.Ok? ==> && WellFormed(r.value) && |r.value.rows| == |t.rows| && r.value.columns == t.columns
                      && forall i :: 0 <= i < |t.rows| ==>
                           r.value.rows[i] == t.rows[i][name := MapCell(m, t.rows[i][name])]
  {
    if name !in t.columns then Err(MissingColumn(name))
    else Ok(SetColumn(t, name, seq(|t.rows|, i requires 0 <= i < |t.rows| => MapCell(m, t.rows[i][name]))))
  }

  /** `df[name] = df[name].fillna(v)`. */
  function FillColumn(t: Table<Cell>, name: string, v: Cell): (r: Result<Table<Cell>>)
    requires WellFormed(t)
    ensures r.Ok? <==> name in t.columns
    ensures r.Err? ==> r.error == MissingColumn(name)
    ensures r.Ok? ==> && WellFormed(r.value) && |r.value.rows| == |t.rows| && r.value.columns == t.columns
                      && forall i :: 0 <= i < |t.rows| ==>
                           r.value.rows[i] == t.rows[i][name := FillMissing(t.rows[i][name], v)]
  {
    if name !in t.columns then Err(MissingColumn(name))
    else Ok(SetColumn(t, name, seq(|t.rows|, i requires 0 <= i < |t.rows| => FillMissing(t.rows[i][name], v))))
  }

  /** Lines 19–33: everything after the header rewrite and before the
      learning expansion. */
  function Prepare(t0: Table<Cell>): (r: Result<Table<Cell>>)
    requires WellFormed(t0)
    ensures r.Ok? ==> WellFormed(r.value) && |r.value.rows| == |t0.rows|
  {
    var t1 :- ConvertDate(t0);
    var t2 := AddDayId(t1);
    var t3 :- EncodeColumn(t2, "status", StatusMap);
    var t4 :- EncodeColumn(t3, "productiveness", ProductivenessMap);
    FillColumn(t4, "important_achievements", Text("No"))
  }

  /** One row as lines 19–33 leave it, given its 0-based position. */
  function PreparedRow(row: Row<Cell>, i: nat): Row<Cell>
    requires "fecha" in row && "status" in row && "productiveness" in row
    requires "important_achievements" in row && ToDatetime(row["fecha"]).Some?
  {
    (row["date" := ToDatetime(row["fecha"]).value] - {"fecha"})
      ["day_id" := Int(i + 1)]
      ["status" := MapCell(StatusMap, row["status"])]
      ["productiveness" := MapCell(ProductivenessMap, row["productiveness"])]
      ["important_achievements" := FillMissing(row["important_achievements"], Text("No"))]
  }

  /** The column steps leave every other cell of a row as it was. */
  lemma PreparedRowKeeps(row: Row<Cell>, i: nat, c: string)
    requires "fecha" in row && "status" in row && "productiveness" in row
    requires "important_achievements" in row && ToDatetime(row["fecha"]).Some?
    requires c !in {"fecha", "date", "day_id", "status", "productiveness", "important_achievements"}
    ensures c in PreparedRow(row, i) <==> c in row
    ensures c in row ==> PreparedRow(row, i)[c] == row[c]
  {
  }

  predicate HasPreparedColumns(t: Table<Cell>)
  {
    && "fecha" in t.columns && "status" in t.columns
    && "productiveness" in t.columns && "important_achievements" in t.columns
  }

  /** The column steps fail exactly when a column they index is absent or a
      date does not convert, and report the first such problem. */
  lemma PrepareOutcome(t0: Table<Cell>)
    requires WellFormed(t0)
    ensures "fecha" !in t0.columns ==> Prepare(t0) == Err(MissingColumn("fecha"))
    ensures "fecha" in t0.columns && !DatesConvert(t0) ==>
      && Prepare(t0).Err? && Prepare(t0).error.BadDate? && Prepare(t0).error.row < |t0.rows|
      && ToDatetime(t0.rows[Prepare(t0).error.row]["fecha"]).None?
      && forall j :: 0 <= j < Prepare(t0).error.row ==> ToDatetime(t0.rows[j]["fecha"]).Some?
    ensures "fecha" in t0.columns && DatesConvert(t0) && "status" !in t0.columns ==>
      Prepare(t0) == Err(MissingColumn("status"))
    ensures "fecha" in t0.columns && DatesConvert(t0) && "status" in t0.columns &&
            "productiveness" !in t0.columns ==>
      Prepare(t0) == Err(MissingColumn("productiveness"))
    ensures "fecha" in t0.columns && DatesConvert(t0) && "status" in t0.columns &&
            "productiveness" in t0.columns && "important_achievements" !in t0.columns ==>
      Prepare(t0) == Err(MissingColumn("important_achievements"))
    ensures Prepare(t0).Ok? <==> HasPreparedColumns(t0) && DatesConvert(t0)
  {
    var c1 := ConvertDate(t0);
    if c1.Ok? {
      var t2 := AddDayId(c1.value);
      assert Elems(t2.columns) == Elems(t0.columns) - {"fecha"} + {"date", "day_id"};
      assert "status" in t2.columns <==> "status" in t0.columns;
      assert "productiveness" in t2.columns <==> "productiveness" in t0.columns;
      assert "important_achievements" in t2.columns <==> "important_achievements" in t0.columns;
      var c3 := EncodeColumn(t2, "status", StatusMap);
      if c3.Ok? {
        var c4 := EncodeColumn(c3.value, "productiveness", ProductivenessMap);
        if c4.Ok? {
          assert Prepare(t0) == FillColumn(c4.value, "important_achievements", Text("No"));
        } else {
          assert Prepare(t0) == Err(MissingColumn("productiveness"));
        }
      } else {
        assert Prepare(t0) == Err(MissingColumn("status"));
      }
    } else {
      assert Prepare(t0) == c1;
    }
  }

  /** Taken together, the column steps rewrite each row on its own, by
      `PreparedRow`, and keep the row order. */
  lemma PrepareRows(t0: Table<Cell>)
    requires WellFormed(t0) && Prepare(t0).Ok?
    ensures HasPreparedColumns(t0) && DatesConvert(t0)
    ensures WellFormed(Prepare(t0).value) && |Prepare(t0).value.rows| == |t0.rows|
    ensures Prepare(t0).value.columns == Put(Remove(Put(t0.columns, "date"), "fecha"), "day_id")
    ensures forall i :: 0 <= i < |t0.rows| ==> Prepare(t0).value.rows[i] == PreparedRow(t0.rows[i], i)
  {
    PrepareOutcome(t0);
    var t1 := ConvertDate(t0).value;
    var t2 := AddDayId(t1);
    var t3 := EncodeColumn(t2, "status", StatusMap).value;
    var t4 := EncodeColumn(t3, "productiveness", ProductivenessMap).value;
    var t5 := FillColumn(t4, "important_achievements", Text("No")).value;
    assert t5 == Prepare(t0).value;
    forall i | 0 <= i < |t0.rows|
      ensures t5.rows[i] == PreparedRow(t0.rows[i], i)
    {
      var row := t0.rows[i];
      assert t1.rows[i] == row["date" := ToDatetime(row["fecha"]).value] - {"fecha"};
      assert t3.rows[i]["status"] == MapCell(StatusMap, row["status"]);
      assert t4.rows[i]["productiveness"] == MapCell(ProductivenessMap, row["productiveness"]);
    }
  }

  // ---------------------------------------------------------------------------
  // Lines 36–37: the learning indicators

  /** The indicator columns can be placed beside the table only when no
      token is already a column name: `pd.concat` would otherwise hold two
      columns of one name, and the `drop` after it would remove both copies
      of `learning`. */
  predicate TokensAreNew(t: Table<Cell>)
    requires WellFormed(t) && "learning" in t.columns
  {
    Elems(t.columns) !! Elems(Vocabulary(Column(t, "learning")))
  }

  /** `pd.concat([t, t['learning'].str.get_dummies(sep=', ')], axis=1)
      .drop(columns='learning')`. */
  function ExpandLearning(t: Table<Cell>): (r: Result<Table<Cell>>)
    requires WellFormed(t) && ("learning" in t.columns ==> TokensAreNew(t))
    ensures r.Ok? <==> "learning" in t.columns
    ensures r.Err? ==> r.error == MissingColumn("learning")
    ensures r.Ok? ==> WellFormed(r.value) && |r.value.rows| == |t.rows|
  {
    if "learning" !in t.columns then Err(MissingColumn("learning"))
    else Ok(DropColumn(Concat(t, GetDummies(Column(t, "learning"))), "learning"))
  }

  // ---------------------------------------------------------------------------
  // The whole transform

  /** The conditions under which the source's result is a table with one
      column per name: no learning token may coincide with a column of the
      prepared table (it may be `fecha`, which is already gone by then). */
  predicate NoTokenClash(t0: Table<Cell>)
    requires WellFormed(t0)
  {
    "learning" in t0.columns ==>
      forall tok :: tok in Vocabulary(Column(t0, "learning")) ==>
        tok != "date" && tok != "day_id" && (tok in t0.columns ==> tok == "fecha")
  }

  /** In addition, the header rewrite must not give two columns one name. */
  predicate Admissible(raw: RawTable)
  {
    && WellFormed(raw) && Distinct(NormalizeColumns(raw.columns))
    && NoTokenClash(Normalized(raw))
  }

  /** Lines 19–37, on the table with the rewritten header. */
  function TransformTable(t0: Table<Cell>): (r: Result<Table<Cell>>)
    requires WellFormed(t0) && NoTokenClash(t0)
    ensures r.Ok? ==> WellFormed(r.value) && |r.value.rows| == |t0.rows|
  {
    var t5 :- Prepare(t0);
    PreparedLearning(t0);
    ExpandLearning(t5)
  }

  /** `transform_data` (lines 9–39). */
  function Transform(raw: RawTable): (r: Result<Table<Cell>>)
    requires Admissible(raw)
    ensures r.Ok? ==> WellFormed(r.value) && |r.value.rows| == |raw.rows|
  {
    TransformTable(Normalized(raw))
  }

  lemma PrepareColumns(t0: Table<Cell>)
    requires WellFormed(t0) && Prepare(t0).Ok?
    ensures Prepare(t0).value.columns == Put(Remove(Put(t0.columns, "date"), "fecha"), "day_id")
  {
    PrepareRows(t0);
  }

  /** The `learning` column passes the column steps untouched. */
  lemma PreparedLearningColumn(t0: Table<Cell>)
    requires WellFormed(t0) && Prepare(t0).Ok?
    ensures "learning" in Prepare(t0).value.columns <==> "learning" in t0.columns
    ensures "learning" in t0.columns ==>
      Column(Prepare(t0).value, "learning") == Column(t0, "learning")
  {
    PrepareRows(t0);
    var t5 := Prepare(t0).value;
    if "learning" in t0.columns {
      var a, b := Column(t5, "learning"), Column(t0, "learning");
      forall i | 0 <= i < |t0.rows| ensures a[i] == b[i] {
        assert t5.rows[i] == PreparedRow(t0.rows[i], i);
        PreparedRowKeeps(t0.rows[i], i, "learning");
      }
    }
  }

  /** Hence its tokens are those of the normalised table, and under
      `NoTokenClash` none of them is a column of the prepared table. */
  lemma PreparedLearning(t0: Table<Cell>)
    requires WellFormed(t0) && NoTokenClash(t0) && Prepare(t0).Ok?
    ensures "learning" in Prepare(t0).value.columns <==> "learning" in t0.columns
    ensures "learning" in t0.columns ==>
      && Column(Prepare(t0).value, "learning") == Column(t0, "learning")
      && TokensAreNew(Prepare(t0).value)
  {
    PrepareColumns(t0);
    PreparedLearningColumn(t0);
    if "learning" in t0.columns {
      TokensBeside(t0, Prepare(t0).value);
    }
  }

  /** A table whose columns are those of the column steps, and whose
      `learning` column is that of `t0`, takes the tokens of `t0` as new
      columns. */
  lemma TokensBeside(t0: Table<Cell>, t5: Table<Cell>)
    requires WellFormed(t0) && NoTokenClash(t0) && WellFormed(t5)
    requires "learning" in t0.columns && "learning" in t5.columns
    requires Column(t5, "learning") == Column(t0, "learning")
    requires t5.columns == Put(Remove(Put(t0.columns, "date"), "fecha"), "day_id")
    ensures TokensAreNew(t5)
  {
    PreparedColumnsAvoid(t0.columns, Vocabulary(Column(t0, "learning")));
  }

  lemma PreparedColumnsAvoid(cols: seq<string>, v: seq<string>)
    requires forall tok :: tok in v ==>
      tok != "date" && tok != "day_id" && (tok in cols ==> tok == "fecha")
    ensures Elems(Put(Remove(Put(cols, "date"), "fecha"), "day_id")) !! Elems(v)
  {
  }

  /** One row of the result: the prepared row, its indicator cells beside
      it, and no `learning` cell. */
  function FinalRow(row: Row<Cell>, i: nat, vocab: seq<string>): Row<Cell>
    requires "fecha" in row && "status" in row && "productiveness" in row
    requires "important_achievements" in row && "learning" in row
    requires ToDatetime(row["fecha"]).Some?
  {
    (PreparedRow(row, i) + map tok | tok in Elems(vocab) :: Indicator(row["learning"], tok)) - {"learning"}
  }

  /** The column list of the result. */
  function FinalColumns(t0: Table<Cell>): seq<string>
    requires WellFormed(t0) && "learning" in t0.columns
  {
    Remove(Put(Remove(Put(t0.columns, "date"), "fecha"), "day_id"), "learning")
      + Vocabulary(Column(t0, "learning"))
  }

  /** The transform fails exactly when the rewritten header lacks one of
      the five columns it indexes or a date does not convert; the errors of
      the column steps come first, in the order of the source, and the
      missing `learning` column last. */
  lemma TransformOutcome(raw: RawTable)
    requires Admissible(raw)
    ensures Transform(raw).Ok? <==>
      HasPreparedColumns(Normalized(raw)) && DatesConvert(Normalized(raw)) &&
      "learning" in Normalized(raw).columns
    ensures Prepare(Normalized(raw)).Err? ==> Transform(raw) == Prepare(Normalized(raw))
    ensures Prepare(Normalized(raw)).Ok? && "learning" !in Normalized(raw).columns ==>
      Transform(raw) == Err(MissingColumn("learning"))
  {
    var t0 := Normalized(raw);
    PrepareOutcome(t0);
    if Prepare(t0).Ok? {
      PreparedLearning(t0);
    }
  }
}
