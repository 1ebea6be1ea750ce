/** What `transform_data` promises about its result, column by column, for
    the table with the rewritten header (`Normalized`) as input. */
module TransformResults {
  import opened Seqs
  import opened Strings
  import opened Tables
  import opened Dates
  import opened Encodings
  import opened Dummies
  import opened Transformation

  /** The result, row by row and column by column: the rows keep their
      number and order, and each is `FinalRow` of the normalised row. */
  lemma TransformRows(t0: Table<Cell>)
    requires WellFormed(t0) && NoTokenClash(t0) && TransformTable(t0).Ok?
    ensures HasPreparedColumns(t0) && DatesConvert(t0)
    ensures "learning" in t0.columns
    ensures WellFormed(TransformTable(t0).value) && |TransformTable(t0).value.rows| == |t0.rows|
    ensures TransformTable(t0).value.columns == FinalColumns(t0)
    ensures forall i :: 0 <= i < |t0.rows| ==>
      TransformTable(t0).value.rows[i] ==
        FinalRow(t0.rows[i], i, Vocabulary(Column(t0, "learning")))
  {
    PrepareOutcome(t0);
    PrepareRows(t0);
    PreparedLearning(t0);
    var t5 := Prepare(t0).value;
    var vocab := Vocabulary(Column(t0, "learning"));
    var d := GetDummies(Column(t5, "learning"));
    var c := Concat(t5, d);
    var r := DropColumn(c, "learning");
    assert TransformTable(t0).value == r;
    assert "learning" !in d.columns;
    RemoveConcat(t5.columns, d.columns, "learning");
    forall i | 0 <= i < |t0.rows|
      ensures r.rows[i] == FinalRow(t0.rows[i], i, vocab)
    {
      var m := map tok | tok in Elems(vocab) :: Indicator(t0.rows[i]["learning"], tok);
      assert d.rows[i] == m;
      assert t5.rows[i] == PreparedRow(t0.rows[i], i);
    }
  }

  /** The column names the transform writes or indexes. */
  predicate Reserved(c: string)
  {
    c in {"fecha", "date", "day_id", "status", "productiveness", "important_achievements", "learning"}
  }

  /** The cells of one result row that the date and numbering steps write. */
  lemma FinalRowCells(row: Row<Cell>, i: nat, vocab: seq<string>)
    requires "fecha" in row && "status" in row && "productiveness" in row
    requires "important_achievements" in row && "learning" in row
    requires ToDatetime(row["fecha"]).Some?
    requires forall tok :: tok in vocab ==> !Reserved(tok) || tok == "fecha"
    ensures "learning" !in FinalRow(row, i, vocab)
    ensures "day_id" in FinalRow(row, i, vocab) && FinalRow(row, i, vocab)["day_id"] == Int(i + 1)
    ensures "date" in FinalRow(row, i, vocab) &&
      FinalRow(row, i, vocab)["date"] == ToDatetime(row["fecha"]).value
  {
    var p := PreparedRow(row, i);
    var d := map tok | tok in Elems(vocab) :: Indicator(row["learning"], tok);
    assert FinalRow(row, i, vocab) == (p + d) - {"learning"};
    assert Reserved("date") && Reserved("day_id");
    assert "date" !in d && "day_id" !in d;
  }

  /** The cells of one result row that the encoding steps write. */
  lemma FinalRowCodes(row: Row<Cell>, i: nat, vocab: seq<string>)
    requires "fecha" in row && "status" in row && "productiveness" in row
    requires "important_achievements" in row && "learning" in row
    requires ToDatetime(row["fecha"]).Some?
    requires forall tok :: tok in vocab ==> !Reserved(tok) || tok == "fecha"
    ensures "status" in FinalRow(row, i, vocab) &&
      FinalRow(row, i, vocab)["status"] == MapCell(StatusMap, row["status"])
    ensures "productiveness" in FinalRow(row, i, vocab) &&
      FinalRow(row, i, vocab)["productiveness"] == MapCell(ProductivenessMap, row["productiveness"])
    ensures "important_achievements" in FinalRow(row, i, vocab) &&
      FinalRow(row, i, vocab)["important_achievements"] ==
        FillMissing(row["important_achievements"], Text("No"))
  {
    var p := PreparedRow(row, i);
    var d := map tok | tok in Elems(vocab) :: Indicator(row["learning"], tok);
    assert FinalRow(row, i, vocab) == (p + d) - {"learning"};
    assert Reserved("status") && Reserved("productiveness") && Reserved("important_achievements");
    assert "status" !in d && "productiveness" !in d && "important_achievements" !in d;
  }

  /** The indicator cells and the cells the transform does not touch. */
  lemma FinalRowOtherCells(row: Row<Cell>, i: nat, vocab: seq<string>)
    requires "fecha" in row && "status" in row && "productiveness" in row
    requires "important_achievements" in row && "learning" in row
    requires ToDatetime(row["fecha"]).Some?
    requires forall tok :: tok in vocab ==> !Reserved(tok) || tok == "fecha"
    ensures forall tok :: tok in vocab ==>
      tok in FinalRow(row, i, vocab) && FinalRow(row, i, vocab)[tok] == Indicator(row["learning"], tok)
    ensures forall c :: c in row && !Reserved(c) && c !in vocab ==>
      c in FinalRow(row, i, vocab) && FinalRow(row, i, vocab)[c] == row[c]
  {
    var p := PreparedRow(row, i);
    var d := map tok | tok in Elems(vocab) :: Indicator(row["learning"], tok);
    assert FinalRow(row, i, vocab) == (p + d) - {"learning"};
    forall tok | tok in vocab
      ensures tok in FinalRow(row, i, vocab) && FinalRow(row, i, vocab)[tok] == Indicator(row["learning"], tok)
    {
      assert tok in Elems(vocab) && tok != "learning";
    }
    forall c | c in row && !Reserved(c) && c !in vocab
      ensures c in FinalRow(row, i, vocab) && FinalRow(row, i, vocab)[c] == row[c]
    {
      PreparedRowKeeps(row, i, c);
      assert c !in d;
    }
  }

  /** Under `NoTokenClash`, a token is never one of the names the transform
      writes, except possibly `fecha`. */
  lemma VocabularyAvoidsReserved(t0: Table<Cell>)
    requires WellFormed(t0) && NoTokenClash(t0) && HasPreparedColumns(t0) && "learning" in t0.columns
    ensures forall tok :: tok in Vocabulary(Column(t0, "learning")) ==> !Reserved(tok) || tok == "fecha"
  {
  }

  /** The `i`-th result row is made from the `i`-th normalised row. */
  lemma ResultRow(t0: Table<Cell>, i: nat)
    requires WellFormed(t0) && NoTokenClash(t0) && TransformTable(t0).Ok? && i < |t0.rows|
    ensures HasPreparedColumns(t0) && "learning" in t0.columns
    ensures i < |TransformTable(t0).value.rows| && i < |t0.rows|
    ensures DatesConvert(t0)
    ensures forall tok :: tok in Vocabulary(Column(t0, "learning")) ==>
      !Reserved(tok) || tok == "fecha"
    ensures TransformTable(t0).value.rows[i] ==
      FinalRow(t0.rows[i], i, Vocabulary(Column(t0, "learning")))
  {
    TransformRows(t0);
    VocabularyAvoidsReserved(t0);
  }

  /** Line 23: the rows are numbered 1, 2, … in their order, so the ids
      are unique and increase with the row. */
  lemma DayIds(t0: Table<Cell>)
    requires WellFormed(t0) && NoTokenClash(t0) && TransformTable(t0).Ok?
    ensures HasPreparedColumns(t0) && "learning" in t0.columns
    ensures "day_id" in TransformTable(t0).value.columns
    ensures forall i :: 0 <= i < |TransformTable(t0).value.rows| ==>
      "day_id" in TransformTable(t0).value.rows[i] && TransformTable(t0).value.rows[i]["day_id"] == Int(i + 1)
    ensures forall i, j :: 0 <= i < j < |TransformTable(t0).value.rows| ==>
      TransformTable(t0).value.rows[i]["day_id"].n < TransformTable(t0).value.rows[j]["day_id"].n
  {
    TransformRows(t0);
    var r := TransformTable(t0).value;
    assert "day_id" in Elems(FinalColumns(t0));
    forall i | 0 <= i < |r.rows|
      ensures "day_id" in r.rows[i] && r.rows[i]["day_id"] == Int(i + 1)
    {
      ResultRow(t0, i);
      FinalRowCells(t0.rows[i], i, Vocabulary(Column(t0, "learning")));
    }
  }

  /** Lines 19–20: each `date` cell is the `fecha` value read in the
      `%d/%m/%Y` format: missing where it was missing or a NaT text,
      otherwise the valid calendar date its text spells. */
  lemma DateColumn(t0: Table<Cell>)
    requires WellFormed(t0) && NoTokenClash(t0) && TransformTable(t0).Ok?
    ensures HasPreparedColumns(t0) && "learning" in t0.columns
    ensures "date" in TransformTable(t0).value.columns
    ensures forall i :: 0 <= i < |TransformTable(t0).value.rows| ==> DateCell(t0.rows[i], TransformTable(t0).value.rows[i])
  {
    TransformRows(t0);
    var r := TransformTable(t0).value;
    assert "date" in Elems(FinalColumns(t0));
    forall i | 0 <= i < |r.rows|
      ensures DateCell(t0.rows[i], r.rows[i])
    {
      ResultRow(t0, i);
      FinalRowCells(t0.rows[i], i, Vocabulary(Column(t0, "learning")));
      ToDatetimeMeaning(t0.rows[i]["fecha"]);
    }
  }

  /** The `date` cell of a result row against the `fecha` cell of its
      source row. */
  predicate DateCell(row: Row<Cell>, out: Row<Cell>)
  {
    && "fecha" in row && "date" in out
    && (out["date"] == Missing <==> IsNaT(row["fecha"]))
    && (out["date"] != Missing ==>
          && out["date"].Day? && row["fecha"].Text?
          && ParseDate(row["fecha"].s) == Some(out["date"].date)
          && ValidDate(out["date"].date))
  }

  lemma ToDatetimeMeaning(c: Cell)
    requires ToDatetime(c).Some?
    ensures ToDatetime(c).value == Missing <==> IsNaT(c)
    ensures ToDatetime(c).value != Missing ==>
      && ToDatetime(c).value.Day? && c.Text?
      && ParseDate(c.s) == Some(ToDatetime(c).value.date)
      && ValidDate(ToDatetime(c).value.date)
  {
  }

  /** The `status` code of a result row: 0 exactly for "In progress", 1
      exactly for "Complete", missing for anything else. */
  predicate StatusCell(row: Row<Cell>, out: Row<Cell>)
  {
    && "status" in row && "status" in out
    && (out["status"] == Int(0) <==> row["status"] == Text("In progress"))
    && (out["status"] == Int(1) <==> row["status"] == Text("Complete"))
    && (out["status"] == Missing <==> row["status"] != Text("In progress") && row["status"] != Text("Complete"))
  }

  /** Lines 26–27. */
  lemma StatusCodes(t0: Table<Cell>)
    requires WellFormed(t0) && NoTokenClash(t0) && TransformTable(t0).Ok?
    ensures HasPreparedColumns(t0) && "learning" in t0.columns
    ensures "status" in TransformTable(t0).value.columns
    ensures forall i :: 0 <= i < |TransformTable(t0).value.rows| ==> StatusCell(t0.rows[i], TransformTable(t0).value.rows[i])
  {
    TransformRows(t0);
    var r := TransformTable(t0).value;
    assert "status" in Elems(FinalColumns(t0));
    forall i | 0 <= i < |r.rows|
      ensures StatusCell(t0.rows[i], r.rows[i])
    {
      ResultRow(t0, i);
      FinalRowCodes(t0.rows[i], i, Vocabulary(Column(t0, "learning")));
      StatusEncoding(t0.rows[i]["status"]);
    }
  }

  /** The `productiveness` code of a result row: `k` exactly for `k` stars
      with `1 <= k <= 5`, missing for anything else. */
  ghost predicate ProductivenessCell(row: Row<Cell>, out: Row<Cell>)
  {
    && "productiveness" in row && "productiveness" in out
    && (out["productiveness"] == Missing <==>
          !(exists k :: 1 <= k <= 5 && row["productiveness"] == Text(Stars(k))))
    && forall k :: out["productiveness"] == Int(k) <==> 1 <= k <= 5 && row["productiveness"] == Text(Stars(k))
  }

  /** Lines 29–30. */
  lemma ProductivenessCodes(t0: Table<Cell>)
    requires WellFormed(t0) && NoTokenClash(t0) && TransformTable(t0).Ok?
    ensures HasPreparedColumns(t0) && "learning" in t0.columns
    ensures "productiveness" in TransformTable(t0).value.columns
    ensures forall i :: 0 <= i < |TransformTable(t0).value.rows| ==>
      ProductivenessCell(t0.rows[i], TransformTable(t0).value.rows[i])
  {
    TransformRows(t0);
    var r := TransformTable(t0).value;
    assert "productiveness" in Elems(FinalColumns(t0));
    forall i | 0 <= i < |r.rows|
      ensures ProductivenessCell(t0.rows[i], r.rows[i])
    {
      ResultRow(t0, i);
      FinalRowCodes(t0.rows[i], i, Vocabulary(Column(t0, "learning")));
      var c := t0.rows[i]["productiveness"];
      forall k ensures r.rows[i]["productiveness"] == Int(k) <==> 1 <= k <= 5 && c == Text(Stars(k)) {
        ProductivenessEncoding(c, k);
      }
      ProductivenessEncoding(c, 0);
    }
  }

  /** The `important_achievements` cell of a result row: never missing,
      "No" where the source row had none, otherwise unchanged. */
  predicate AchievementsCell(row: Row<Cell>, out: Row<Cell>)
  {
    && "important_achievements" in row && "important_achievements" in out
    && out["important_achievements"] != Missing
    && (row["important_achievements"] == Missing ==> out["important_achievements"] == Text("No"))
    && (row["important_achievements"] != Missing ==> out["important_achievements"] == row["important_achievements"])
  }

  /** Line 33. */
  lemma Achievements(t0: Table<Cell>)
    requires WellFormed(t0) && NoTokenClash(t0) && TransformTable(t0).Ok?
    ensures HasPreparedColumns(t0) && "learning" in t0.columns
    ensures "important_achievements" in TransformTable(t0).value.columns
    ensures forall i :: 0 <= i < |TransformTable(t0).value.rows| ==>
      AchievementsCell(t0.rows[i], TransformTable(t0).value.rows[i])
  {
    TransformRows(t0);
    var r := TransformTable(t0).value;
    assert "important_achievements" in Elems(FinalColumns(t0));
    forall i | 0 <= i < |r.rows|
      ensures AchievementsCell(t0.rows[i], r.rows[i])
    {
      ResultRow(t0, i);
      FinalRowCodes(t0.rows[i], i, Vocabulary(Column(t0, "learning")));
    }
  }

  /** The indicator cells of a result row: 1 for the tokens its learning
      value lists and 0 for every other vocabulary token. */
  predicate IndicatorCells(row: Row<Cell>, out: Row<Cell>, vocab: seq<string>)
  {
    && "learning" in row
    && forall tok :: tok in vocab ==>
         && tok in out
         && (out[tok] == Int(1) <==> tok in CellTokens(row["learning"]))
         && (out[tok] == Int(0) <==> tok !in CellTokens(row["learning"]))
  }

  /** Lines 36–37, the header: `learning` is gone, and the vocabulary of the
      learning column (see `Dummies.VocabularyIsTokenSet`) makes up the last
      columns, in its sorted order. */
  lemma LearningColumns(t0: Table<Cell>)
    requires WellFormed(t0) && NoTokenClash(t0) && TransformTable(t0).Ok?
    ensures HasPreparedColumns(t0) && "learning" in t0.columns
    ensures "learning" !in TransformTable(t0).value.columns
    ensures |Vocabulary(Column(t0, "learning"))| <= |TransformTable(t0).value.columns|
    ensures TransformTable(t0).value.columns[|TransformTable(t0).value.columns| - |Vocabulary(Column(t0, "learning"))|..]
      == Vocabulary(Column(t0, "learning"))
  {
    TransformRows(t0);
    var r := TransformTable(t0).value;
    var vocab := Vocabulary(Column(t0, "learning"));
    var front := Remove(Put(Remove(Put(t0.columns, "date"), "fecha"), "day_id"), "learning");
    assert r.columns == front + vocab;
    assert r.columns[|r.columns| - |vocab|..] == vocab;
    VocabularyAvoidsReserved(t0);
    assert Reserved("learning");
    assert "learning" !in vocab;
  }

  /** Lines 36–37, the cells: each vocabulary column holds 1 in the rows
      whose learning value lists that token and 0 elsewhere. */
  lemma LearningIndicators(t0: Table<Cell>)
    requires WellFormed(t0) && NoTokenClash(t0) && TransformTable(t0).Ok?
    ensures HasPreparedColumns(t0) && "learning" in t0.columns
    ensures forall i :: 0 <= i < |TransformTable(t0).value.rows| ==>
      IndicatorCells(t0.rows[i], TransformTable(t0).value.rows[i], Vocabulary(Column(t0, "learning")))
  {
    TransformRows(t0);
    var r := TransformTable(t0).value;
    var vocab := Vocabulary(Column(t0, "learning"));
    forall i | 0 <= i < |r.rows|
      ensures IndicatorCells(t0.rows[i], r.rows[i], vocab)
    {
      ResultRow(t0, i);
      FinalRowOtherCells(t0.rows[i], i, vocab);
    }
  }

  /** A result row keeps the cells of every column the transform does not
      touch. */
  predicate KeepsOthers(row: Row<Cell>, out: Row<Cell>)
  {
    forall c :: c in row && !Reserved(c) ==> c in out && out[c] == row[c]
  }

  /** Every other column is still there and keeps its values. */
  lemma OtherColumns(t0: Table<Cell>)
    requires WellFormed(t0) && NoTokenClash(t0) && TransformTable(t0).Ok?
    ensures forall c :: c in t0.columns && !Reserved(c) ==> c in TransformTable(t0).value.columns
    ensures forall i :: 0 <= i < |TransformTable(t0).value.rows| ==>
      KeepsOthers(t0.rows[i], TransformTable(t0).value.rows[i])
  {
    TransformRows(t0);
    var r := TransformTable(t0).value;
    var vocab := Vocabulary(Column(t0, "learning"));
    VocabularyAvoidsReserved(t0);
    forall i | 0 <= i < |r.rows|
      ensures KeepsOthers(t0.rows[i], r.rows[i])
    {
      ResultRow(t0, i);
      FinalRowOtherCells(t0.rows[i], i, vocab);
    }
    OtherColumnNames(t0.columns, vocab);
  }

  lemma OtherColumnNames(cols: seq<string>, vocab: seq<string>)
    ensures forall c :: c in cols && !Reserved(c) ==>
      c in Remove(Put(Remove(Put(cols, "date"), "fecha"), "day_id"), "learning") + vocab
  {
    forall c | c in cols && !Reserved(c)
      ensures c in Remove(Put(Remove(Put(cols, "date"), "fecha"), "day_id"), "learning")
    {
      assert c != "fecha" && c != "learning" by { assert Reserved("fecha") && Reserved("learning"); }
    }
  }

  /** `fecha` is absent from the result unless it is itself a learning
      token, in which case it is that token's indicator column. */
  lemma FechaOnlyAsToken(t0: Table<Cell>)
    requires WellFormed(t0) && NoTokenClash(t0) && TransformTable(t0).Ok?
    ensures HasPreparedColumns(t0) && "learning" in t0.columns
    ensures "fecha" in TransformTable(t0).value.columns <==>
      "fecha" in Vocabulary(Column(t0, "learning"))
  {
    TransformRows(t0);
  }

  // ---------------------------------------------------------------------------
  // The same promises for the table as loaded: `Transform(raw)`, where the
  // column a step reads is the loaded column whose name the header rewrite
  // turns into that step's name.

  /** Column `k` of the loaded table is the one the rewrite names `name`. */
  predicate Source(raw: RawTable, k: int, name: string)
  {
    0 <= k < |raw.columns| && NormalizeName(raw.columns[k]) == name
  }

  lemma RawDayIds(raw: RawTable)
    requires Admissible(raw) && Transform(raw).Ok?
    ensures |Transform(raw).value.rows| == |raw.rows|
    ensures forall i :: 0 <= i < |raw.rows| ==>
      "day_id" in Transform(raw).value.rows[i] && Transform(raw).value.rows[i]["day_id"] == Int(i + 1)
  {
    DayIds(Normalized(raw));
  }

  lemma RawDates(raw: RawTable)
    requires Admissible(raw) && Transform(raw).Ok?
    ensures |Transform(raw).value.rows| == |raw.rows|
    ensures exists k :: Source(raw, k, "fecha")
    ensures forall i, k :: 0 <= i < |raw.rows| && Source(raw, k, "fecha") ==>
      && DateCell(Normalized(raw).rows[i], Transform(raw).value.rows[i])
      && Normalized(raw).rows[i]["fecha"] == LiftCell(raw.rows[i][raw.columns[k]])
  {
    var t0 := Normalized(raw);
    DateColumn(t0);
    NormalizedCells(raw);
    RenamedFrom(raw, "fecha");
  }

  lemma RawStatusCodes(raw: RawTable)
    requires Admissible(raw) && Transform(raw).Ok?
    ensures |Transform(raw).value.rows| == |raw.rows|
    ensures exists k :: Source(raw, k, "status")
    ensures forall i, k :: 0 <= i < |raw.rows| && Source(raw, k, "status") ==>
      && StatusCell(Normalized(raw).rows[i], Transform(raw).value.rows[i])
      && Normalized(raw).rows[i]["status"] == LiftCell(raw.rows[i][raw.columns[k]])
  {
    var t0 := Normalized(raw);
    StatusCodes(t0);
    NormalizedCells(raw);
    RenamedFrom(raw, "status");
  }

  lemma RawLearningIndicators(raw: RawTable)
    requires Admissible(raw) && Transform(raw).Ok?
    ensures |Transform(raw).value.rows| == |raw.rows|
    ensures exists k :: Source(raw, k, "learning")
    ensures forall i, k :: 0 <= i < |raw.rows| && Source(raw, k, "learning") ==>
      && IndicatorCells(Normalized(raw).rows[i], Transform(raw).value.rows[i], Vocabulary(Column(Normalized(raw), "learning")))
      && Normalized(raw).rows[i]["learning"] == LiftCell(raw.rows[i][raw.columns[k]])
  {
    var t0 := Normalized(raw);
    LearningIndicators(t0);
    NormalizedCells(raw);
    RenamedFrom(raw, "learning");
  }

  /** A column of the rewritten table comes from some loaded column. */
  lemma RenamedFrom(raw: RawTable, name: string)
    requires WellFormed(raw) && Distinct(NormalizeColumns(raw.columns))
    requires name in Normalized(raw).columns
    ensures exists k :: Source(raw, k, name)
  {
    NormalizedCells(raw);
    var k :| 0 <= k < |Normalized(raw).columns| && Normalized(raw).columns[k] == name;
    assert Source(raw, k, name);
  }
}

