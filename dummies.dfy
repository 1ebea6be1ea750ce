/** `Series.str.get_dummies(sep=', ')`: a missing value counts as the empty
    text, every value is split on the separator, the vocabulary is the
    sorted set of all tokens without the empty one, and each row gets a 0/1
    indicator per vocabulary token. */
module Dummies {
  import opened Seqs
  import opened Strings
  import opened Tables

  const Sep: string := ", "

  /** The tokens of one `learning` cell. Numbers and dates do not reach this
      step (the `learning` cells of the transform are texts or missing); they
      are read as the empty text here. */
  function CellTokens(c: Cell): seq<string>
  {
    Split(CellText(c), Sep)
  }

  /** The text of a cell after `fillna("")`. */
  function CellText(c: Cell): string
  {
    if c.Text? then c.s else ""
  }

  /** All tokens of all cells, in row order, repetitions kept. */
  function AllTokens(cells: seq<Cell>): (r: seq<string>)
    ensures forall t :: t in r <==> exists i :: 0 <= i < |cells| && t in CellTokens(cells[i])
  {
    if cells == [] then []
    else
      var init := cells[..|cells| - 1];
      var r := AllTokens(init) + CellTokens(cells[|cells| - 1]);
      assert forall i :: 0 <= i < |init| ==> cells[i] == init[i];
      r
  }

  function NonEmpty(s: seq<string>): (r: seq<string>)
    ensures forall t :: t in r <==> t in s && t != ""
  {
    if s == [] then []
    else (if s[0] == "" then [] else [s[0]]) + NonEmpty(s[1..])
  }

  /** `sorted(tags - {""})`. */
  function Vocabulary(cells: seq<Cell>): seq<string>
  {
    SortDistinct(NonEmpty(AllTokens(cells)))
  }

  /** The vocabulary is exactly the non-empty tokens that occur in some row,
      each once, in code-point order. */
  lemma VocabularyIsTokenSet(cells: seq<Cell>)
    ensures StrictlySorted(Vocabulary(cells)) && Distinct(Vocabulary(cells))
    ensures forall t :: t in Vocabulary(cells) <==>
      t != "" && exists i :: 0 <= i < |cells| && t in CellTokens(cells[i])
  {
    var ne := NonEmpty(AllTokens(cells));
    SortDistinctCorrect(ne);
    StrictlySortedIsDistinct(Vocabulary(cells));
    forall t
      ensures t in Vocabulary(cells) <==> t in ne
    {
      assert t in Vocabulary(cells) <==> t in Elems(Vocabulary(cells));
      assert t in ne <==> t in Elems(ne);
    }
  }

  /** The 0/1 value of `token`'s column for one cell. */
  function Indicator(c: Cell, token: string): Cell
  {
    if token in CellTokens(c) then Int(1) else Int(0)
  }

  /** The indicator table: one column per vocabulary token, one row per cell. */
  function GetDummies(cells: seq<Cell>): (d: Table<Cell>)
    ensures WellFormed(d) && |d.rows| == |cells| && d.columns == Vocabulary(cells)
    ensures forall i, t :: 0 <= i < |cells| && t in d.columns ==>
      t in d.rows[i] && d.rows[i][t] == Indicator(cells[i], t)
  {
    VocabularyIsTokenSet(cells);
    var v := Vocabulary(cells);
    Table(v, seq(|cells|, i requires 0 <= i < |cells| => map t | t in Elems(v) :: Indicator(cells[i], t)))
  }

  /** A missing learning value sets no indicator. */
  lemma MissingHasNoTokens(t: string)
    requires t != ""
    ensures Indicator(Missing, t) == Int(0)
  {
  }

  /** Comma-free topics joined by the separator are read back as exactly
      those topics: splitting undoes the join. */
  lemma TopicsRoundTrip(topics: seq<string>)
    requires |topics| >= 1
    requires forall k :: 0 <= k < |topics| ==> ',' !in topics[k]
    ensures CellTokens(Text(JoinWith(topics, Sep))) == topics
  {
    SplitJoin(topics, Sep);
  }

  /** In particular two comma-free topics. */
  lemma SplitPair(a: string, b: string)
    requires ',' !in a && ',' !in b
    ensures Split(a + Sep + b, Sep) == [a, b]
  {
    var topics := [a, b];
    assert JoinWith(topics, Sep) == a + Sep + b by {
      assert topics[1..] == [b];
    }
    TopicsRoundTrip(topics);
  }

  /** The worked example: "SQL, Python" has the tokens `SQL` and `Python`. */
  lemma TwoTopics()
    ensures CellTokens(Text("SQL, Python")) == ["SQL", "Python"]
  {
    SplitPair("SQL", "Python");
    assert "SQL" + Sep + "Python" == "SQL, Python";
  }

  // ---------------------------------------------------------------------------
  // pandas' own formulation: every value is framed as `Sep + v + Sep`, the
  // tags are the pieces of the framed values, and a row has a token when
  // `Sep + token + Sep` is a substring of its framed value.

  /** The separator does not occur in `x`. */
  predicate SepFree(x: string)
  {
    forall i :: 0 <= i < |x| - 1 ==> !(x[i] == ',' && x[i + 1] == ' ')
  }

  /** `w` occurs in `s` at position `p`. */
  predicate OccursAt(s: string, w: string, p: int)
  {
    0 <= p && p + |w| <= |s| && s[p..p + |w|] == w
  }

  /** Python's `w in s` on strings. */
  predicate Contains(s: string, w: string)
  {
    exists p :: 0 <= p <= |s| && OccursAt(s, w, p)
  }

  /** pandas' indicator test for one cell. */
  function SubstringIndicator(c: Cell, token: string): Cell
  {
    if Contains(Sep + CellText(c) + Sep, Sep + token + Sep) then Int(1) else Int(0)
  }

  /** Splitting a value with a separator appended gives one more, empty,
      piece: `", "` cannot straddle the value's end. */
  lemma {:induction false} SplitAppendSep(v: string)
    ensures Split(v + Sep, Sep) == Split(v, Sep) + [""]
    decreases |v|
  {
    var s := v + Sep;
    if |v| == 0 {
      assert s == Sep && s[2..] == "";
    } else if |v| == 1 {
      assert s[1] == ',' && s[..2][1] != Sep[1];
      assert s[1..] == Sep && Sep[2..] == "";
      var rest := Split(s[1..], Sep);
      assert Split(Sep, Sep) == [""] + Split("", Sep) == ["", ""];
      assert rest == ["", ""];
      assert Split(s, Sep) == [[s[0]] + rest[0]] + rest[1..];
      assert [s[0]] + rest[0] == v;
      assert Split(v, Sep) == [v];
    } else if v[..2] == Sep {
      assert s[..2] == Sep && s[2..] == v[2..] + Sep;
      SplitAppendSep(v[2..]);
    } else {
      assert s[..2] == v[..2] && s[1..] == v[1..] + Sep;
      SplitAppendSep(v[1..]);
    }
  }

  /** The tags pandas collects from a value are its pieces plus two empty
      ones, which `tags - {""}` discards: the same vocabulary as splitting
      the bare value. */
  lemma FramedSplit(v: string)
    ensures Split(Sep + v + Sep, Sep) == [""] + Split(v, Sep) + [""]
  {
    var s := Sep + v + Sep;
    assert s[..2] == Sep && s[2..] == v + Sep;
    SplitAppendSep(v);
  }

  /** No piece of a split holds the separator. */
  lemma {:induction false} SplitPiecesSepFree(s: string)
    ensures forall k :: 0 <= k < |Split(s, Sep)| ==> SepFree(Split(s, Sep)[k])
    decreases |s|
  {
    if |s| < 2 {
    } else if s[..2] == Sep {
      SplitPiecesSepFree(s[2..]);
      assert Split(s, Sep)[1..] == Split(s[2..], Sep);
    } else {
      var rest := Split(s[1..], Sep);
      SplitPiecesSepFree(s[1..]);
      SplitHeadIsPrefix(s[1..], Sep);
      var head := [s[0]] + rest[0];
      assert SepFree(head) by {
        forall i | 0 <= i < |head| - 1
          ensures !(head[i] == ',' && head[i + 1] == ' ')
        {
          if i == 0 {
            assert head[1] == rest[0][0] == s[1];
            assert s[..2] == [s[0], s[1]];
          } else {
            assert head[i] == rest[0][i - 1] && head[i + 1] == rest[0][i];
          }
        }
      }
      assert Split(s, Sep) == [head] + rest[1..];
    }
  }

  /** The pieces, each behind a separator, and a closing separator. */
  function Framed(pieces: seq<string>): string
  {
    if pieces == [] then Sep else Sep + pieces[0] + Framed(pieces[1..])
  }

  lemma {:induction false} FramedJoin(pieces: seq<string>)
    requires |pieces| >= 1
    ensures Framed(pieces) == Sep + JoinWith(pieces, Sep) + Sep
  {
    if |pieces| > 1 {
      FramedJoin(pieces[1..]);
      assert Framed(pieces) == Sep + pieces[0] + (Sep + JoinWith(pieces[1..], Sep) + Sep);
    }
  }

  lemma FramedStart(pieces: seq<string>)
    ensures |Framed(pieces)| >= 2 && Framed(pieces)[0] == ',' && Framed(pieces)[1] == ' '
  {
  }

  /** An occurrence in `r` is an occurrence in `a + r`, shifted by `|a|`. */
  lemma ShiftOccurs(a: string, r: string, w: string, q: int)
    requires q >= 0
    ensures OccursAt(r, w, q) <==> OccursAt(a + r, w, q + |a|)
  {
    if q + |w| <= |r| {
      assert (a + r)[q + |a|..q + |a| + |w|] == r[q..q + |w|];
    }
  }

  /** An occurrence of a framed separator-free token that starts before
      the second separator of `Sep + p0 + r` is the token `p0` itself. */
  lemma HeadOccurrence(p0: string, r: string, t: string, p: int)
    requires SepFree(p0) && SepFree(t)
    requires |r| >= 2 && r[0] == ',' && r[1] == ' '
    requires OccursAt(Sep + p0 + r, Sep + t + Sep, p) && p < 2 + |p0|
    ensures p == 0 && t == p0
  {
    var S := Sep + p0 + r;
    var w := Sep + t + Sep;
    var n := |p0|;
    assert S[p..p + |w|] == w;
    assert forall i :: 2 <= i < 2 + n ==> S[i] == p0[i - 2];
    assert S[1] == ' ' && S[2 + n] == ',' && S[3 + n] == ' ';
    assert S[p] == ',' && S[p + 1] == ' ';
    if p == 0 {
      assert forall j :: 0 <= j < |t| ==> S[2 + j] == t[j];
      assert S[2 + |t|] == ',' && S[3 + |t|] == ' ';
      assert |t| == n;
      assert t == S[2..2 + n] == p0;
    } else {
      assert false;
    }
  }

  /** A separator-free token framed by separators occurs in framed
      separator-free pieces exactly when it is one of them. */
  lemma FramedContains(pieces: seq<string>, t: string)
    requires forall k :: 0 <= k < |pieces| ==> SepFree(pieces[k])
    requires SepFree(t)
    ensures Contains(Framed(pieces), Sep + t + Sep) <==> t in pieces
  {
    if t in pieces {
      FramedHasMember(pieces, t);
    }
    if Contains(Framed(pieces), Sep + t + Sep) {
      FramedOnlyMembers(pieces, t);
    }
  }

  lemma {:induction false} FramedHasMember(pieces: seq<string>, t: string)
    requires t in pieces
    ensures Contains(Framed(pieces), Sep + t + Sep)
  {
    var w := Sep + t + Sep;
    var a := Sep + pieces[0];
    var r := Framed(pieces[1..]);
    assert Framed(pieces) == a + r;
    if t == pieces[0] {
      FramedStart(pieces[1..]);
      assert Framed(pieces)[..|w|] == w;
      assert OccursAt(Framed(pieces), w, 0);
    } else {
      assert t in pieces[1..];
      FramedHasMember(pieces[1..], t);
      var q :| 0 <= q <= |r| && OccursAt(r, w, q);
      ShiftOccurs(a, r, w, q);
      assert OccursAt(Framed(pieces), w, q + |a|);
    }
  }

  lemma {:induction false} FramedOnlyMembers(pieces: seq<string>, t: string)
    requires forall k :: 0 <= k < |pieces| ==> SepFree(pieces[k])
    requires SepFree(t)
    requires Contains(Framed(pieces), Sep + t + Sep)
    ensures t in pieces
  {
    var w := Sep + t + Sep;
    var S := Framed(pieces);
    var p :| 0 <= p <= |S| && OccursAt(S, w, p);
    if pieces == [] {
      assert false;
    }
    var a := Sep + pieces[0];
    var r := Framed(pieces[1..]);
    assert S == a + r && S == Sep + pieces[0] + r;
    if p >= |a| {
      ShiftOccurs(a, r, w, p - |a|);
      assert OccursAt(r, w, p - |a|);
      assert forall k :: 0 <= k < |pieces[1..]| ==> SepFree(pieces[1..][k]) by {
        assert forall k :: 0 <= k < |pieces[1..]| ==> pieces[1..][k] == pieces[k + 1];
      }
      FramedOnlyMembers(pieces[1..], t);
    } else {
      FramedStart(pieces[1..]);
      HeadOccurrence(pieces[0], r, t, p);
    }
  }

  /** pandas' substring test agrees with token membership for every token
      that holds no separator, which every vocabulary token is. */
  lemma SubstringIndicatorAgrees(c: Cell, token: string)
    requires SepFree(token)
    ensures SubstringIndicator(c, token) == Indicator(c, token)
  {
    var v := CellText(c);
    JoinSplit(v, Sep);
    FramedJoin(Split(v, Sep));
    SplitPiecesSepFree(v);
    FramedContains(Split(v, Sep), token);
  }

  /** Every vocabulary token is separator-free, so for every row and every
      indicator column the model's test is pandas' test. */
  lemma VocabularySubstringTest(cells: seq<Cell>)
    ensures forall i, t :: 0 <= i < |cells| && t in Vocabulary(cells) ==>
      SubstringIndicator(cells[i], t) == Indicator(cells[i], t)
  {
    VocabularyIsTokenSet(cells);
    forall i, t | 0 <= i < |cells| && t in Vocabulary(cells)
      ensures SubstringIndicator(cells[i], t) == Indicator(cells[i], t)
    {
      var j :| 0 <= j < |cells| && t in CellTokens(cells[j]);
      SplitPiecesSepFree(CellText(cells[j]));
      SubstringIndicatorAgrees(cells[i], t);
    }
  }
}
