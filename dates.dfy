/** `pd.to_datetime(text, format='%d/%m/%Y')` on one value. The format is
    matched as Python's `strptime` matches it: `%d` is `01`–`31`, `1`–`9`
    or a space and `1`–`9`; `%m` is `01`–`12` or `1`–`9`; `%Y` is exactly
    four digits; the two `/` are literal and nothing may follow the year.
    The fields must then form a real calendar date. */
module Dates {
  import opened Seqs
  import opened Strings
  import opened Tables

  predicate IsLeapYear(y: int)
  {
    y % 4 == 0 && (y % 100 != 0 || y % 400 == 0)
  }

  function DaysInMonth(year: int, month: int): (n: int)
    requires 1 <= month <= 12
    ensures 28 <= n <= 31
  {
    if month == 2 then (if IsLeapYear(year) then 29 else 28)
    else if month == 4 || month == 6 || month == 9 || month == 11 then 30
    else 31
  }

  /** The dates Python's `datetime.date` accepts. */
  predicate ValidDate(d: Date)
  {
    && 1 <= d.year <= 9999
    && 1 <= d.month <= 12
    && 1 <= d.day <= DaysInMonth(d.year, d.month)
  }

  /** The value of a two-digit field. */
  function TwoDigits(f: string): (v: nat)
    requires |f| == 2 && IsDigit(f[0]) && IsDigit(f[1])
    ensures v < 100
  {
    10 * DigitValue(f[0]) + DigitValue(f[1])
  }

  /** The `%d` field. */
  function DayField(f: string): (r: Option<int>)
    ensures r.Some? ==> 1 <= r.value <= 31 && 1 <= |f| <= 2
  {
    if |f| == 2 && IsDigit(f[0]) && IsDigit(f[1]) && 1 <= TwoDigits(f) <= 31 then Some(TwoDigits(f))
    else if |f| == 1 && IsDigit(f[0]) && f[0] != '0' then Some(DigitValue(f[0]))
    else if |f| == 2 && f[0] == ' ' && IsDigit(f[1]) && f[1] != '0' then Some(DigitValue(f[1]))
    else None
  }

  /** The `%m` field. */
  function MonthField(f: string): (r: Option<int>)
    ensures r.Some? ==> 1 <= r.value <= 12 && 1 <= |f| <= 2
  {
    if |f| == 2 && IsDigit(f[0]) && IsDigit(f[1]) && 1 <= TwoDigits(f) <= 12 then Some(TwoDigits(f))
    else if |f| == 1 && IsDigit(f[0]) && f[0] != '0' then Some(DigitValue(f[0]))
    else None
  }

  /** The `%Y` field. */
  function YearField(f: string): (r: Option<int>)
    ensures r.Some? ==> 0 <= r.value <= 9999 && |f| == 4
  {
    if |f| == 4 && AllDigits(f) then
      DecimalBound(f);
      Some(Decimal(f))
    else None
  }

  lemma {:induction false} DecimalBound(s: string)
    requires AllDigits(s)
    ensures Decimal(s) < Pow10(|s|)
  {
    if s != [] {
      DecimalBound(s[..|s| - 1]);
    }
  }

  /** Parse `day/month/year`; `None` is the format error that makes pandas
      raise. */
  function ParseDate(s: string): (r: Option<Date>)
    ensures r.Some? ==> ValidDate(r.value)
  {
    var parts := Split(s, "/");
    if |parts| != 3 then None
    else
      match (DayField(parts[0]), MonthField(parts[1]), YearField(parts[2]))
      case (Some(d), Some(m), Some(y)) =>
        if ValidDate(Date(y, m, d)) then Some(Date(y, m, d)) else None
      case _ => None
  }

  /** The canonical `DD/MM/YYYY` spelling of a date. */
  function FormatDate(d: Date): string
    requires ValidDate(d)
  {
    Padded(d.day, 2) + "/" + Padded(d.month, 2) + "/" + Padded(d.year, 4)
  }

  lemma NoSlashInDigits(s: string)
    requires AllDigits(s)
    ensures '/' !in s
  {
    forall i | 0 <= i < |s|
      ensures s[i] != '/'
    {
      assert IsDigit(s[i]);
    }
  }

  /** Every date that can be written in the format is read back as itself. */
  lemma ParseFormat(d: Date)
    requires ValidDate(d)
    ensures ParseDate(FormatDate(d)) == Some(d)
  {
    var dd, mm, yyyy := Padded(d.day, 2), Padded(d.month, 2), Padded(d.year, 4);
    PaddedFields(d);
    NoSlashInDigits(dd);
    NoSlashInDigits(mm);
    NoSlashInDigits(yyyy);
    ParseFields(dd, mm, yyyy);
  }

  /** Each zero-padded field of a valid date reads back as its value. */
  lemma PaddedFields(d: Date)
    requires ValidDate(d)
    ensures DayField(Padded(d.day, 2)) == Some(d.day)
    ensures MonthField(Padded(d.month, 2)) == Some(d.month)
    ensures YearField(Padded(d.year, 4)) == Some(d.year)
  {
    assert Pow10(2) == 100 && Pow10(4) == 10000;
    DecimalPadded(d.day, 2);
    DecimalPadded(d.month, 2);
    DecimalPadded(d.year, 4);
    DecimalTwo(Padded(d.day, 2));
    DecimalTwo(Padded(d.month, 2));
  }

  /** A single-digit day or month reads the same as its zero-padded form. */
  lemma ShortFieldsAgree(c: char)
    requires IsDigit(c) && c != '0'
    ensures DayField([c]) == DayField(['0', c]) == DayField([' ', c]) == Some(DigitValue(c))
    ensures MonthField([c]) == MonthField(['0', c]) == Some(DigitValue(c))
  {
    assert [c][..0] == [] && ['0', c][..1] == ['0'] && ['0'][..0] == [];
  }

  /** Forms each field rejects: a zero day or month, a day beyond 31, a
      month beyond 12, a space-padded month, and a year of other than four
      digits. */
  lemma RejectedFields()
    ensures DayField("00").None? && DayField("0").None? && DayField("32").None? && DayField(" 0").None?
    ensures MonthField("00").None? && MonthField("0").None? && MonthField("13").None? && MonthField(" 1").None?
    ensures YearField("024").None? && YearField("20245").None? && YearField("2o24").None?
  {
    assert TwoDigits("32") == 32 && TwoDigits("13") == 13;
    assert !IsDigit("2o24"[1]);
  }

  /** A text that parses has exactly two `/`, so nothing but the three
      fields is accepted: in particular no trailing characters. */
  lemma ParsedHasThreeFields(s: string)
    requires ParseDate(s).Some?
    ensures JoinWith(Split(s, "/"), "/") == s && |Split(s, "/")| == 3
  {
    JoinSplit(s, "/");
  }

  /** The shortest accepted text is `d/m/yyyy`: eight characters. */
  lemma ShortestDate(s: string)
    requires ParseDate(s).Some?
    ensures |s| >= 8
  {
    ParsedHasThreeFields(s);
    var parts := Split(s, "/");
    assert parts[1..][0] == parts[1] && parts[1..][1..] == [parts[2]];
    assert JoinWith(parts[1..], "/") == parts[1] + "/" + parts[2];
    assert |s| == |parts[0]| + 1 + |parts[1]| + 1 + |parts[2]|;
    assert DayField(parts[0]).Some? && MonthField(parts[1]).Some? && YearField(parts[2]).Some?;
  }

  lemma DecimalTwo(f: string)
    requires |f| == 2 && AllDigits(f)
    ensures Decimal(f) == TwoDigits(f)
  {
    var h := f[..1];
    assert h[..0] == [] && h[0] == f[0];
    assert Decimal(h) == DigitValue(f[0]);
  }

  /** The date of `a/b/c`, when none of the three holds a `/`, is read off
      the three fields. */
  lemma ParseFields(a: string, b: string, c: string)
    requires '/' !in a && '/' !in b && '/' !in c
    ensures ParseDate(a + "/" + b + "/" + c) ==
      match (DayField(a), MonthField(b), YearField(c))
      case (Some(d), Some(m), Some(y)) =>
        if ValidDate(Date(y, m, d)) then Some(Date(y, m, d)) else None
      case _ => None
  {
    var parts := [a, b, c];
    assert JoinWith(parts[2..], "/") == c;
    assert JoinWith(parts[1..], "/") == b + "/" + c;
    assert JoinWith(parts, "/") == a + "/" + b + "/" + c;
    SplitJoin(parts, "/");
  }

  lemma Year2024()
    ensures YearField("2024") == Some(2024) && YearField("2023") == Some(2023)
  {
    assert "2024"[..3] == "202" && "2023"[..3] == "202";
    assert "202"[..2] == "20" && "20"[..1] == "2" && "2"[..0] == "";
  }

  /** The 31st of April is a format error. */
  lemma RejectsDayBeyondMonth()
    ensures ParseDate("31/04/2024").None?
  {
    Year2024();
    assert !ValidDate(Date(2024, 4, 31));
    assert DayField("31") == Some(31) && MonthField("04") == Some(4);
    ParseFields("31", "04", "2024");
    assert "31/04/2024" == "31" + "/" + "04" + "/" + "2024";
  }

  /** The 29th of February parses in a leap year only. */
  lemma LeapDay()
    ensures ParseDate("29/02/2024") == Some(Date(2024, 2, 29))
    ensures ParseDate("29/02/2023").None?
  {
    Year2024();
    assert IsLeapYear(2024) && ValidDate(Date(2024, 2, 29));
    assert !IsLeapYear(2023) && !ValidDate(Date(2023, 2, 29));
    assert DayField("29") == Some(29) && MonthField("02") == Some(2);
    ParseFields("29", "02", "2024");
    assert "29/02/2024" == "29" + "/" + "02" + "/" + "2024";
    ParseFields("29", "02", "2023");
    assert "29/02/2023" == "29" + "/" + "02" + "/" + "2023";
  }

  /** A two-digit year and a character after the year are format errors. */
  lemma RejectsShortOrTrailingYear()
    ensures ParseDate("01/03/24").None?
    ensures ParseDate("01/03/2024 ").None?
  {
    assert YearField("24").None? && YearField("2024 ").None?;
    ParseFields("01", "03", "24");
    assert "01/03/24" == "01" + "/" + "03" + "/" + "24";
    ParseFields("01", "03", "2024 ");
    assert "01/03/2024 " == "01" + "/" + "03" + "/" + "2024 ";
  }

  /** `01/03/2024` is the first of March 2024. */
  lemma FirstOfMarch()
    ensures ParseDate("01/03/2024") == Some(Date(2024, 3, 1))
  {
    Year2024();
    assert ValidDate(Date(2024, 3, 1));
    assert DayField("01") == Some(1) && MonthField("03") == Some(3);
    ParseFields("01", "03", "2024");
    assert "01/03/2024" == "01" + "/" + "03" + "/" + "2024";
  }

  /** The day and the month need not be zero-padded: `1/3/2024` is the
      first of March 2024 as well. */
  lemma UnpaddedFirstOfMarch()
    ensures ParseDate("1/3/2024") == Some(Date(2024, 3, 1))
  {
    Year2024();
    assert ValidDate(Date(2024, 3, 1));
    assert DayField("1") == Some(1) && MonthField("3") == Some(3);
    ParseFields("1", "3", "2024");
    assert "1/3/2024" == "1" + "/" + "3" + "/" + "2024";
  }
}
