# Daily log transformation, modelled in Dafny

The project models the data-preparation core of a "100 days of data" daily
log: `transform_data` and `separate_tables` in
`notebooks/data_transformation.py`. `transform_data` takes a table loaded
from a CSV log and returns a copy in which:

- the headers are lower-cased, with spaces replaced by `_`;
- the `fecha` text column is parsed in the `%d/%m/%Y` format and replaced
  by a `date` column;
- the days are numbered 1, 2, … in a new `day_id` column;
- `status` and `productiveness` are coded as numbers;
- missing `important_achievements` are filled with `"No"`;
- the comma-separated `learning` column is replaced by one 0/1 indicator
  column per topic.

`separate_tables` then cuts the result into a text table (`day_id`,
`daily_overview`) and a properties table (everything else).

## What the modules hold

- **`Seqs`**: generic helpers for column lists.
  - `Distinct` and `Elems`.
  - `Remove`, for pandas' `drop`.
  - `Put`, for assigning a column: a present column is replaced, a new one
    is appended.
- **`Strings`**: string helpers.
  - The header rewrite.
  - `str.split` on a literal separator.
  - Python's code-point ordering and a duplicate-free sort.
  - Decimal digits.
- **`Tables`**: the data model and the pandas column operations.
  - A table is a header (a sequence of names) plus rows. Each row maps each
    column name to a cell.
  - A cell is `Missing` (NaN/NaT), a text, an integer or a calendar date.
  - The operations return `Result` values, so that pandas' `KeyError` and
    `ValueError` are modelled as error results.
- **`Dates`**: what `%d/%m/%Y` accepts.
  - The fields follow Python's `strptime` field patterns.
  - A date must exist in the calendar.
- **`Encodings`**: the two lookup tables, `Series.map`, and `fillna`.
- **`Dummies`**: `Series.str.get_dummies(sep=', ')`.
- **`Transformation`**: the steps of `transform_data` as functions from the
  table before each step to the table after it.
- **`TransformResults`**: what the result holds, column by column.
- **`Separation`**: `separate_tables`, and the join on `day_id` that takes
  the two tables back to the original.

Each step is a function because the source works on a copy and never
changes the caller's table.

### pandas' indicator test

pandas does not test membership after splitting. It frames each value as
`sep + value + sep`, collects the tags by splitting the framed values, and
sets an indicator when `sep + token + sep` occurs inside the framed value.
The model splits the bare value and tests membership (`Dummies.Indicator`).
For the separator `", "` the two agree, and this is proved:

- `Dummies.FramedSplit`: the framed value splits into the value's pieces
  plus one empty piece at each end, and `tags - {""}` drops those.
- `Dummies.VocabularySubstringTest`: for every row and every vocabulary
  token, pandas' substring test (`Dummies.SubstringIndicator`) gives the
  same 0/1 as the membership test. The proof rests on `", "` being unable
  to overlap itself, so every occurrence in a framed value is the boundary
  between two pieces.

## Model

| member | source | states |
|---|---|---|
| `Transformation.Copy` | notebooks/data_transformation.py:13 | the copy has the same header and rows; each CSV text becomes a text cell and each NaN a missing cell |
| `Strings.NormalizeNameAt` | notebooks/data_transformation.py:16 | the rewritten name has the same length; each character is lower-cased, except that a space becomes `_`; all other characters are unchanged |
| `Strings.NormalizedIsClean` | notebooks/data_transformation.py:16 | a rewritten name contains no space and no upper-case ASCII letter |
| `Strings.NormalizeIdempotent` | notebooks/data_transformation.py:16 | rewriting a rewritten name changes nothing |
| `Transformation.NormalizeColumnsIdempotent` | notebooks/data_transformation.py:16 | rewriting a rewritten header changes nothing |
| `Transformation.NormalizeHeader` | notebooks/data_transformation.py:16 | the header becomes the rewritten names in the same order, and every cell stays in its row under its column's new name |
| `Transformation.NormalizedCells` | notebooks/data_transformation.py:13-16 | after copying and renaming, column k is named `NormalizeName` of the k-th input name and holds that input column's values |
| `Dates.ParseDate` | notebooks/data_transformation.py:19 | a text that parses gives a valid calendar date (years 1–9999, the day within the month's length, leap years included) |
| `Dates.DayField` | notebooks/data_transformation.py:19 | `%d` accepts only a field of one or two characters, and its value is from 1 to 31 |
| `Dates.MonthField` | notebooks/data_transformation.py:19 | `%m` accepts only a field of one or two characters, and its value is from 1 to 12 |
| `Dates.YearField` | notebooks/data_transformation.py:19 | `%Y` accepts only a field of four characters, and its value is from 0 to 9999 |
| `Dates.RejectedFields` | notebooks/data_transformation.py:19 | `%d` rejects `00`, `0`, `32` and ` 0`; `%m` rejects `00`, `0`, `13` and a space-padded month; `%Y` rejects three or five digits and a non-digit |
| `Dates.ShortestDate` | notebooks/data_transformation.py:19 | an accepted text has at least eight characters |
| `Dates.ParseFormat` | notebooks/data_transformation.py:19 | every valid date written as DD/MM/YYYY parses back to itself |
| `Dates.PaddedFields` | notebooks/data_transformation.py:19 | each zero-padded field of a valid date reads back as its value |
| `Dates.ShortFieldsAgree` | notebooks/data_transformation.py:19 | `%d` accepts a single non-zero digit, the digit with a leading `0`, or the digit with a leading space, and all three give the same value; `%m` accepts the first two |
| `Dates.ParsedHasThreeFields` | notebooks/data_transformation.py:19 | a text that parses is exactly three `/`-separated fields, so nothing may follow the year |
| `Dates.ParseFields` | notebooks/data_transformation.py:19 | the date of `a/b/c` is read off the three fields |
| `Dates.LeapDay` | notebooks/data_transformation.py:19 | 29/02/2024 parses and 29/02/2023 is an error |
| `Dates.RejectsDayBeyondMonth` | notebooks/data_transformation.py:19 | 31/04/2024 is an error |
| `Dates.RejectsShortOrTrailingYear` | notebooks/data_transformation.py:19 | a two-digit year is an error, and so is a character after the year |
| `Dates.FirstOfMarch` | notebooks/data_transformation.py:19 | 01/03/2024 is 1 March 2024 |
| `Dates.UnpaddedFirstOfMarch` | notebooks/data_transformation.py:19 | 1/3/2024 is 1 March 2024 |
| `Transformation.ToDatetime` | notebooks/data_transformation.py:19 | a missing value or a NaT text (the empty text, `NaT`, `nat`, `NAT`, `nan`, `NaN`, `NAN`) becomes a missing date; any other text converts exactly when it parses, and then to its parsed date |
| `Transformation.NaTTextsAreNotDates` | notebooks/data_transformation.py:19 | no NaT text is a date in the format, so reading one as NaT only replaces an error by a missing date |
| `Transformation.ToDatetimeColumn` | notebooks/data_transformation.py:19 | the column converts exactly when every cell converts, cell by cell in order; otherwise the error names the first cell that fails |
| `Transformation.ConvertDate` | notebooks/data_transformation.py:19-20 | an absent `fecha` is a `KeyError` and an unparseable one is an error at its first bad row; otherwise `date` is set (in place if present, else appended) to the converted values and `fecha` is dropped |
| `Tables.SetColumn` | notebooks/data_transformation.py:19 | assigning a column keeps the row count; the header gains the name (in place if present, else appended), and only that cell of each row changes |
| `Tables.DropColumn` | notebooks/data_transformation.py:20 | dropping a column removes exactly that name from the header and from every row, and keeps everything else in order |
| `Transformation.AddDayId` | notebooks/data_transformation.py:23 | row i gets `day_id` i+1 and nothing else changes |
| `Encodings.MapCell` | notebooks/data_transformation.py:27 | `map` gives a text that is a key its code, and every other cell (another text, a number, a missing value) becomes missing |
| `Encodings.StatusEncoding` | notebooks/data_transformation.py:26-27 | the code is 0 exactly for "In progress", 1 exactly for "Complete", and missing for every other cell |
| `Encodings.ProductivenessEncoding` | notebooks/data_transformation.py:29-30 | the code is k exactly when 1 ≤ k ≤ 5 and the cell is k stars; every other cell becomes missing |
| `Encodings.TooManyStars` | notebooks/data_transformation.py:29-30 | six or more stars give a missing code, not an error |
| `Encodings.StarKeys` | notebooks/data_transformation.py:29 | the lookup table's keys are exactly one to five stars, and k stars map to k |
| `Transformation.EncodeColumn` | notebooks/data_transformation.py:27 | an absent column is a `KeyError`; otherwise each cell of that column is replaced by its `map` value and the header is unchanged |
| `Encodings.FillMissing` | notebooks/data_transformation.py:33 | a missing cell becomes the fill value, a present one is kept, so filling with a present value never leaves a missing cell |
| `Transformation.FillColumn` | notebooks/data_transformation.py:33 | an absent column is a `KeyError`; otherwise each cell of that column is filled and the header is unchanged |
| `Transformation.Prepare` | notebooks/data_transformation.py:19-33 | a successful run of the column steps gives a well-formed table with the same number of rows |
| `Transformation.PrepareOutcome` | notebooks/data_transformation.py:19-33 | the column steps fail exactly when `fecha`, `status`, `productiveness` or `important_achievements` is absent or a date does not convert, and they report the first of these, in source order |
| `Transformation.PrepareRows` | notebooks/data_transformation.py:19-33 | on success the header is the input's with `date` set, `fecha` removed and `day_id` set; each row is rewritten independently of the others by `PreparedRow` |
| `Transformation.PreparedRowKeeps` | notebooks/data_transformation.py:19-33 | the column steps leave every other cell of a row unchanged |
| `Strings.JoinSplit` | notebooks/data_transformation.py:36 | splitting loses nothing: joining the pieces with the separator gives the text back |
| `Strings.SplitJoin` | notebooks/data_transformation.py:36 | for any separator, splitting a join gives the pieces back when no piece holds the separator's first character |
| `Dummies.TopicsRoundTrip` | notebooks/data_transformation.py:36 | any number of comma-free topics joined by ", " are read back as exactly those topics |
| `Dummies.AllTokens` | notebooks/data_transformation.py:36 | a token is collected exactly when some row lists it |
| `Dummies.NonEmpty` | notebooks/data_transformation.py:36 | exactly the empty token is discarded |
| `Strings.SortDistinctCorrect` | notebooks/data_transformation.py:36 | sorting gives a strictly increasing sequence (so no duplicates) holding exactly the input's elements |
| `Strings.SortedUnique` | notebooks/data_transformation.py:36 | a set of strings has only one strictly increasing arrangement, so the vocabulary is what `sorted` returns |
| `Dummies.VocabularyIsTokenSet` | notebooks/data_transformation.py:36 | the indicator columns are the non-empty tokens that occur in some row, each once, in code-point order |
| `Dummies.GetDummies` | notebooks/data_transformation.py:36 | the indicator table has one row per cell and one column per vocabulary token; each cell is 1 or 0 by whether the row lists that token |
| `Dummies.FramedSplit` | notebooks/data_transformation.py:36 | splitting `", " + v + ", "` gives an empty piece, the pieces of `v`, and an empty piece, so pandas' tags without `""` are the model's tokens |
| `Dummies.SplitPiecesSepFree` | notebooks/data_transformation.py:36 | no piece of a split on `", "` contains `", "` |
| `Dummies.FramedContains` | notebooks/data_transformation.py:36 | a framed token free of `", "` occurs in the framed join of pieces free of `", "` exactly when it is one of the pieces |
| `Dummies.SubstringIndicatorAgrees` | notebooks/data_transformation.py:36 | for a token free of `", "`, pandas' substring test on a cell gives the same value as the membership test |
| `Dummies.VocabularySubstringTest` | notebooks/data_transformation.py:36 | for every row and every vocabulary token, pandas' substring test and the membership test give the same indicator |
| `Dummies.TwoTopics` | notebooks/data_transformation.py:36 | "SQL, Python" lists exactly the tokens SQL and Python |
| `Dummies.SplitPair` | notebooks/data_transformation.py:36 | two comma-free topics joined by ", " are read back as those two tokens |
| `Dummies.MissingHasNoTokens` | notebooks/data_transformation.py:36 | a missing learning value sets no indicator |
| `Tables.Concat` | notebooks/data_transformation.py:37 | side-by-side concatenation puts one header after the other and unites the rows row by row |
| `Transformation.ExpandLearning` | notebooks/data_transformation.py:36-37 | an absent `learning` is a `KeyError`; otherwise the result is well-formed, with the same rows |
| `Transformation.PreparedLearning` | notebooks/data_transformation.py:19-37 | the column steps do not change `learning`, so its tokens are those of the renamed input, and they do not clash with the prepared columns |
| `Transformation.TransformTable` | notebooks/data_transformation.py:19-39 | the steps after the header rewrite give, on success, a well-formed table with one row per input row |
| `Transformation.Transform` | notebooks/data_transformation.py:9-39 | a successful transform gives a well-formed table with one row per input row |
| `Transformation.TransformOutcome` | notebooks/data_transformation.py:9-39 | the transform fails exactly when a column it indexes is absent or a date does not convert; the column-step errors come first, a missing `learning` last |
| `TransformResults.TransformRows` | notebooks/data_transformation.py:9-39 | the row count and order are kept; the header is the prepared one without `learning`, followed by the vocabulary; each row is `FinalRow` of its input row |
| `TransformResults.DayIds` | notebooks/data_transformation.py:23 | in the result, row i has `day_id` i+1, so the ids are unique and strictly increasing |
| `TransformResults.DateColumn` | notebooks/data_transformation.py:19-20 | each `date` is missing exactly where `fecha` was missing or a NaT text, and is otherwise the valid date that the `fecha` text spells |
| `TransformResults.StatusCodes` | notebooks/data_transformation.py:26-27 | in the result, `status` is 0/1/missing exactly as `StatusEncoding` says |
| `TransformResults.ProductivenessCodes` | notebooks/data_transformation.py:29-30 | in the result, `productiveness` is the star count from 1 to 5, and missing for anything else |
| `TransformResults.Achievements` | notebooks/data_transformation.py:33 | `important_achievements` is never missing: it is "No" where it was missing and unchanged otherwise |
| `TransformResults.LearningColumns` | notebooks/data_transformation.py:37 | `learning` is gone, and the vocabulary forms the last columns in sorted order |
| `TransformResults.LearningIndicators` | notebooks/data_transformation.py:36-37 | each indicator cell is 1 exactly when the row's learning value lists the token, otherwise 0 |
| `TransformResults.OtherColumns` | notebooks/data_transformation.py:9-39 | every column the transform does not touch is still present, with unchanged values |
| `TransformResults.FechaOnlyAsToken` | notebooks/data_transformation.py:20 | `fecha` is in the result only when it is itself a learning token |
| `TransformResults.FinalRowCells` | notebooks/data_transformation.py:19-23 | the `date` and `day_id` cells of a result row, and the absence of `learning` from it |
| `TransformResults.FinalRowCodes` | notebooks/data_transformation.py:26-33 | the `status`, `productiveness` and `important_achievements` cells of a result row |
| `TransformResults.FinalRowOtherCells` | notebooks/data_transformation.py:36-37 | the indicator cells of a result row, and the cells the transform does not touch |
| `Tables.Select` | notebooks/data_transformation.py:43 | selecting columns gives exactly those columns, in the order given, with the same rows and values |
| `Separation.SeparateTables` | notebooks/data_transformation.py:41-45 | separating succeeds exactly when `day_id` and `daily_overview` are both present; otherwise the error names the first one that is absent |
| `Separation.SeparateShape` | notebooks/data_transformation.py:43-44 | both tables keep the rows in order; the text table has exactly `day_id` and `daily_overview`; the properties table has every other column in its former position |
| `Separation.SeparateRejoin` | notebooks/data_transformation.py:41-45 | when the `day_id` values are unique, looking each properties row up by `day_id` finds the text row in the same position, and the two together are the input row |
| `Separation.FindKey` | notebooks/data_transformation.py:41-45 | the lookup finds the first row with the key value, or reports that no row has it |
| `TransformResults.RawDayIds` | notebooks/data_transformation.py:9-39 | for the table as loaded, result row i has `day_id` i+1 |
| `TransformResults.RawDates` | notebooks/data_transformation.py:13-20 | for the table as loaded, some column is renamed to `fecha`, and each result `date` is that column's cell converted as `DateColumn` says |
| `TransformResults.RawStatusCodes` | notebooks/data_transformation.py:13-27 | for the table as loaded, some column is renamed to `status`, and each result `status` is that column's cell coded as `StatusCodes` says |
| `TransformResults.RawLearningIndicators` | notebooks/data_transformation.py:13-37 | for the table as loaded, some column is renamed to `learning`, and each indicator is 1 exactly when that column's cell lists the token |
| `TransformResults.RenamedFrom` | notebooks/data_transformation.py:13-16 | every column of the rewritten table is the rewritten name of a loaded column |
| `Separation.PipelineSeparates` | notebooks/data_transformation.py:9-45 | the transform's result (when the input has `daily_overview`) always separates, and its `day_id` values are unique, so the two tables join back |

## Left out

- `load_data`, `save_tables` and the `__main__` block (lines 5–7 and 47 to
  the end): file I/O and printing. The model starts from a table that has
  already been loaded.
- The model has no CSV parsing and no dtype inference. Every input cell is
  a text or missing. A column that pandas would read as numbers, and then
  encode or fill, is outside the model.
- Cell types: the model has integers and dates, not pandas' float64 codes,
  `datetime64[ns]` timestamps or int64 widths. A code column containing NaN
  is float in pandas and `Int`/`Missing` here. No value here comes near
  the int64 range.
- Transformation.ToDatetime: the nanosecond timestamp range (about 1677 to
  2262) is not modelled. A year outside that range is accepted here but is an
  out-of-bounds error in pandas.
- Transformation.ToDatetime: the texts `now` and `today` are errors here.
  From pandas 2.0 on they convert to the current timestamp. The clock is
  not modelled.
- Dates.ParseDate: only ASCII digits are accepted. Python's `\d` also
  matches other Unicode decimal digits.
- Strings.NormalizeName: lower-cases the ASCII letters only. `str.lower`
  also lower-cases other Unicode letters.
- Transformation.Transform: the model is not defined on some inputs that
  pandas accepts. It requires:
  - that the rewritten header has no two equal names;
  - that no learning token is `date` or `day_id`;
  - that no learning token is a column of the rewritten input other than
    `fecha`.

  On these inputs pandas either raises or returns a table with duplicate
  column names, which this data model cannot represent. It raises when
  the rewrite duplicates `fecha`, `status`, `productiveness` or `learning`,
  because indexing that name then gives a table, not a column. The one
  exception is the token `learning`: pandas' `drop(columns='learning')` removes both the
  original column and the indicator column of that name, so the result has
  no duplicates. The model still excludes that token.
- Dummies.CellTokens: a `learning` column that is entirely missing has
  float dtype, and pandas' `.str` accessor raises on it. Here it gives an
  empty vocabulary.
- Separation.SeparateTables: when both `day_id` and `daily_overview` are
  absent, pandas' `KeyError` lists both names. Here the error names
  `day_id` only.
- Index alignment in `pd.concat`: the rows are matched by position. A freshly
  loaded table has the default 0…n-1 index, for which alignment and position
  agree.
