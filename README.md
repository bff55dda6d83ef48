# HVI log to bale table: a Dafny model of `process_log_to_df`

The converter reads the text log of a cotton High Volume Instrument (HVI). It
turns the log into one table row per gin bale. Each log line holds one
measurement, with fields separated by `@`. The function `process_log_to_df`
works in four stages:

1. **Line loop.** Each line is stripped and split on `@`. A line with fewer
   than 21 fields is skipped.
2. **Record decoding.** Each remaining line is decoded by position into an
   18-column record:
   - integer tokens are scaled by 10, 100 or 1000 and formatted to a fixed
     number of places;
   - the Color Grade token `133` becomes `13-3`.
3. **Grouping.** The records are grouped by Gin Bale Number:
   - the numeric columns are averaged;
   - Testing Mode, Gin Code, Retest, Retest Code and Line Number come from
     the group's first record;
   - Color Grade is the most common grade, and a tie goes to the grade seen
     first.
4. **SCI and rounding.** The SCI (Spinning Consistency Index) regression is computed
   from the unrounded means and inserted before Mic. Then every numeric
   column is rounded to its own number of places.

The model takes the log as a `seq<string>` of lines. It returns
`Success(rows)`, or `Failure(e)` when a line that passes the length guard
cannot be decoded.

All numbers are exact `real`s. Rounding is round half to even, applied to the
exact value.

Modules, in dependency order:

| file | module | models |
|---|---|---|
| `Results.dfy` | `Results` | `Option` and `Result`, with the `:-` failure propagation that stands in for an exception leaving the function |
| `Text.dfy` | `Text` | `str.strip()`, `str.split('@')` and `int(token)` |
| `FixedPoint.dfy` | `FixedPoint` | scaling by powers of ten, and half-to-even rounding to `d` places |
| `Records.dfy` | `Records` | the length guard and the row construction of one line |
| `Aggregation.dfy` | `Aggregation` | the ordering of bale numbers, groups, mean, `statistics.mode`, and the aggregation dictionary |
| `Formatter.dfy` | `Formatter` | SCI, the rounding table, and the column layout |
| `ConvertLog.dfy` | `ConvertLog` | the line loop as a method, and the whole conversion |

The line loop is the method `ConvertLog.CollectLines`, written with a `while`
loop over the lines. The loop appends to an accumulating sequence, as the
source appends to `processed_data`.

The column-wise SCI and rounding assignments are the method
`Formatter.FinishBales`, a loop over the grouped rows. Both methods are proved
equal to the functions `ConvertLog.Collect` and `Formatter.FormatBale`, and
the lemmas are stated about those functions.

Several behaviours of the code are easy to misread; the model states each as
the code has it:

- **Row order.** Rows come out in ascending bale-number order, compared as
  Python strings, because `groupby` sorts its keys by default. They are not in
  first-seen order.
- **Bad tokens.** A non-integer token at fields 4-6, 8-13, 15, 16 or 21, or a
  Color Grade token shorter than three characters, raises out of the whole
  call. The line is not skipped.
- **Exactly 21 fields.** Such a line passes the `>= 21` guard but then fails,
  because field 21 (the Line Number) is read.
- **Column order.** The columns come out as Gin Bale Number, Testing Mode,
  Gin Code, SCI, Mic, Rd, b+, Color Grade, Area, Cnt, T.L, Len, Unf, Str, SFI,
  ELG, Retest, Retest Code, Line Number. The order comes from
  `reset_index()` and the aggregation dictionary, with SCI inserted before
  Mic.
- **Which error.** When a row fails, the error reported is that of the first
  failing token, in the order 4, 5, 6, 7 (the grade), 8-13, 15, 16, 21.

## Model

| member | source | states |
|---|---|---|
| Text.Strip | core/convert_log.py:23 | the stripped line neither starts nor ends with white space and is no longer than the line |
| Text.StripSurrounded | core/convert_log.py:23 | stripping removes exactly the white space around a trimmed core, on both sides |
| Text.StripIdempotent | core/convert_log.py:23 | stripping a stripped line changes nothing |
| Text.StripParts | core/convert_log.py:23 | a stripped string is what remains after removing a white-space prefix and a white-space suffix: the input is prefix, result, suffix |
| Text.Split | core/convert_log.py:23 | `split('@')` gives at least one piece, no piece contains `@`, and joining the pieces with `@` gives back the input |
| Text.SplitJoin | core/convert_log.py:23 | splitting a join of `@`-free pieces gives back exactly those pieces (split inverts join) |
| Text.SplitCount | core/convert_log.py:23-26 | a line has one more field than it has `@` characters, which is what the 21-field guard counts |
| Text.ParseInt | core/convert_log.py:32-46 | `int(token)`: skips `int()` white space at both ends, then needs an optional sign and ASCII digits; no ensures of its own, its meaning is stated by `Text.ParseIntOfLiteral` and `Text.ParseIntForm` |
| Text.ParseIntOfLiteral | core/convert_log.py:32-46 | every token of the form white space, optional sign, digits, white space parses to the signed value of its digits |
| Text.ParseIntForm | core/convert_log.py:32-46 | conversely, every token `int()` accepts has that form, and its value is the signed value of its digits |
| Text.ParseIntRejectsSeparator | core/convert_log.py:32-46 | `int()` rejects a digit token preceded by U+001C, although `str.strip()` removes that character |
| Text.ParseIntSkipsNoBreakSpace | core/convert_log.py:32-46 | `int()` skips a no-break space before a digit token, giving the digits' value |
| Text.ParseIntOfString | core/convert_log.py:37-38 | parsing the decimal text of any integer gives that integer back |
| Text.ParseIntZeroPadded | core/convert_log.py:46 | zero-padded digit fields such as `000021` parse to the padded number (21) |
| FixedPoint.Fixed | core/convert_log.py:32-43 | `f"{n / 10^scale:.{places}f}"` read back as a number: the integer scaled and rounded to `places`; no ensures of its own, stated by `FixedPoint.FixedExact` and `Records.DecodingExamples` |
| FixedPoint.RoundHalfEven | core/convert_log.py:90 | the result is within one half of the input, and an exact tie goes to the even integer |
| FixedPoint.RoundHalfEvenUnique | core/convert_log.py:90 | half-to-even rounding is the only integer with that property |
| FixedPoint.RoundTo | core/convert_log.py:91-101 | `round(x, d)` is a multiple of 10^-d that is nearest to `x`, with ties going to an even last digit |
| FixedPoint.RoundToUnique | core/convert_log.py:91-101 | only one value satisfies that rounding property |
| FixedPoint.RoundToGrid | core/convert_log.py:91-101 | a value that already has `d` places is unchanged by rounding to `d` places |
| FixedPoint.RoundToIdempotent | core/convert_log.py:91-101 | rounding to `d` places twice is rounding once |
| FixedPoint.FixedExact | core/convert_log.py:32-43 | `n / 10^d` formatted to `d` places is exactly `n / 10^d`, so decoding loses nothing |
| Records.Fields | core/convert_log.py:23 | `line.strip().split('@')`; no ensures of its own, its pieces are characterised by `Text.Split`, `Text.SplitJoin`, `Text.StripSurrounded` and `Text.StripParts` |
| Records.IsShort | core/convert_log.py:26 | a line with fewer than 21 fields, the lines the guard skips; stated with `Text.SplitCount` in terms of `@` characters and used by `Records.DecodeLine` |
| Records.IntField | core/convert_log.py:32-46 | `int(values[i])` succeeds exactly when the token is an integer literal, yields its value, and otherwise raises the invalid-literal error; Python's `ValueError` names only the token, and the model's `DecodeError` also carries the field index |
| Records.ColorGrade | core/convert_log.py:35 | the grade succeeds exactly when the token has at least three characters, and otherwise raises the index error; Python's `IndexError` names neither field nor token, and the model's `DecodeError` carries the grade token as extra information |
| Records.ColorGradeShape | core/convert_log.py:35 | a grade reads `XY-Z` from the first three characters, and characters after the third are ignored |
| Records.Step | core/convert_log.py:28-47 | one element of the row list: a successful step yields a grade exactly at field 7 and a number elsewhere; its success is characterised by `Records.DecodableSteps` |
| Records.RunSteps | core/convert_log.py:28-47 | a successful evaluation of the row's tokens yields one cell per token, each the value of that token's step |
| Records.RunStepsSucceeds | core/convert_log.py:28-47 | evaluating the row's tokens succeeds exactly when every token's step does |
| Records.RunStepsFailsAtFirst | core/convert_log.py:28-47 | a failing evaluation raises the error of the first failing token in evaluation order |
| Records.DecodableSteps | core/convert_log.py:32-46 | every step succeeds exactly when the Line Number field exists, the grade token has three characters, and fields 4-6, 8-13, 15, 16 and 21 are integers |
| Records.DecodeFields | core/convert_log.py:28-47 | a line that passed the guard decodes exactly when those conditions hold |
| Records.DecodeFailsAtFirstBadStep | core/convert_log.py:28-47 | the error raised is the one of the first bad token in the order the row list is written |
| Records.BuildRecord | core/convert_log.py:28-47 | the row list assembled from the parsed cells; no ensures of its own, its columns are stated by `Records.BuildRecordExact` and `Records.DecodedValues` |
| Records.TwentyOneFieldsFail | core/convert_log.py:26 | a line of exactly 21 fields passes the guard yet cannot be decoded, because index 21 is read |
| Records.DecodedValues | core/convert_log.py:29-46 | the decoded record has the text fields verbatim; Mic is field 4 / 100, Rd, b+, Unf, Str, SFI and ELG are their field / 10, and Len is field 11 / 1000, all exactly; Cnt, T.L and Line Number are plain integers, and Area is field 8 / 100 at one place |
| Records.BuildRecordExact | core/convert_log.py:32-43 | the scaled columns of a built record equal their integer divided by 100, 10 or 1000 exactly |
| Records.DecodeLine | core/convert_log.py:23-48 | a line with fewer than 21 fields yields nothing and no error; a longer line succeeds exactly when its fields decode, and then yields that record |
| Records.DecodingExamples | core/convert_log.py:32-43 | the example values: 448 gives 4.48, 753 gives 75.3, 130 gives 13.0, 70 gives 7.0, 972 gives 0.972, Area 30 gives 0.3, and grade `133` gives `13-3`; that the zero-padded tokens denote these integers is `Text.ParseIntZeroPadded` |
| Aggregation.Less | core/convert_log.py:58 | Python's `<` on strings, by code points and then by length; no ensures of its own, that it is a strict total order is stated by the four lemmas below |
| Aggregation.LessIrreflexive | core/convert_log.py:58 | no bale number sorts before itself |
| Aggregation.LessAsymmetric | core/convert_log.py:58 | two bale numbers are never each before the other |
| Aggregation.LessTransitive | core/convert_log.py:58 | the string order of bale numbers is transitive |
| Aggregation.LessTotal | core/convert_log.py:58 | any two different bale numbers are ordered one way or the other |
| Aggregation.Insert | core/convert_log.py:58 | inserting a key into a strictly ascending key list keeps it strictly ascending and adds exactly that key |
| Aggregation.SortedDistinct | core/convert_log.py:58 | the group keys are strictly ascending and are exactly the distinct bale numbers |
| Aggregation.Keys | core/convert_log.py:58 | the group keys: `Aggregation.SortedDistinct` makes them strictly ascending and exactly the distinct bale numbers, and `Aggregation.SortedListingUnique` shows there is only one such list |
| Aggregation.SortedListingUnique | core/convert_log.py:58 | two strictly ascending lists with the same elements are equal, so the key order is fully determined |
| Aggregation.Group | core/convert_log.py:58 | a group has one record per occurrence of its bale number, and holds exactly the records with that number; order and multiplicity are pinned down by `Aggregation.GroupAppend` and `Aggregation.GroupSingleton` |
| Aggregation.GroupSingleton | core/convert_log.py:58 | a one-record log groups to that record under its own bale number and to nothing under any other |
| Aggregation.GroupSnoc | core/convert_log.py:58 | one more record at the end of the log extends its own group at the end and leaves the other groups as they are |
| Aggregation.GroupAppend | core/convert_log.py:58-75 | the group of a concatenated log is the group of the first part followed by the group of the second, so a group keeps log order and each record's multiplicity |
| Aggregation.FirstWith | core/convert_log.py:59-60 | the index of a record with the bale number, before which no record has it |
| Aggregation.GroupStartsWithFirstSeen | core/convert_log.py:59-60 | a group is non-empty and its first record is the first record of that bale in the log, which is what 'first' reads |
| Aggregation.Mean | core/convert_log.py:61-72 | `Series.mean()`, the sum over the count; no ensures of its own, stated by `Aggregation.MeanBounds`, `Aggregation.AggregateSingleton` and `Aggregation.MeanOfTwo` |
| Aggregation.SumBounds | core/convert_log.py:61-72 | the sum of values between `lo` and `hi` lies between n·lo and n·hi |
| Aggregation.MeanBounds | core/convert_log.py:61-72 | a mean lies between any lower and upper bound of its values |
| Aggregation.ModeFrom | core/convert_log.py:64 | the scan returns a most frequent grade, and the earliest of the equally most frequent ones |
| Aggregation.Mode | core/convert_log.py:64 | `statistics.mode` returns a most frequent value, with ties going to the first encountered |
| Aggregation.ModeSoFarReplace | core/convert_log.py:64 | a strictly more frequent grade takes over as the mode of the prefix |
| Aggregation.ModeSoFarKeep | core/convert_log.py:64 | a grade that is not more frequent leaves the mode of the prefix in place |
| Aggregation.FirstModeUnique | core/convert_log.py:64 | only one value has the first-mode property |
| Aggregation.ModeExamples | core/convert_log.py:64 | grades 13-3, 14-2, 13-3 give 13-3, and the tie 13-3, 14-2 also gives 13-3 |
| Aggregation.Aggregate | core/convert_log.py:58-75 | the aggregation dictionary on one group; no ensures of its own, stated by `Aggregation.AggregateSummarises` and `Aggregation.AggregateSingleton` |
| Aggregation.AggregateSummarises | core/convert_log.py:58-75 | a bale row takes Testing Mode, Gin Code, Retest, Retest Code and Line Number from the group's first record; each numeric column is its group's mean and lies within the group's range; the Color Grade is the group's first mode |
| Aggregation.AggregateSingleton | core/convert_log.py:61-72 | a group of one record aggregates to that record's own values and grade |
| Aggregation.MeanOfTwo | core/convert_log.py:61 | Mic 4.40 and 4.60 in one bale give Mic 4.50 |
| Aggregation.GroupBy | core/convert_log.py:58-76 | the grouped frame has one row per group key |
| Aggregation.GroupByKeys | core/convert_log.py:58-76 | row `i` of the grouped frame carries the `i`-th key |
| Aggregation.GroupBySorted | core/convert_log.py:58 | the grouped rows are in strictly ascending bale-number order |
| Aggregation.GroupByCovers | core/convert_log.py:58-76 | a bale number has a row exactly when some record carries it |
| Aggregation.GroupByGroups | core/convert_log.py:58-75 | each row aggregates the non-empty group of its bale number, and the group starts with that bale's first record in the log |
| Aggregation.GroupByRow | core/convert_log.py:58-76 | a single row of the grouped frame carries its key and aggregates that key's group |
| Aggregation.GroupByRows | core/convert_log.py:58-76 | the three properties above together |
| Formatter.SciFormula | core/convert_log.py:78-84 | the SCI regression with its six coefficients and intercept; no ensures of its own, evaluated by `Formatter.SciExample` and `Formatter.SciBeforeRounding` |
| Formatter.Sci | core/convert_log.py:78-84 | SCI of a grouped row from its unrounded means; used by `Formatter.FormatBale`, whose contract rounds it half to even |
| Formatter.FormatBale | core/convert_log.py:78-101 | SCI is the half-to-even integer nearest to the regression on the unrounded means; Mic, Area and Len are rounded to 2 places; Rd, b+, Unf, Str, SFI and ELG to 1 place; Cnt and T.L to integers; the text columns and Line Number pass through |
| Formatter.FormatBaleStable | core/convert_log.py:91-101 | applying the rounding table to already rounded columns changes nothing |
| Formatter.SciExample | core/convert_log.py:78-84 | Str 23.6, Mic 4.48, Len 0.972, Unf 76.7, Rd 75.3 and b+ 13.0 give SCI 76.99264, shown as 77 |
| Formatter.SciBeforeRounding | core/convert_log.py:78-90 | SCI must come from the unrounded means: a mean Len of 0.975 gives SCI 74, while the rounded columns would give 75 |
| Formatter.FinishBales | core/convert_log.py:78-101 | the in-place SCI and rounding pass turns each grouped row into its finished row, one for one and in order |
| Formatter.InsertBefore | core/convert_log.py:87-88 | inserting a column adds exactly one column |
| Formatter.InsertBeforeAt | core/convert_log.py:87-88 | the new column takes the anchor's place; the columns before it stay, and the anchor and those after it shift one place right |
| Formatter.OutputColumnsOrder | core/convert_log.py:58-88 | the output columns are the grouped columns with SCI inserted between Gin Code and Mic |
| ConvertLog.Collect | core/convert_log.py:21-48 | the line loop: no ensures of its own, its meaning is stated by `ConvertLog.CollectSucceeds`, `ConvertLog.CollectFirstError`, `ConvertLog.FailurePersists`, `ConvertLog.CollectSkips` and `ConvertLog.CollectNothing`, and `ConvertLog.CollectLines` computes it |
| ConvertLog.Filter | core/convert_log.py:26 | the kept lines are exactly those the test accepts; their log order and multiplicity are fixed by `ConvertLog.FilterAppend` and `ConvertLog.FilterSingleton` |
| ConvertLog.FilterSingleton | core/convert_log.py:26 | a one-line log keeps its line exactly when the test accepts it |
| ConvertLog.FilterAppend | core/convert_log.py:21-48 | filtering a concatenated log filters each part and keeps the parts in order, so kept lines keep their log order and their multiplicity |
| ConvertLog.YieldedKept | core/convert_log.py:21-48 | when every step succeeds and yields a value exactly on the kept lines, the values line up one to one with the kept lines, in order |
| ConvertLog.FailurePersists | core/convert_log.py:21-48 | once a line has raised, later lines do not change the outcome |
| ConvertLog.CollectSucceeds | core/convert_log.py:21-48 | the loop succeeds exactly when every line's step does, and then returns the steps' values in line order |
| ConvertLog.CollectAllSucceed | core/convert_log.py:21-48 | a prefix of lines whose steps all succeed is processed without error |
| ConvertLog.CollectNothing | core/convert_log.py:21-48 | lines that all yield nothing give an empty list |
| ConvertLog.CollectFirstError | core/convert_log.py:21-48 | the loop fails with the error of the first failing line |
| ConvertLog.CollectSkips | core/convert_log.py:21-48 | a line that yields nothing can be inserted anywhere without changing the outcome |
| ConvertLog.CollectLines | core/convert_log.py:21-48 | the loop that appends each line's record to the list computes exactly the line-loop function |
| ConvertLog.DecodeAll | core/convert_log.py:21-48 | the line loop over `Records.DecodeLine`; stated by `ConvertLog.DecodeAllSucceeds`, `ConvertLog.DecodeAllFirstError`, `ConvertLog.DecodeAllRecords` and `ConvertLog.ShortLineIgnored` |
| ConvertLog.LongLines | core/convert_log.py:23-26 | the lines that pass the guard are exactly the lines with at least 21 fields; their log order and multiplicity are fixed by `ConvertLog.LongLinesAppend` and `ConvertLog.LongLinesSingleton` |
| ConvertLog.LongLinesSingleton | core/convert_log.py:23-26 | the guard keeps a single line exactly when it has at least 21 fields |
| ConvertLog.LongLinesAppend | core/convert_log.py:21-48 | the guard keeps the long lines of a concatenated log part by part, in log order and with their multiplicity |
| ConvertLog.DecodeAllSucceeds | core/convert_log.py:21-48 | the line loop succeeds exactly when every line that passes the guard decodes |
| ConvertLog.DecodeAllFirstError | core/convert_log.py:21-48 | the line loop fails with the error of the first line that passes the guard and does not decode |
| ConvertLog.DecodeLineOk | core/convert_log.py:23-48 | a decodable line yields nothing if short, and otherwise yields its decoded record |
| ConvertLog.YieldedRecords | core/convert_log.py:21-48 | in a log whose long lines decode, the records are the long lines' decoded records, one each, in log order |
| ConvertLog.DecodeAllRecords | core/convert_log.py:21-48 | such a log is decoded without error into those records |
| ConvertLog.ShortLineIgnored | core/convert_log.py:23-26 | a line with fewer than 21 fields can be inserted anywhere in the log without changing the records or the error |
| ConvertLog.Table | core/convert_log.py:58-101 | the finished table has one finished row per grouped row, in the same order; what those rows are (one rounded aggregate per distinct bale number, ascending) is `ConvertLog.TableRows` |
| ConvertLog.TableBaleNumbers | core/convert_log.py:58-101 | each finished row keeps the bale number of its grouped row |
| ConvertLog.TableSorted | core/convert_log.py:58 | the finished rows are in strictly ascending bale-number order |
| ConvertLog.TableCovers | core/convert_log.py:58-76 | a bale number has a finished row exactly when some record carries it |
| ConvertLog.TableGroups | core/convert_log.py:58-101 | each finished row is the rounded aggregate of its bale's group, and the group starts with that bale's first record |
| ConvertLog.TableRows | core/convert_log.py:58-101 | one row per distinct Gin Bale Number, in ascending order, each the rounded aggregate of its group |
| ConvertLog.Pipeline | core/convert_log.py:5-103 | the whole conversion: the line loop, and on success the finished table of the records; stated by `ConvertLog.PipelineSucceeds`, `ConvertLog.PipelineFails`, `ConvertLog.TableRows`, `ConvertLog.NoLongLinesEmptyTable` and `ConvertLog.PipelineIgnoresShortLine` |
| ConvertLog.ProcessLogToDf | core/convert_log.py:5-103 | the conversion method computes exactly the whole pipeline: the line loop, then grouping, then SCI and rounding |
| ConvertLog.NoLongLinesEmptyTable | core/convert_log.py:21-76 | a log with no line of 21 or more fields gives the empty table, not an error (what pandas does on that input is under "Left out") |
| ConvertLog.PipelineIgnoresShortLine | core/convert_log.py:23-26 | inserting a short line anywhere in the log does not change the result |
| ConvertLog.PipelineFails | core/convert_log.py:26-47 | the conversion fails with the error of the first long line that does not decode |
| ConvertLog.PipelineSucceeds | core/convert_log.py:21-103 | a log whose long lines all decode converts without error, to the table of its decoded records in log order |

## Left out

- File opening and `readlines()` (core/convert_log.py:7-8): the input is the sequence of lines.
- Binary floating point: the decoded values, means, SCI and roundings are exact reals, and rounding is half to even on the exact value. Python's float formatting and pandas' `round` act on the nearest binary double, so a value whose exact tie is not representable may round the other way. The model claims no bit-for-bit agreement with the floats.
- `pd.to_numeric(errors='coerce')` (core/convert_log.py:55): every decoded numeric string is a finite number, so coercion never produces NaN. The model stores the number the formatted string denotes.
- pandas frame machinery (`DataFrame`, `reset_index`, `insert`, `pop`; core/convert_log.py:51, 76, 87-88): only the observable result is modelled, as rows whose fields follow the output column order (`Formatter.OutputColumns`).
- The column-at-a-time assignments of core/convert_log.py:78-101 are modelled row by row in `Formatter.FinishBales`. Each column's new value depends only on values in the same row, so the finished table is the same.
- Python `int()` also accepts underscores between digits and non-ASCII decimal digits. The model accepts only an optional sign and ASCII digits, with `int()`'s own white space (`Text.IsIntSpace`) around them.
- CPython's limit on integer string conversion (3.11 and later, and the security releases 3.10.7, 3.9.14, 3.8.14 and 3.7.14) makes `int()` raise `ValueError` for a token of more than 4300 digits. The model parses tokens of any length.
- `int(values[i])/100` (and `/10`, `/1000`) raises `OverflowError` when the quotient is too large for a double, which needs a token of about 309 digits or more. The model's reals have no such bound.
- The `.round(0).astype(int)` casts to int64 on SCI, Cnt and T.L (core/convert_log.py:90, 95, 96): a mean of magnitude 2^63 or more (which needs a Cnt or T.L token of at least 19 digits) is cast to an unspecified value, typically -2^63, without an error. `Formatter.FormatBale` gives the exact half-to-even integer.
- ConvertLog.NoLongLinesEmptyTable: on a log with no line of 21 or more fields, the source builds a zero-row frame whose numeric columns keep object dtype (core/convert_log.py:51, 55). Whether `Series.round` on them at core/convert_log.py:90 returns the empty frame or raises `TypeError` depends on the pandas version. The model returns the empty table.
- Aggregation.Mode follows `statistics.mode` of Python 3.8 and later, where a tie goes to the first value seen. Before 3.8, `mode` raises `StatisticsError` on a tie (core/convert_log.py:64), which ends the whole conversion; the model never fails there.
- The converter's log-file encoding and Unicode handling: lines are sequences of characters.
- Formatter.InsertBefore: its own contract states only the length of the result. Where the column lands is stated by `Formatter.InsertBeforeAt` and `Formatter.OutputColumnsOrder`.
- ui/main_window.py, core/excel_converter.py and core/csv_reader.py are not part of this model. They hold the dialogs, the spreadsheet writer and a CSV reader, and the converter's logic does not depend on them.
