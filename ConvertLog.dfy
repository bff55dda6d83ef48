/** `process_log_to_df`: log lines in, one finished row per bale out, or the
    error of the first line that could not be decoded. */
module ConvertLog {
  import opened Results
  import opened Records
  import opened Aggregation
  import opened Formatter

  // ---------------------------------------------------------------------------
  // The line loop, for any per-line step

  /** The line loop with per-line step `decode`: lines are taken in order,
      a line whose step yields `Some(x)` contributes `x`, one whose step
      yields `None` contributes nothing, and the first failing step ends the
      loop with its error. */
  function Collect<T, E>(decode: string -> Result<Option<T>, E>, lines: seq<string>): Result<seq<T>, E> {
    if lines == [] then Success([])
    else
      var items :- Collect(decode, lines[..|lines| - 1]);
      var item :- decode(lines[|lines| - 1]);
      Success(items + (if item.Some? then [item.value] else []))
  }

  /** The values the steps yield, in line order, failing steps passed over. */
  function Yielded<T, E>(decode: string -> Result<Option<T>, E>, lines: seq<string>): seq<T> {
    if lines == [] then []
    else
      var d := decode(lines[|lines| - 1]);
      Yielded(decode, lines[..|lines| - 1]) + (if d.Success? && d.value.Some? then [d.value.value] else [])
  }

  /** One more line: the result so far, extended by that line's value or
      overtaken by its error. */
  lemma CollectSnoc<T, E>(decode: string -> Result<Option<T>, E>, prefix: seq<string>, line: string)
    ensures Collect(decode, prefix + [line]) ==
      if Collect(decode, prefix).Failure? then Collect(decode, prefix)
      else if decode(line).Failure? then Failure(decode(line).error)
      else Success(Collect(decode, prefix).value + (if decode(line).value.Some? then [decode(line).value.value] else []))
  {
    assert (prefix + [line])[..|prefix|] == prefix;
  }

  lemma YieldedSnoc<T, E>(decode: string -> Result<Option<T>, E>, prefix: seq<string>, line: string)
    ensures Yielded(decode, prefix + [line]) ==
      Yielded(decode, prefix) + (if decode(line).Success? && decode(line).value.Some? then [decode(line).value.value] else [])
  {
    assert (prefix + [line])[..|prefix|] == prefix;
  }

  /** The lines that `keep` accepts, in order. */
  function Filter(keep: string -> bool, lines: seq<string>): (r: seq<string>)
    ensures forall k :: 0 <= k < |r| ==> keep(r[k])
    ensures forall x :: x in r <==> x in lines && keep(x)
  {
    if lines == [] then []
    else
      var prefix := lines[..|lines| - 1];
      var last := lines[|lines| - 1];
      assert lines == prefix + [last];
      Filter(keep, prefix) + (if keep(last) then [last] else [])
  }

  /** A one-line log keeps that line exactly when `keep` accepts it. */
  lemma FilterSingleton(keep: string -> bool, line: string)
    ensures Filter(keep, [line]) == if keep(line) then [line] else []
  {
    assert [line][..0] == [];
  }

  /** Filtering a concatenation filters each part and keeps the parts in
      order; with `FilterSingleton` this fixes the order and the number of
      copies of every kept line. */
  lemma {:induction false} FilterAppend(keep: string -> bool, a: seq<string>, b: seq<string>)
    ensures Filter(keep, a + b) == Filter(keep, a) + Filter(keep, b)
    decreases |b|
  {
    if b == [] {
      assert a + b == a;
    } else {
      var init, last := b[..|b| - 1], b[|b| - 1];
      FilterAppend(keep, a, init);
      assert (a + b)[..|a + b| - 1] == a + init;
      assert (a + b)[|a + b| - 1] == last;
      var tail := if keep(last) then [last] else [];
      assert Filter(keep, a + b) == (Filter(keep, a) + Filter(keep, init)) + tail;
      assert Filter(keep, b) == Filter(keep, init) + tail;
    }
  }

  /** When every step succeeds and yields a value exactly on the lines
      `keep` accepts, the values line up one to one with those lines. */
  lemma {:induction false} YieldedKept<T, E>(decode: string -> Result<Option<T>, E>, keep: string -> bool, lines: seq<string>)
    requires forall i :: 0 <= i < |lines| ==> decode(lines[i]).Success? && (decode(lines[i]).value.Some? <==> keep(lines[i]))
    ensures |Yielded(decode, lines)| == |Filter(keep, lines)|
    ensures forall k :: 0 <= k < |Filter(keep, lines)| ==>
              decode(Filter(keep, lines)[k]) == Success(Some(Yielded(decode, lines)[k]))
  {
    if lines != [] {
      var prefix := lines[..|lines| - 1];
      var last := lines[|lines| - 1];
      assert forall i :: 0 <= i < |prefix| ==> prefix[i] == lines[i];
      YieldedKept(decode, keep, prefix);
      YieldedSnoc(decode, prefix, last);
      assert lines == prefix + [last];
      var f := Filter(keep, prefix);
      var y := Yielded(decode, prefix);
      if keep(last) {
        assert Filter(keep, lines) == f + [last];
        assert Yielded(decode, lines) == y + [decode(last).value.value];
        forall k | 0 <= k < |f| + 1
          ensures decode((f + [last])[k]) == Success(Some((y + [decode(last).value.value])[k]))
        {
          if k < |f| {
            assert (f + [last])[k] == f[k] && (y + [decode(last).value.value])[k] == y[k];
          }
        }
      } else {
        assert Filter(keep, lines) == f + [];
        assert Yielded(decode, lines) == y + [];
      }
    }
  }

  /** Once the loop has failed, later lines do not matter. */
  lemma {:induction false} FailurePersists<T, E>(decode: string -> Result<Option<T>, E>, lines: seq<string>, j: nat)
    requires j <= |lines| && Collect(decode, lines[..j]).Failure?
    ensures Collect(decode, lines) == Collect(decode, lines[..j])
    decreases |lines|
  {
    if j < |lines| {
      var prefix := lines[..|lines| - 1];
      assert prefix[..j] == lines[..j];
      FailurePersists(decode, prefix, j);
      CollectSnoc(decode, prefix, lines[|lines| - 1]);
      assert prefix + [lines[|lines| - 1]] == lines;
    } else {
      assert lines[..j] == lines;
    }
  }

  /** The loop succeeds exactly when every step does, and then yields the
      steps' values in line order. */
  lemma {:induction false} CollectSucceeds<T, E>(decode: string -> Result<Option<T>, E>, lines: seq<string>)
    ensures Collect(decode, lines).Success? <==> forall i :: 0 <= i < |lines| ==> decode(lines[i]).Success?
    ensures Collect(decode, lines).Success? ==> Collect(decode, lines).value == Yielded(decode, lines)
  {
    if lines != [] {
      var prefix := lines[..|lines| - 1];
      var last := lines[|lines| - 1];
      CollectSucceeds(decode, prefix);
      CollectSnoc(decode, prefix, last);
      YieldedSnoc(decode, prefix, last);
      assert lines == prefix + [last];
      assert forall i :: 0 <= i < |prefix| ==> prefix[i] == lines[i];
    }
  }

  /** A loop whose every step succeeds succeeds. */
  lemma {:induction false} CollectAllSucceed<T, E>(decode: string -> Result<Option<T>, E>, lines: seq<string>, i: nat)
    requires i <= |lines|
    requires forall j :: 0 <= j < i ==> decode(lines[j]).Success?
    ensures Collect(decode, lines[..i]).Success?
  {
    if i > 0 {
      CollectAllSucceed(decode, lines, i - 1);
      assert lines[..i] == lines[..i - 1] + [lines[i - 1]];
      CollectSnoc(decode, lines[..i - 1], lines[i - 1]);
    }
  }

  /** A failing step after a successful prefix ends the loop with its
      error. */
  lemma CollectFailsAt<T, E>(decode: string -> Result<Option<T>, E>, prefix: seq<string>, line: string)
    requires Collect(decode, prefix).Success? && decode(line).Failure?
    ensures Collect(decode, prefix + [line]) == Failure(decode(line).error)
  {
    assert (prefix + [line])[..|prefix|] == prefix;
  }

  /** Steps that all yield nothing give an empty result. */
  lemma {:induction false} CollectNothing<T, E>(decode: string -> Result<Option<T>, E>, lines: seq<string>, i: nat)
    requires i <= |lines|
    requires forall j :: 0 <= j < i ==> decode(lines[j]) == Success(None)
    ensures Collect(decode, lines[..i]) == Success([])
  {
    if i > 0 {
      CollectNothing(decode, lines, i - 1);
      assert lines[..i] == lines[..i - 1] + [lines[i - 1]];
      CollectSnoc(decode, lines[..i - 1], lines[i - 1]);
      assert Collect(decode, lines[..i - 1]).value + [] == [];
    }
  }

  /** The error reported is the one of the first failing step. */
  lemma CollectFirstError<T, E>(decode: string -> Result<Option<T>, E>, lines: seq<string>, i: nat)
    requires i < |lines| && decode(lines[i]).Failure?
    requires forall j :: 0 <= j < i ==> decode(lines[j]).Success?
    ensures Collect(decode, lines) == Failure(decode(lines[i]).error)
  {
    var p := lines[..i];
    var q := lines[..i + 1];
    CollectAllSucceed(decode, lines, i);
    CollectFailsAt(decode, p, lines[i]);
    assert q == p + [lines[i]];
    FailurePersists(decode, lines, i + 1);
  }

  /** A line whose step yields nothing can be inserted anywhere without
      changing the outcome. */
  lemma {:induction false} CollectSkips<T, E>(decode: string -> Result<Option<T>, E>, a: seq<string>, s: string, b: seq<string>)
    requires decode(s) == Success(None)
    ensures Collect(decode, a + [s] + b) == Collect(decode, a + b)
    decreases |b|
  {
    if b == [] {
      assert a + [s] + b == a + [s] && a + b == a;
      CollectSnoc(decode, a, s);
      if Collect(decode, a).Success? {
        assert Collect(decode, a).value + [] == Collect(decode, a).value;
      }
    } else {
      var b' := b[..|b| - 1];
      var x := b[|b| - 1];
      CollectSkips(decode, a, s, b');
      assert a + [s] + b == (a + [s] + b') + [x];
      assert a + b == (a + b') + [x];
      CollectSnoc(decode, a + [s] + b', x);
      CollectSnoc(decode, a + b', x);
    }
  }

  /** The loop `for line in log_content: ... processed_data.append(row)`,
      with the per-line step as a parameter: the values are appended one
      line at a time, and the first failing step ends the loop. */
  method CollectLines<T, E>(decode: string -> Result<Option<T>, E>, lines: seq<string>) returns (r: Result<seq<T>, E>)
    ensures r == Collect(decode, lines)
  {
    var items: seq<T> := [];
    var i := 0;
    while i < |lines|
      invariant 0 <= i <= |lines|
      invariant Collect(decode, lines[..i]) == Success(items)
    {
      assert lines[..i + 1] == lines[..i] + [lines[i]];
      CollectSnoc(decode, lines[..i], lines[i]);
      var item := decode(lines[i]);
      if item.Failure? {
        FailurePersists(decode, lines, i + 1);
        return Failure(item.error);
      }
      items := items + if item.value.Some? then [item.value.value] else [];
      i := i + 1;
    }
    assert lines[..i] == lines;
    return Success(items);
  }

  // ---------------------------------------------------------------------------
  // The converter's line loop

  /** What the converter's line loop computes: the records of the lines that
      pass the length guard, in log order, or the error of the first line
      (in log order) whose row construction fails. */
  function DecodeAll(lines: seq<string>): Result<seq<Record>, DecodeError> {
    Collect(DecodeLine, lines)
  }

  predicate IsLong(line: string) {
    !IsShort(line)
  }

  /** The lines that pass the length guard, in log order. */
  function LongLines(lines: seq<string>): (r: seq<string>)
    ensures forall k :: 0 <= k < |r| ==> !IsShort(r[k])
    ensures forall x :: x in r <==> x in lines && !IsShort(x)
  {
    Filter(IsLong, lines)
  }

  /** The guard keeps a single line exactly when it is long. */
  lemma LongLinesSingleton(line: string)
    ensures LongLines([line]) == if IsShort(line) then [] else [line]
  {
    FilterSingleton(IsLong, line);
  }

  /** The guard keeps the long lines of a concatenation part by part, in
      log order. */
  lemma LongLinesAppend(a: seq<string>, b: seq<string>)
    ensures LongLines(a + b) == LongLines(a) + LongLines(b)
  {
    FilterAppend(IsLong, a, b);
  }

  /** The line is short, or its fields can be decoded. */
  predicate LineDecodable(line: string) {
    !IsShort(line) ==> Decodable(Fields(line))
  }

  /** Every line that passes the length guard can be decoded. */
  predicate AllDecodable(lines: seq<string>) {
    forall i :: 0 <= i < |lines| ==> LineDecodable(lines[i])
  }

  /** The loop fails exactly when some line that passes the length guard
      cannot be decoded. */
  lemma DecodeAllSucceeds(lines: seq<string>)
    ensures DecodeAll(lines).Success? <==> AllDecodable(lines)
  {
    CollectSucceeds(DecodeLine, lines);
    forall i | 0 <= i < |lines|
      ensures DecodeLine(lines[i]).Success? <==> LineDecodable(lines[i])
    {
    }
  }

  /** The error reported is the one of the first line that passes the length
      guard and cannot be decoded. */
  lemma DecodeAllFirstError(lines: seq<string>, i: nat)
    requires i < |lines| && !IsShort(lines[i]) && !Decodable(Fields(lines[i]))
    requires AllDecodable(lines[..i])
    ensures DecodeAll(lines) == Failure(DecodeFields(Fields(lines[i])).error)
  {
    forall j | 0 <= j < i ensures DecodeLine(lines[j]).Success? {
      assert lines[..i][j] == lines[j];
    }
    CollectFirstError(DecodeLine, lines, i);
  }

  /** `recs` are the records of the long lines `long`, one each, in order. */
  predicate DecodedAs(long: seq<string>, recs: seq<Record>) {
    && |recs| == |long|
    && forall k :: 0 <= k < |long| ==> DecodesTo(long[k], recs[k])
  }

  /** `line` passes the length guard and its fields decode to `rec`. */
  predicate DecodesTo(line: string, rec: Record) {
    !IsShort(line) && DecodeFields(Fields(line)) == Success(rec)
  }

  /** What the row decoder does with one line of a log that decodes. */
  lemma DecodeLineOk(line: string)
    requires LineDecodable(line)
    ensures DecodeLine(line).Success?
    ensures IsShort(line) ==> DecodeLine(line).value.None?
    ensures !IsShort(line) ==> DecodeLine(line).value.Some? && DecodesTo(line, DecodeLine(line).value.value)
  {
  }

  /** The records are the decoded long lines, one each, in log order. */
  lemma YieldedRecords(lines: seq<string>)
    requires AllDecodable(lines)
    ensures DecodedAs(LongLines(lines), Yielded(DecodeLine, lines))
  {
    forall i | 0 <= i < |lines|
      ensures DecodeLine(lines[i]).Success? && (DecodeLine(lines[i]).value.Some? <==> IsLong(lines[i]))
    {
      DecodeLineOk(lines[i]);
    }
    YieldedKept(DecodeLine, IsLong, lines);
    var long := LongLines(lines);
    var recs := Yielded(DecodeLine, lines);
    forall k | 0 <= k < |long| ensures DecodesTo(long[k], recs[k]) {
      assert DecodeLine(long[k]) == Success(Some(recs[k]));
    }
  }

  lemma DecodeAllRecords(lines: seq<string>)
    requires AllDecodable(lines)
    ensures DecodeAll(lines).Success?
    ensures DecodedAs(LongLines(lines), DecodeAll(lines).value)
  {
    DecodeAllSucceeds(lines);
    CollectSucceeds(DecodeLine, lines);
    YieldedRecords(lines);
  }

  /** A line with fewer than 21 fields can be inserted anywhere without
      changing the outcome. */
  lemma ShortLineIgnored(a: seq<string>, s: string, b: seq<string>)
    requires IsShort(s)
    ensures DecodeAll(a + [s] + b) == DecodeAll(a + b)
  {
    CollectSkips(DecodeLine, a, s, b);
  }

  // ---------------------------------------------------------------------------
  // The whole conversion

  /** The finished table for a list of decoded records. */
  function Table(recs: seq<Record>): (rows: seq<BaleRow>)
    ensures |rows| == |GroupBy(recs)|
    ensures forall i :: 0 <= i < |rows| ==> rows[i] == FormatBale(GroupBy(recs)[i])
  {
    var bales := GroupBy(recs);
    seq(|bales|, i requires 0 <= i < |bales| => FormatBale(bales[i]))
  }

  /** What `process_log_to_df` returns for the lines of a log file. */
  function Pipeline(lines: seq<string>): Result<seq<BaleRow>, DecodeError> {
    var recs :- DecodeAll(lines);
    Success(Table(recs))
  }

  method ProcessLogToDf(lines: seq<string>) returns (r: Result<seq<BaleRow>, DecodeError>)
    ensures r == Pipeline(lines)
  {
    var decoded := CollectLines(DecodeLine, lines);
    if decoded.Failure? {
      return Failure(decoded.error);
    }
    var bales := GroupBy(decoded.value);
    var rows := FinishBales(bales);
    assert rows == Table(decoded.value);
    return Success(rows);
  }

  /** A log in which no line passes the length guard gives an empty table. */
  lemma NoLongLinesEmptyTable(lines: seq<string>)
    requires forall i :: 0 <= i < |lines| ==> IsShort(lines[i])
    ensures Pipeline(lines) == Success([])
  {
    forall i | 0 <= i < |lines| ensures DecodeLine(lines[i]) == Success(None) {
    }
    CollectNothing(DecodeLine, lines, |lines|);
    assert lines[..|lines|] == lines;
    assert BaleNumbers([]) == [];
    assert SortedDistinct([]) == [];
  }

  /** A short line can be inserted anywhere in the log without changing the
      result. */
  lemma PipelineIgnoresShortLine(a: seq<string>, s: string, b: seq<string>)
    requires IsShort(s)
    ensures Pipeline(a + [s] + b) == Pipeline(a + b)
  {
    ShortLineIgnored(a, s, b);
  }

  /** The conversion fails exactly when some line that passes the length
      guard cannot be decoded, and then with the error of the first such
      line. */
  lemma PipelineFails(lines: seq<string>, i: nat)
    requires i < |lines| && !IsShort(lines[i]) && !Decodable(Fields(lines[i]))
    requires AllDecodable(lines[..i])
    ensures Pipeline(lines) == Failure(DecodeFields(Fields(lines[i])).error)
  {
    DecodeAllFirstError(lines, i);
  }

  /** The table has one row per distinct Gin Bale Number among the records,
      in strictly ascending bale-number order; each row is the rounded
      aggregate of the records with that bale number, whose first-value
      columns come from the first such record in the log. */
  lemma TableRows(recs: seq<Record>)
    ensures var rows := Table(recs);
            && (forall i, j :: 0 <= i < j < |rows| ==> Less(rows[i].baleNumber, rows[j].baleNumber))
            && (forall k :: k in BaleNumbers(recs) <==> exists i :: 0 <= i < |rows| && rows[i].baleNumber == k)
            && (forall i :: 0 <= i < |rows| ==>
                 var g := Group(recs, rows[i].baleNumber);
                 && g != [] && rows[i] == FormatBale(Aggregate(g))
                 && g[0] == recs[FirstWith(recs, rows[i].baleNumber)])
  {
    TableSorted(recs);
    TableCovers(recs);
    TableGroups(recs);
  }

  /** Row `i` of the table is the bale of row `i` of the grouped frame. */
  lemma TableBaleNumbers(recs: seq<Record>)
    ensures |Table(recs)| == |GroupBy(recs)|
    ensures forall i :: 0 <= i < |Table(recs)| ==> Table(recs)[i].baleNumber == GroupBy(recs)[i].baleNumber
  {
    forall i | 0 <= i < |Table(recs)| ensures Table(recs)[i].baleNumber == GroupBy(recs)[i].baleNumber {
      assert Table(recs)[i] == FormatBale(GroupBy(recs)[i]);
    }
  }

  lemma TableSorted(recs: seq<Record>)
    ensures var rows := Table(recs);
            forall i, j :: 0 <= i < j < |rows| ==> Less(rows[i].baleNumber, rows[j].baleNumber)
  {
    GroupBySorted(recs);
    TableBaleNumbers(recs);
  }

  lemma TableCovers(recs: seq<Record>)
    ensures var rows := Table(recs);
            forall k :: k in BaleNumbers(recs) <==> exists i :: 0 <= i < |rows| && rows[i].baleNumber == k
  {
    GroupByCovers(recs);
    TableBaleNumbers(recs);
    var bales := GroupBy(recs);
    var rows := Table(recs);
    forall k | k in BaleNumbers(recs)
      ensures exists i :: 0 <= i < |rows| && rows[i].baleNumber == k
    {
      var i :| 0 <= i < |bales| && bales[i].baleNumber == k;
      assert rows[i].baleNumber == k;
    }
  }

  lemma TableGroups(recs: seq<Record>)
    ensures var rows := Table(recs);
            forall i :: 0 <= i < |rows| ==>
              var g := Group(recs, rows[i].baleNumber);
              && g != [] && rows[i] == FormatBale(Aggregate(g))
              && g[0] == recs[FirstWith(recs, rows[i].baleNumber)]
  {
    GroupByGroups(recs);
    TableBaleNumbers(recs);
  }

  /** A log whose long lines all decode converts successfully, to the table
      of its decoded records (described by `TableRows`). */
  lemma PipelineSucceeds(lines: seq<string>)
    requires AllDecodable(lines)
    ensures Pipeline(lines).Success?
    ensures DecodedAs(LongLines(lines), DecodeAll(lines).value)
    ensures Pipeline(lines).value == Table(DecodeAll(lines).value)
  {
    DecodeAllRecords(lines);
  }
}
