/** Decoding one log line (`strip`, `split('@')`, the length guard and the
    row list): the line becomes either nothing (too few `@`-separated
    fields), one decoded record, or an error that aborts the whole
    conversion. */
module Records {
  import opened Results
  import opened Text
  import opened FixedPoint

  /** One decoded measurement line, in the converter's column order. */
  datatype Record = Record(
    testingMode: string,
    ginCode: string,
    baleNumber: string,
    mic: real,
    rd: real,
    bPlus: real,
    colorGrade: string,
    area: real,
    cnt: int,
    tl: int,
    len: real,
    unf: real,
    str: real,
    sfi: real,
    elg: real,
    retest: string,
    retestCode: string,
    lineNumber: int)

  /** Why a line with enough fields could not be decoded; each is an
      exception that leaves the converter. */
  datatype DecodeError =
    | InvalidLiteral(field: nat, token: string)  // ValueError raised by int()
    | ColorGradeTooShort(token: string)          // IndexError: string index out of range
    | LineNumberMissing                          // IndexError: list index out of range

  const Separator: char := '@'

  /** Lines with fewer fields than this are skipped. */
  const MinFields: nat := 21

  /** The one field read beyond the guard: index 21, one past the minimum. */
  const LineNumberField: nat := 21

  const ColorGradeField: nat := 7

  /** The fields decoded by an integer parse, in the order the row
      construction evaluates them, with the Color Grade field in its place. */
  const Steps: seq<nat> := [4, 5, 6, 7, 8, 9, 10, 11, 12, 13, 15, 16, 21]

  /** `line.strip().split('@')` */
  function Fields(line: string): seq<string> {
    Split(Strip(line), Separator)
  }

  predicate IsShort(line: string) {
    |Fields(line)| < MinFields
  }

  // ---------------------------------------------------------------------------
  // Field decoders

  /** `int(values[i])` */
  function IntField(values: seq<string>, i: nat): (r: Result<int, DecodeError>)
    requires i < |values|
    ensures r.Success? <==> ParseInt(values[i]).Some?
    ensures r.Success? ==> r.value == ParseInt(values[i]).value
    ensures r.Failure? ==> r.error == InvalidLiteral(i, values[i])
  {
    match ParseInt(values[i])
    case Some(n) => Success(n)
    case None => Failure(InvalidLiteral(i, values[i]))
  }

  /** `f"{t[0]}{t[1]}-{t[2]}"`: a grade and its sub-grade. */
  function ColorGrade(token: string): (r: Result<string, DecodeError>)
    ensures r.Success? <==> |token| >= 3
    ensures r.Failure? ==> r.error == ColorGradeTooShort(token)
  {
    if |token| >= 3 then Success([token[0], token[1], '-', token[2]])
    else Failure(ColorGradeTooShort(token))
  }

  /** The raw three-character code a formatted grade came from. */
  function GradeCode(grade: string): string
    requires |grade| == 4
  {
    grade[..2] + grade[3..]
  }

  /** A decoded grade reads "DD-D": it keeps the first three characters of
      the token, a dash after the second, and ignores any further ones. */
  lemma ColorGradeShape(token: string)
    requires |token| >= 3
    ensures var g := ColorGrade(token).value;
            |g| == 4 && g[2] == '-' && GradeCode(g) == token[..3]
    ensures ColorGrade(token) == ColorGrade(token[..3])
  {
    var g := ColorGrade(token).value;
    assert GradeCode(g) == [token[0], token[1], token[2]];
  }

  /** What one step of the row construction yields. */
  datatype Cell = Number(n: int) | Grade(text: string)

  /** Step `i` of the row construction: the Color Grade reformatting at
      field 7, `int(values[i])` elsewhere; reading an index past the end of
      the field list raises. */
  function Step(values: seq<string>, i: nat): (r: Result<Cell, DecodeError>)
    ensures r.Success? ==> (r.value.Grade? <==> i == ColorGradeField)
  {
    if i == ColorGradeField && i < |values| then
      var grade :- ColorGrade(values[i]);
      Success(Grade(grade))
    else if i < |values| then
      var n :- IntField(values, i);
      Success(Number(n))
    else Failure(LineNumberMissing)
  }

  predicate StepOk(values: seq<string>, i: nat) {
    Step(values, i).Success?
  }

  /** Runs `steps` left to right; the first step that fails raises. */
  function RunSteps(values: seq<string>, steps: seq<nat>): (r: Result<seq<Cell>, DecodeError>)
    ensures r.Success? ==> |r.value| == |steps|
    ensures r.Success? ==> forall k :: 0 <= k < |steps| ==> StepOk(values, steps[k]) && r.value[k] == Step(values, steps[k]).value
  {
    if steps == [] then Success([])
    else
      var first :- Step(values, steps[0]);
      var rest :- RunSteps(values, steps[1..]);
      RunStepsCons(values, steps, first, rest);
      Success([first] + rest)
  }

  lemma RunStepsCons(values: seq<string>, steps: seq<nat>, first: Cell, rest: seq<Cell>)
    requires steps != [] && Step(values, steps[0]) == Success(first) && |rest| == |steps| - 1
    requires forall k :: 0 <= k < |rest| ==> StepOk(values, steps[1..][k]) && rest[k] == Step(values, steps[1..][k]).value
    ensures forall k :: 0 <= k < |steps| ==> StepOk(values, steps[k]) && ([first] + rest)[k] == Step(values, steps[k]).value
  {
    forall k | 0 <= k < |steps|
      ensures StepOk(values, steps[k]) && ([first] + rest)[k] == Step(values, steps[k]).value
    {
      if k > 0 {
        assert steps[k] == steps[1..][k - 1] && ([first] + rest)[k] == rest[k - 1];
      }
    }
  }

  /** The run succeeds exactly when every step does. */
  lemma {:induction false} RunStepsSucceeds(values: seq<string>, steps: seq<nat>)
    ensures RunSteps(values, steps).Success? <==> forall k :: 0 <= k < |steps| ==> StepOk(values, steps[k])
  {
    if steps != [] {
      var rest := steps[1..];
      RunStepsSucceeds(values, rest);
      if !StepOk(values, steps[0]) {
      } else if RunSteps(values, rest).Failure? {
        var k :| 0 <= k < |rest| && !StepOk(values, rest[k]);
        assert rest[k] == steps[k + 1];
      } else {
        forall k | 0 <= k < |steps| ensures StepOk(values, steps[k]) {
          if k > 0 {
            assert steps[k] == rest[k - 1];
          }
        }
      }
    }
  }

  /** The error reported is that of the first failing step. */
  lemma {:induction false} RunStepsFailsAtFirst(values: seq<string>, steps: seq<nat>, k: nat)
    requires k < |steps| && !StepOk(values, steps[k])
    requires forall j :: 0 <= j < k ==> StepOk(values, steps[j])
    ensures RunSteps(values, steps) == Failure(Step(values, steps[k]).error)
  {
    if k > 0 {
      assert StepOk(values, steps[0]);
      assert forall j :: 0 <= j < k - 1 ==> steps[1..][j] == steps[j + 1];
      RunStepsFailsAtFirst(values, steps[1..], k - 1);
      assert RunSteps(values, steps[1..]).Failure?;
    }
  }

  /** Every step of the row construction succeeds: the Line Number index
      exists, the Color Grade token has three characters, and the tokens at
      4-6, 8-13, 15, 16 and 21 are integer literals. */
  predicate Decodable(values: seq<string>) {
    && LineNumberField < |values|
    && |values[ColorGradeField]| >= 3
    && ParseInt(values[4]).Some? && ParseInt(values[5]).Some? && ParseInt(values[6]).Some?
    && ParseInt(values[8]).Some? && ParseInt(values[9]).Some? && ParseInt(values[10]).Some?
    && ParseInt(values[11]).Some? && ParseInt(values[12]).Some? && ParseInt(values[13]).Some?
    && ParseInt(values[15]).Some? && ParseInt(values[16]).Some? && ParseInt(values[21]).Some?
  }

  lemma DecodableSteps(values: seq<string>)
    ensures Decodable(values) <==> forall k :: 0 <= k < |Steps| ==> StepOk(values, Steps[k])
  {
    if Decodable(values) {
      forall k | 0 <= k < |Steps| ensures StepOk(values, Steps[k]) {
        assert k in {0, 1, 2, 3, 4, 5, 6, 7, 8, 9, 10, 11, 12};
      }
    }
    if forall k :: 0 <= k < |Steps| ==> StepOk(values, Steps[k]) {
      assert StepOk(values, Steps[0]) && StepOk(values, Steps[1]) && StepOk(values, Steps[2]);
      assert StepOk(values, Steps[3]) && StepOk(values, Steps[4]) && StepOk(values, Steps[5]);
      assert StepOk(values, Steps[6]) && StepOk(values, Steps[7]) && StepOk(values, Steps[8]);
      assert StepOk(values, Steps[9]) && StepOk(values, Steps[10]) && StepOk(values, Steps[11]);
      assert StepOk(values, Steps[12]);
    }
  }

  /** The cells of a successful run, one per step, the grade in its place. */
  predicate WellShaped(cells: seq<Cell>) {
    && |cells| == |Steps|
    && forall j :: 0 <= j < |cells| ==> (cells[j].Grade? <==> Steps[j] == ColorGradeField)
  }

  /** The row construction of one line that passed the length guard,
      evaluated left to right: the first failing step raises. */
  function DecodeFields(values: seq<string>): (r: Result<Record, DecodeError>)
    requires |values| >= MinFields
    ensures r.Success? <==> Decodable(values)
  {
    DecodableSteps(values);
    RunStepsSucceeds(values, Steps);
    RunStepsShape(values);
    var cells :- RunSteps(values, Steps);
    Success(BuildRecord(values, cells))
  }

  /** A successful run of the row steps has one cell per step, the grade at
      the Color Grade step and numbers elsewhere. */
  lemma RunStepsShape(values: seq<string>)
    ensures RunSteps(values, Steps).Success? ==> WellShaped(RunSteps(values, Steps).value)
  {
    if RunSteps(values, Steps).Success? {
      var cells := RunSteps(values, Steps).value;
      forall j | 0 <= j < |cells| ensures cells[j].Grade? <==> Steps[j] == ColorGradeField {
        assert cells[j] == Step(values, Steps[j]).value;
      }
    }
  }

  /** The row list once every step has succeeded: the text fields taken
      verbatim and each measurement scaled and formatted. */
  function BuildRecord(values: seq<string>, cells: seq<Cell>): Record
    requires |values| >= MinFields && WellShaped(cells)
  {
    Record(
      values[0], values[1], values[2],
      Fixed(cells[0].n, 2, 2),   // Mic
      Fixed(cells[1].n, 1, 1),   // Rd
      Fixed(cells[2].n, 1, 1),   // b+
      cells[3].text,             // Color Grade
      Fixed(cells[4].n, 2, 1),   // Area
      cells[5].n,                // Cnt
      cells[6].n,                // T.L
      Fixed(cells[7].n, 3, 3),   // Len
      Fixed(cells[8].n, 1, 1),   // Unf
      Fixed(cells[9].n, 1, 1),   // Str
      Fixed(cells[10].n, 1, 1),  // SFI
      Fixed(cells[11].n, 1, 1),  // ELG
      values[17], values[18],
      cells[12].n)               // Line Number
  }

  /** The error reported is the one of the first failing step, in the order
      the row is built. */
  lemma DecodeFailsAtFirstBadStep(values: seq<string>, k: nat)
    requires |values| >= MinFields
    requires k < |Steps| && !StepOk(values, Steps[k])
    requires forall j :: 0 <= j < k ==> StepOk(values, Steps[j])
    ensures DecodeFields(values) == Failure(Step(values, Steps[k]).error)
  {
    RunStepsFailsAtFirst(values, Steps, k);
  }

  /** A line with exactly 21 fields passes the guard but cannot be decoded:
      the Line Number is read from index 21. */
  lemma TwentyOneFieldsFail(values: seq<string>)
    requires |values| == MinFields
    ensures DecodeFields(values).Failure?
  {
    assert !StepOk(values, Steps[12]);
  }

  /** Fixed-point decoding is exact: Mic is field 4 / 100, Rd, b+, Unf, Str,
      SFI and ELG are their field / 10, Len is field 11 / 1000, Cnt, T.L and
      the Line Number are plain integers, the carried-through text fields are
      verbatim; only Area is quantised, to one decimal of field 8 / 100. */
  lemma DecodedValues(values: seq<string>)
    requires |values| >= MinFields && Decodable(values)
    ensures var r := DecodeFields(values).value;
            && r.mic == ParseInt(values[4]).value as real / 100.0
            && r.rd == ParseInt(values[5]).value as real / 10.0
            && r.bPlus == ParseInt(values[6]).value as real / 10.0
            && r.area == Fixed(ParseInt(values[8]).value, 2, 1)
            && r.cnt == ParseInt(values[9]).value
            && r.tl == ParseInt(values[10]).value
            && r.len == ParseInt(values[11]).value as real / 1000.0
            && r.unf == ParseInt(values[12]).value as real / 10.0
            && r.str == ParseInt(values[13]).value as real / 10.0
            && r.sfi == ParseInt(values[15]).value as real / 10.0
            && r.elg == ParseInt(values[16]).value as real / 10.0
            && r.lineNumber == ParseInt(values[21]).value
            && r.testingMode == values[0] && r.ginCode == values[1] && r.baleNumber == values[2]
            && r.retest == values[17] && r.retestCode == values[18]
            && r.colorGrade == ColorGrade(values[7]).value
  {
    var cells := CellsOf(values);
    BuildRecordExact(values, cells);
    var r := BuildRecord(values, cells);
  }

  /** The cells of a decodable line are the parsed tokens, in step order. */
  lemma CellsOf(values: seq<string>) returns (cells: seq<Cell>)
    requires |values| >= MinFields && Decodable(values)
    ensures WellShaped(cells)
    ensures DecodeFields(values) == Success(BuildRecord(values, cells))
    ensures cells[0] == Number(ParseInt(values[4]).value) && cells[1] == Number(ParseInt(values[5]).value)
    ensures cells[2] == Number(ParseInt(values[6]).value) && cells[3] == Grade(ColorGrade(values[7]).value)
    ensures cells[4] == Number(ParseInt(values[8]).value) && cells[5] == Number(ParseInt(values[9]).value)
    ensures cells[6] == Number(ParseInt(values[10]).value) && cells[7] == Number(ParseInt(values[11]).value)
    ensures cells[8] == Number(ParseInt(values[12]).value) && cells[9] == Number(ParseInt(values[13]).value)
    ensures cells[10] == Number(ParseInt(values[15]).value) && cells[11] == Number(ParseInt(values[16]).value)
    ensures cells[12] == Number(ParseInt(values[21]).value)
  {
    DecodableSteps(values);
    RunStepsSucceeds(values, Steps);
    RunStepsShape(values);
    cells := RunSteps(values, Steps).value;
    assert Steps == [4, 5, 6, 7, 8, 9, 10, 11, 12, 13, 15, 16, 21];
    NumberCell(values, 4);
    NumberCell(values, 5);
    NumberCell(values, 6);
    NumberCell(values, 8);
    NumberCell(values, 9);
    NumberCell(values, 10);
    NumberCell(values, 11);
    NumberCell(values, 12);
    NumberCell(values, 13);
    NumberCell(values, 15);
    NumberCell(values, 16);
    NumberCell(values, 21);
  }

  /** A successful step away from the Color Grade field is the parsed token. */
  lemma NumberCell(values: seq<string>, i: nat)
    requires i < |values| && i != ColorGradeField && StepOk(values, i)
    ensures Step(values, i) == Success(Number(ParseInt(values[i]).value))
  {
  }

  lemma BuildRecordExact(values: seq<string>, cells: seq<Cell>)
    requires |values| >= MinFields && WellShaped(cells)
    ensures var r := BuildRecord(values, cells);
            && r.mic == cells[0].n as real / 100.0
            && r.rd == cells[1].n as real / 10.0
            && r.bPlus == cells[2].n as real / 10.0
            && r.len == cells[7].n as real / 1000.0
            && r.unf == cells[8].n as real / 10.0
            && r.str == cells[9].n as real / 10.0
            && r.sfi == cells[10].n as real / 10.0
            && r.elg == cells[11].n as real / 10.0
  {
    FixedHundredths(cells[0].n);
    FixedTenths(cells[1].n);
    FixedTenths(cells[2].n);
    FixedThousandths(cells[7].n);
    FixedTenths(cells[8].n);
    FixedTenths(cells[9].n);
    FixedTenths(cells[10].n);
    FixedTenths(cells[11].n);
  }

  // ---------------------------------------------------------------------------
  // One line

  /** One pass of the line loop: `Success(None)` for a line the length guard
      skips, `Success(Some(record))` for a decoded line. */
  function DecodeLine(line: string): (r: Result<Option<Record>, DecodeError>)
    ensures IsShort(line) ==> r == Success(None)
    ensures !IsShort(line) ==> (r.Success? <==> Decodable(Fields(line)))
    ensures r.Success? && !IsShort(line) ==> r.value == Some(DecodeFields(Fields(line)).value)
  {
    var values := Fields(line);
    if |values| < MinFields then Success(None)
    else
      var record :- DecodeFields(values);
      Success(Some(record))
  }

  /** Scaling and formatting on the example values of the row list (the
      integers its tokens denote; leading zeros are covered by
      `ParseIntZeroPadded`). */
  lemma DecodingExamples()
    ensures Fixed(448, 2, 2) == 4.48
    ensures Fixed(753, 1, 1) == 75.3
    ensures Fixed(130, 1, 1) == 13.0
    ensures Fixed(70, 1, 1) == 7.0
    ensures Fixed(972, 3, 3) == 0.972
    ensures Fixed(30, 2, 1) == 0.3
    ensures ColorGrade("133") == Success("13-3")
  {
    FixedExact(448, 2);
    FixedExact(753, 1);
    FixedExact(130, 1);
    FixedExact(70, 1);
    FixedExact(972, 3);
    RoundToGrid(3, 1);
    assert Grid(30, 2) == Grid(3, 1);
  }
}
