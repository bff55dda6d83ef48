/** The last stage of the converter: the SCI (Spinning Consistency Index) column is
    computed from the unrounded per-bale means and placed before Mic, and
    then every numeric column is rounded to its own number of places. */
module Formatter {
  import opened FixedPoint
  import opened Aggregation

  /** One row of the finished table, fields in the column order of the
      returned frame. */
  datatype BaleRow = BaleRow(
    baleNumber: string,
    testingMode: string,
    ginCode: string,
    sci: int,
    mic: real,
    rd: real,
    bPlus: real,
    colorGrade: string,
    area: real,
    cnt: int,
    tl: int,
    len: real,
    unf: real,
    str: real,
    sfi: real,
    elg: real,
    retest: string,
    retestCode: string,
    lineNumber: int)

  /** The SCI regression: -414.67 + 2.9 Str - 9.32 Mic + 49.17 Len
      + 4.74 Unf + 0.65 Rd + 0.36 b+. */
  function SciFormula(str: real, mic: real, len: real, unf: real, rd: real, bPlus: real): real {
    -414.67 + 2.9 * str - 9.32 * mic + 49.17 * len + 4.74 * unf + 0.65 * rd + 0.36 * bPlus
  }

  /** SCI of a bale, from its unrounded means. */
  function Sci(b: Bale): real {
    SciFormula(b.str, b.mic, b.len, b.unf, b.rd, b.bPlus)
  }

  /** SCI and the rounding table applied to one bale. SCI is taken from the
      means before any of them is rounded, and is then rounded to a whole
      number; Mic, Area and Len keep 2 places; Rd, b+, Unf, Str, SFI and ELG
      keep 1; Cnt and T.L become whole numbers; the other columns pass
      through unchanged. */
  function FormatBale(b: Bale): (r: BaleRow)
    ensures r.baleNumber == b.baleNumber && r.testingMode == b.testingMode && r.ginCode == b.ginCode
    ensures r.colorGrade == b.colorGrade && r.retest == b.retest && r.retestCode == b.retestCode
    ensures r.lineNumber == b.lineNumber
    ensures IsHalfEvenRounding(Sci(b), r.sci)
    ensures IsRoundingTo(b.mic, 2, r.mic) && IsRoundingTo(b.area, 2, r.area) && IsRoundingTo(b.len, 2, r.len)
    ensures IsRoundingTo(b.rd, 1, r.rd) && IsRoundingTo(b.bPlus, 1, r.bPlus)
    ensures IsRoundingTo(b.unf, 1, r.unf) && IsRoundingTo(b.str, 1, r.str)
    ensures IsRoundingTo(b.sfi, 1, r.sfi) && IsRoundingTo(b.elg, 1, r.elg)
    ensures IsHalfEvenRounding(b.cnt, r.cnt) && IsHalfEvenRounding(b.tl, r.tl)
  {
    BaleRow(
      b.baleNumber, b.testingMode, b.ginCode,
      RoundHalfEven(Sci(b)),
      RoundTo(b.mic, 2), RoundTo(b.rd, 1), RoundTo(b.bPlus, 1),
      b.colorGrade,
      RoundTo(b.area, 2),
      RoundHalfEven(b.cnt), RoundHalfEven(b.tl),
      RoundTo(b.len, 2), RoundTo(b.unf, 1), RoundTo(b.str, 1),
      RoundTo(b.sfi, 1), RoundTo(b.elg, 1),
      b.retest, b.retestCode, b.lineNumber)
  }

  /** Rows that are already rounded do not change when the table is applied
      to them again. */
  lemma FormatBaleStable(b: Bale)
    ensures var r := FormatBale(b);
            var b2 := b.(mic := r.mic, rd := r.rd, bPlus := r.bPlus, area := r.area,
                         cnt := r.cnt as real, tl := r.tl as real, len := r.len,
                         unf := r.unf, str := r.str, sfi := r.sfi, elg := r.elg);
            FormatBale(b2) == r.(sci := FormatBale(b2).sci)
  {
    var r := FormatBale(b);
    RoundToIdempotent(b.mic, 2);
    RoundToIdempotent(b.area, 2);
    RoundToIdempotent(b.len, 2);
    RoundToIdempotent(b.rd, 1);
    RoundToIdempotent(b.bPlus, 1);
    RoundToIdempotent(b.unf, 1);
    RoundToIdempotent(b.str, 1);
    RoundToIdempotent(b.sfi, 1);
    RoundToIdempotent(b.elg, 1);
    RoundHalfEvenUnique(r.cnt as real, r.cnt);
    RoundHalfEvenUnique(r.tl as real, r.tl);
  }

  /** A bale with Str 23.6, Mic 4.48, Len 0.972, Unf 76.7, Rd 75.3 and b+ 13.0
      has SCI 76.99264, shown as 77. */
  lemma SciExample(b: Bale)
    requires b.str == 23.6 && b.mic == 4.48 && b.len == 0.972
    requires b.unf == 76.7 && b.rd == 75.3 && b.bPlus == 13.0
    ensures Sci(b) == 76.99264
    ensures FormatBale(b).sci == 77
  {
    RoundHalfEvenUnique(76.99264, 77);
  }

  /** SCI must come from the unrounded means: with a mean Len of 0.975 (two
      readings 0.970 and 0.980, say) the index is 74.29615 and shows as 74,
      while the same formula on the rounded columns (Len shown as 0.98)
      would give 74.542, shown as 75. */
  lemma SciBeforeRounding(b: Bale)
    requires b.str == 23.6 && b.mic == 4.48 && b.len == 0.975
    requires b.unf == 76.1 && b.rd == 75.3 && b.bPlus == 13.0
    ensures FormatBale(b).sci == 74
    ensures var r := FormatBale(b);
            RoundHalfEven(SciFormula(r.str, r.mic, r.len, r.unf, r.rd, r.bPlus)) == 75
  {
    RoundHalfEvenUnique(74.29615, 74);
    RoundToGrid(236, 1);
    assert Grid(236, 1) == 23.6;
    RoundToGrid(448, 2);
    assert Grid(448, 2) == 4.48;
    RoundToGrid(761, 1);
    assert Grid(761, 1) == 76.1;
    RoundToGrid(753, 1);
    assert Grid(753, 1) == 75.3;
    RoundToGrid(130, 1);
    assert Grid(130, 1) == 13.0;
    RoundHalfEvenUnique(97.5, 98);
    assert RoundTo(0.975, 2) == 0.98;
    RoundHalfEvenUnique(74.542, 75);
  }

  /** The rounding stage over the whole grouped frame, one bale at a time. */
  method FinishBales(bales: seq<Bale>) returns (rows: seq<BaleRow>)
    ensures |rows| == |bales|
    ensures forall i :: 0 <= i < |bales| ==> rows[i] == FormatBale(bales[i])
  {
    rows := [];
    var i := 0;
    while i < |bales|
      invariant 0 <= i <= |bales|
      invariant |rows| == i
      invariant forall j :: 0 <= j < i ==> rows[j] == FormatBale(bales[j])
    {
      rows := rows + [FormatBale(bales[i])];
      i := i + 1;
    }
  }

  // ---------------------------------------------------------------------------
  // Column layout

  /** Columns after `reset_index()`: the group key first, then the
      aggregated columns in the order of the aggregation dictionary. */
  const GroupedColumns: seq<string> := [
    "Gin Bale Number", "Testing Mode", "Gin Code", "Mic", "Rd", "b+",
    "Color Grade", "Area", "Cnt", "T.L", "Len", "Unf", "Str", "SFI", "ELG",
    "Retest", "Retest Code", "Line Number"]

  /** Places `name` immediately before `anchor`, everything else keeping its
      place. */
  function InsertBefore(cols: seq<string>, anchor: string, name: string): (r: seq<string>)
    requires anchor in cols
    ensures |r| == |cols| + 1
  {
    var i := IndexOf(cols, anchor);
    cols[..i] + [name] + cols[i..]
  }

  /** The columns of the returned frame. */
  function OutputColumns(): seq<string> {
    InsertBefore(GroupedColumns, "Mic", "SCI")
  }

  /** The new column goes in front of the first occurrence of the anchor:
      the columns before it keep their places, and the anchor and everything
      after it move one place to the right. */
  lemma InsertBeforeAt(cols: seq<string>, anchor: string, name: string, i: nat)
    requires i < |cols| && cols[i] == anchor
    requires forall j :: 0 <= j < i ==> cols[j] != anchor
    ensures var r := InsertBefore(cols, anchor, name);
            && r[i] == name && r[i + 1] == anchor
            && (forall j :: 0 <= j < i ==> r[j] == cols[j])
            && (forall j :: i <= j < |cols| ==> r[j + 1] == cols[j])
  {
    var k := IndexOf(cols, anchor);
    assert k == i;
  }

  /** The returned frame's columns: Gin Bale Number, Testing Mode, Gin Code,
      then SCI, then Mic and the rest as grouped; `BaleRow` lists its fields
      in the same order. */
  lemma OutputColumnsOrder()
    ensures OutputColumns() == GroupedColumns[..3] + ["SCI"] + GroupedColumns[3..]
    ensures OutputColumns()[3] == "SCI" && OutputColumns()[4] == "Mic"
  {
    var g := GroupedColumns;
    assert |g[0]| != 3 && |g[1]| != 3 && |g[2]| != 3;
    InsertBeforeAt(g, "Mic", "SCI", 3);
    assert IndexOf(g, "Mic") == 3;
  }
}
