/** `groupby('Gin Bale Number')` with the per-column aggregations of the
    converter. Groups come out in ascending bale-number
    order (the default `sort=True`); inside a group the records keep their
    order in the log. */
module Aggregation {
  import opened Records

  // ---------------------------------------------------------------------------
  // Ordering of bale numbers: Python's `str` comparison

  /** `a < b` on Python strings: lexicographic by code point, a proper
      prefix coming first. */
  predicate Less(a: string, b: string) {
    if a == [] then b != []
    else if b == [] then false
    else if a[0] != b[0] then a[0] < b[0]
    else Less(a[1..], b[1..])
  }

  lemma {:induction false} LessIrreflexive(a: string)
    ensures !Less(a, a)
  {
    if a != [] {
      LessIrreflexive(a[1..]);
    }
  }

  lemma {:induction false} LessAsymmetric(a: string, b: string)
    requires Less(a, b)
    ensures !Less(b, a)
  {
    if a != [] && b != [] && a[0] == b[0] {
      LessAsymmetric(a[1..], b[1..]);
    }
  }

  lemma {:induction false} LessTransitive(a: string, b: string, c: string)
    requires Less(a, b) && Less(b, c)
    ensures Less(a, c)
  {
    if a != [] && a[0] == b[0] && b[0] == c[0] {
      LessTransitive(a[1..], b[1..], c[1..]);
    }
  }

  lemma {:induction false} LessTotal(a: string, b: string)
    requires a != b
    ensures Less(a, b) || Less(b, a)
  {
    if a != [] && b != [] && a[0] == b[0] {
      assert a == [a[0]] + a[1..] && b == [b[0]] + b[1..];
      LessTotal(a[1..], b[1..]);
    }
  }

  predicate StrictlySorted(keys: seq<string>) {
    forall i, j :: 0 <= i < j < |keys| ==> Less(keys[i], keys[j])
  }

  // ---------------------------------------------------------------------------
  // Group keys

  /** The Gin Bale Number column, in log order. */
  function BaleNumbers(recs: seq<Record>): (keys: seq<string>)
    ensures |keys| == |recs|
    ensures forall i :: 0 <= i < |recs| ==> keys[i] == recs[i].baleNumber
  {
    seq(|recs|, i requires 0 <= i < |recs| => recs[i].baleNumber)
  }

  /** Adds `k` to an ascending key list unless it is already there. */
  function Insert(keys: seq<string>, k: string): (r: seq<string>)
    requires StrictlySorted(keys)
    ensures StrictlySorted(r)
    ensures forall x :: x in r <==> x in keys || x == k
  {
    if keys == [] then [k]
    else if k == keys[0] then keys
    else if Less(k, keys[0]) then
      assert forall j :: 0 < j < |keys| ==> Less(k, keys[j]) by {
        forall j | 0 < j < |keys| ensures Less(k, keys[j]) {
          LessTransitive(k, keys[0], keys[j]);
        }
      }
      [k] + keys
    else
      LessTotal(k, keys[0]);
      var rest := Insert(keys[1..], k);
      assert keys == [keys[0]] + keys[1..];
      assert forall x :: x in rest ==> Less(keys[0], x);
      [keys[0]] + rest
  }

  /** The distinct elements of `xs` in ascending order. */
  function SortedDistinct(xs: seq<string>): (r: seq<string>)
    ensures StrictlySorted(r)
    ensures forall x :: x in r <==> x in xs
  {
    if xs == [] then []
    else
      assert xs == xs[..|xs| - 1] + [xs[|xs| - 1]];
      Insert(SortedDistinct(xs[..|xs| - 1]), xs[|xs| - 1])
  }

  /** The group keys, one per distinct Gin Bale Number, ascending. */
  function Keys(recs: seq<Record>): seq<string> {
    SortedDistinct(BaleNumbers(recs))
  }

  /** An ascending list without repeats is determined by its elements: the
      key list is the only sorted listing of the distinct bale numbers. */
  lemma {:induction false} SortedListingUnique(a: seq<string>, b: seq<string>)
    requires StrictlySorted(a) && StrictlySorted(b)
    requires forall x :: x in a <==> x in b
    ensures a == b
  {
    assert (a != [] ==> a[0] in a) && (b != [] ==> b[0] in b);
    if a != [] && b != [] {
      if a[0] != b[0] {
        assert a[0] in a && b[0] in b;
        var i :| 0 <= i < |b| && b[i] == a[0];
        var j :| 0 <= j < |a| && a[j] == b[0];
        assert i > 0 && j > 0;
        LessAsymmetric(b[0], a[0]);
      }
      forall x ensures x in a[1..] <==> x in b[1..] {
        if x in a[1..] {
          var j :| 1 <= j < |a| && a[j] == x;
          LessIrreflexive(a[0]);
          assert x != a[0];
          assert x in b;
        }
        if x in b[1..] {
          var j :| 1 <= j < |b| && b[j] == x;
          LessIrreflexive(b[0]);
          assert x != b[0];
          assert x in a;
        }
      }
      SortedListingUnique(a[1..], b[1..]);
      assert a == [a[0]] + a[1..] && b == [b[0]] + b[1..];
    }
  }

  // ---------------------------------------------------------------------------
  // Groups

  /** The records with bale number `k`, in log order. */
  function Group(recs: seq<Record>, k: string): (g: seq<Record>)
    ensures |g| == multiset(BaleNumbers(recs))[k]
    ensures forall x :: x in g <==> x in recs && x.baleNumber == k
  {
    if recs == [] then []
    else
      var prefix := recs[..|recs| - 1];
      var last := recs[|recs| - 1];
      assert recs == prefix + [last];
      assert BaleNumbers(recs) == BaleNumbers(prefix) + [last.baleNumber];
      Group(prefix, k) + (if last.baleNumber == k then [last] else [])
  }

  /** A one-record log has that record as its group, or nothing. */
  lemma GroupSingleton(r: Record, k: string)
    ensures Group([r], k) == if r.baleNumber == k then [r] else []
  {
    assert [r][..0] == [];
  }

  /** Grouping distributes over concatenation of logs: a group keeps the
      log order of its records and lists each occurrence once, so with
      `GroupSingleton` it pins the group down completely. */
  lemma {:induction false} GroupAppend(a: seq<Record>, b: seq<Record>, k: string)
    ensures Group(a + b, k) == Group(a, k) + Group(b, k)
    decreases |b|
  {
    if b == [] {
      assert a + b == a;
      assert Group(b, k) == [];
      assert Group(a, k) + Group(b, k) == Group(a, k);
    } else {
      var init, last := b[..|b| - 1], b[|b| - 1];
      GroupAppend(a, init, k);
      SnocSplit(a, b);
      GroupSnoc(a + init, last, k);
      GroupSnoc(init, last, k);
      var tail := if last.baleNumber == k then [last] else [];
      assert Group(a + b, k) == (Group(a, k) + Group(init, k)) + tail;
      assert Group(b, k) == Group(init, k) + tail;
      ConcatAssoc(Group(a, k), Group(init, k), tail);
    }
  }

  lemma ConcatAssoc<T>(x: seq<T>, y: seq<T>, z: seq<T>)
    ensures (x + y) + z == x + (y + z)
  {
  }

  lemma SnocSplit<T>(a: seq<T>, b: seq<T>)
    requires b != []
    ensures a + b == (a + b[..|b| - 1]) + [b[|b| - 1]]
    ensures b == b[..|b| - 1] + [b[|b| - 1]]
  {
  }

  /** One more record extends its own group and no other. */
  lemma GroupSnoc(recs: seq<Record>, r: Record, k: string)
    ensures Group(recs + [r], k) == Group(recs, k) + (if r.baleNumber == k then [r] else [])
  {
    assert (recs + [r])[..|recs|] == recs;
  }

  /** Index of the first record with bale number `k`. */
  function FirstWith(recs: seq<Record>, k: string): (i: nat)
    requires k in BaleNumbers(recs)
    ensures i < |recs| && recs[i].baleNumber == k
    ensures forall j :: 0 <= j < i ==> recs[j].baleNumber != k
  {
    if recs[0].baleNumber == k then 0
    else
      var t :| 0 <= t < |recs| && BaleNumbers(recs)[t] == k;
      assert BaleNumbers(recs[1..])[t - 1] == k;
      1 + FirstWith(recs[1..], k)
  }

  /** A group starts with the first record of its bale in the log: that is
      the record the 'first' aggregations read. */
  lemma {:induction false} GroupStartsWithFirstSeen(recs: seq<Record>, k: string)
    requires k in BaleNumbers(recs)
    ensures Group(recs, k) != [] && Group(recs, k)[0] == recs[FirstWith(recs, k)]
  {
    var prefix := recs[..|recs| - 1];
    var last := recs[|recs| - 1];
    assert recs == prefix + [last];
    assert BaleNumbers(recs) == BaleNumbers(prefix) + [last.baleNumber];
    if k in BaleNumbers(prefix) {
      GroupStartsWithFirstSeen(prefix, k);
      FirstWithPrefix(prefix, last, k);
    } else {
      assert Group(prefix, k) == [];
      assert forall j :: 0 <= j < |prefix| ==> recs[j].baleNumber != k by {
        forall j | 0 <= j < |prefix| ensures recs[j].baleNumber != k {
          assert BaleNumbers(prefix)[j] == recs[j].baleNumber;
        }
      }
    }
  }

  lemma FirstWithPrefix(prefix: seq<Record>, last: Record, k: string)
    requires k in BaleNumbers(prefix)
    ensures k in BaleNumbers(prefix + [last])
    ensures FirstWith(prefix + [last], k) == FirstWith(prefix, k)
  {
    var recs := prefix + [last];
    var i := FirstWith(prefix, k);
    assert BaleNumbers(recs)[i] == k;
    var i' := FirstWith(recs, k);
    assert recs[i] == prefix[i];
  }

  // ---------------------------------------------------------------------------
  // Means

  function Sum(xs: seq<real>): real {
    if xs == [] then 0.0 else Sum(xs[..|xs| - 1]) + xs[|xs| - 1]
  }

  /** `Series.mean()`: the unweighted arithmetic mean. */
  function Mean(xs: seq<real>): real
    requires |xs| > 0
  {
    Sum(xs) / |xs| as real
  }

  lemma {:induction false} SumBounds(xs: seq<real>, lo: real, hi: real)
    requires forall i :: 0 <= i < |xs| ==> lo <= xs[i] <= hi
    ensures |xs| as real * lo <= Sum(xs) <= |xs| as real * hi
  {
    if xs != [] {
      SumBounds(xs[..|xs| - 1], lo, hi);
    }
  }

  /** A mean lies between the smallest and the largest of its values; a
      group whose values all agree has that value as its mean. */
  lemma MeanBounds(xs: seq<real>, lo: real, hi: real)
    requires |xs| > 0
    requires forall i :: 0 <= i < |xs| ==> lo <= xs[i] <= hi
    ensures lo <= Mean(xs) <= hi
  {
    SumBounds(xs, lo, hi);
    var n := |xs| as real;
    assert Sum(xs) / n >= (n * lo) / n;
    assert Sum(xs) / n <= (n * hi) / n;
  }

  // ---------------------------------------------------------------------------
  // Mode: `statistics.mode` (Python 3.8 and later)

  function Count(xs: seq<string>, y: string): nat {
    multiset(xs)[y]
  }

  function IndexOf(xs: seq<string>, y: string): (i: nat)
    requires y in xs
    ensures i < |xs| && xs[i] == y
    ensures forall j :: 0 <= j < i ==> xs[j] != y
  {
    if xs[0] == y then 0 else 1 + IndexOf(xs[1..], y)
  }

  /** `m` is a most frequent value of `xs`, and of those the one that
      appears first. */
  predicate IsFirstMode(xs: seq<string>, m: string) {
    && m in xs
    && (forall j :: 0 <= j < |xs| ==> Count(xs, xs[j]) <= Count(xs, m))
    && (forall j :: 0 <= j < |xs| && Count(xs, xs[j]) == Count(xs, m) ==> IndexOf(xs, m) <= j)
  }

  /** The first-mode property holds of `best` over the prefix `xs[..i]`. */
  predicate ModeSoFar(xs: seq<string>, i: nat, best: string)
    requires i <= |xs|
  {
    && best in xs[..i]
    && (forall j :: 0 <= j < i ==> Count(xs, xs[j]) <= Count(xs, best))
    && (forall j :: 0 <= j < i && Count(xs, xs[j]) == Count(xs, best) ==> IndexOf(xs, best) <= j)
  }

  /** Scans `xs[i..]`, replacing the candidate only by a strictly more
      frequent value, so that among equally frequent values the earliest
      one stays. */
  function ModeFrom(xs: seq<string>, i: nat, best: string): (m: string)
    requires 0 < i <= |xs| && ModeSoFar(xs, i, best)
    ensures IsFirstMode(xs, m)
    decreases |xs| - i
  {
    if i == |xs| then
      assert xs[..i] == xs;
      best
    else if Count(xs, xs[i]) > Count(xs, best) then
      ModeSoFarReplace(xs, i, best);
      ModeFrom(xs, i + 1, xs[i])
    else
      ModeSoFarKeep(xs, i, best);
      ModeFrom(xs, i + 1, best)
  }

  /** A strictly more frequent value takes over as the candidate. */
  lemma ModeSoFarReplace(xs: seq<string>, i: nat, best: string)
    requires 0 < i < |xs| && ModeSoFar(xs, i, best) && Count(xs, xs[i]) > Count(xs, best)
    ensures ModeSoFar(xs, i + 1, xs[i])
  {
    assert xs[..i + 1][i] == xs[i];
    assert IndexOf(xs, xs[i]) <= i;
  }

  /** A value at most as frequent leaves the candidate in place. */
  lemma ModeSoFarKeep(xs: seq<string>, i: nat, best: string)
    requires 0 < i < |xs| && ModeSoFar(xs, i, best) && Count(xs, xs[i]) <= Count(xs, best)
    ensures ModeSoFar(xs, i + 1, best)
  {
    var t :| 0 <= t < i && xs[..i][t] == best;
    assert xs[t] == best;
    assert IndexOf(xs, best) <= t;
    assert xs[..i + 1] == xs[..i] + [xs[i]];
  }

  /** The most common value, ties going to the first one encountered. */
  function Mode(xs: seq<string>): (m: string)
    requires |xs| > 0
    ensures IsFirstMode(xs, m)
  {
    assert xs[..1] == [xs[0]];
    ModeFrom(xs, 1, xs[0])
  }

  /** The first-mode property picks out a single value. */
  lemma FirstModeUnique(xs: seq<string>, m1: string, m2: string)
    requires IsFirstMode(xs, m1) && IsFirstMode(xs, m2)
    ensures m1 == m2
  {
    var i1, i2 := IndexOf(xs, m1), IndexOf(xs, m2);
    assert Count(xs, xs[i1]) <= Count(xs, m2) && Count(xs, xs[i2]) <= Count(xs, m1);
  }

  lemma ModeExamples()
    ensures Mode(["13-3", "14-2", "13-3"]) == "13-3"
    ensures Mode(["13-3", "14-2"]) == "13-3"
  {
    var a := ["13-3", "14-2", "13-3"];
    assert Count(a, "13-3") == 2 && Count(a, "14-2") == 1;
    assert IsFirstMode(a, "13-3");
    FirstModeUnique(a, Mode(a), "13-3");
    var b := ["13-3", "14-2"];
    assert Count(b, "13-3") == 1 && Count(b, "14-2") == 1;
    assert IsFirstMode(b, "13-3");
    FirstModeUnique(b, Mode(b), "13-3");
  }

  // ---------------------------------------------------------------------------
  // One aggregated bale

  /** The numeric columns that are averaged. */
  datatype Column = Mic | Rd | BPlus | Area | Cnt | TL | Len | Unf | Str | Sfi | Elg

  function Value(r: Record, c: Column): real {
    match c
    case Mic => r.mic
    case Rd => r.rd
    case BPlus => r.bPlus
    case Area => r.area
    case Cnt => r.cnt as real
    case TL => r.tl as real
    case Len => r.len
    case Unf => r.unf
    case Str => r.str
    case Sfi => r.sfi
    case Elg => r.elg
  }

  function Values(g: seq<Record>, c: Column): (xs: seq<real>)
    ensures |xs| == |g| && forall i :: 0 <= i < |g| ==> xs[i] == Value(g[i], c)
  {
    seq(|g|, i requires 0 <= i < |g| => Value(g[i], c))
  }

  function Grades(g: seq<Record>): (xs: seq<string>)
    ensures |xs| == |g| && forall i :: 0 <= i < |g| ==> xs[i] == g[i].colorGrade
  {
    seq(|g|, i requires 0 <= i < |g| => g[i].colorGrade)
  }

  /** One row of the grouped frame, before SCI and rounding. */
  datatype Bale = Bale(
    baleNumber: string,
    testingMode: string,
    ginCode: string,
    mic: real,
    rd: real,
    bPlus: real,
    colorGrade: string,
    area: real,
    cnt: real,
    tl: real,
    len: real,
    unf: real,
    str: real,
    sfi: real,
    elg: real,
    retest: string,
    retestCode: string,
    lineNumber: int)
  {
    function Get(c: Column): real {
      match c
      case Mic => mic
      case Rd => rd
      case BPlus => bPlus
      case Area => area
      case Cnt => cnt
      case TL => tl
      case Len => len
      case Unf => unf
      case Str => str
      case Sfi => sfi
      case Elg => elg
    }
  }

  /** The aggregation dictionary applied to one group. */
  function Aggregate(g: seq<Record>): Bale
    requires |g| > 0
  {
    Bale(
      g[0].baleNumber,
      g[0].testingMode, g[0].ginCode,
      Mean(Values(g, Mic)), Mean(Values(g, Rd)), Mean(Values(g, BPlus)),
      Mode(Grades(g)),
      Mean(Values(g, Area)), Mean(Values(g, Cnt)), Mean(Values(g, TL)),
      Mean(Values(g, Len)), Mean(Values(g, Unf)), Mean(Values(g, Str)),
      Mean(Values(g, Sfi)), Mean(Values(g, Elg)),
      g[0].retest, g[0].retestCode, g[0].lineNumber)
  }

  /** What a bale row says about its group: the carried-through columns are
      those of the group's first record, each numeric column is the group's
      mean (so it lies within the group's range), and the Color Grade is the
      group's first mode. */
  lemma AggregateSummarises(g: seq<Record>, c: Column, lo: real, hi: real)
    requires |g| > 0
    requires forall i :: 0 <= i < |g| ==> lo <= Value(g[i], c) <= hi
    ensures var b := Aggregate(g);
            && b.testingMode == g[0].testingMode && b.ginCode == g[0].ginCode
            && b.retest == g[0].retest && b.retestCode == g[0].retestCode
            && b.lineNumber == g[0].lineNumber
            && b.Get(c) == Mean(Values(g, c))
            && lo <= b.Get(c) <= hi
            && IsFirstMode(Grades(g), b.colorGrade)
  {
    MeanBounds(Values(g, c), lo, hi);
  }

  /** A group of one record aggregates to that record's own values. */
  lemma AggregateSingleton(r: Record, c: Column)
    ensures Aggregate([r]).Get(c) == Value(r, c)
    ensures Aggregate([r]).colorGrade == r.colorGrade
  {
    MeanBounds(Values([r], c), Value(r, c), Value(r, c));
  }

  /** Two records of bale "B1" with Mic 4.40 and 4.60 give a Mic of 4.50. */
  lemma MeanOfTwo(r1: Record, r2: Record)
    requires r1.mic == 4.40 && r2.mic == 4.60
    ensures Aggregate([r1, r2]).mic == 4.50
  {
    var xs := Values([r1, r2], Mic);
    assert xs == [4.40, 4.60];
    assert xs[..1] == [4.40] && xs[..1][..0] == [];
    assert Sum(xs[..1]) == 4.40;
    assert Sum(xs) == 9.00;
  }

  // ---------------------------------------------------------------------------
  // The grouped frame

  /** `groupby('Gin Bale Number').agg(...).reset_index()`: one bale row per
      key, in key order. */
  function GroupBy(recs: seq<Record>): (bales: seq<Bale>)
    ensures |bales| == |Keys(recs)|
  {
    var keys := Keys(recs);
    assert forall i :: 0 <= i < |keys| ==> keys[i] in BaleNumbers(recs);
    seq(|keys|, i requires 0 <= i < |keys| && keys[i] in BaleNumbers(recs) =>
      Aggregate(Group(recs, keys[i])))
  }

  /** The grouped frame has exactly one row per distinct Gin Bale Number,
      in strictly ascending order of bale number, and each row aggregates the
      group of records carrying that number, whose first record is the first
      such record in the log. */
  lemma GroupByRows(recs: seq<Record>)
    ensures var bales := GroupBy(recs);
            && (forall i, j :: 0 <= i < j < |bales| ==> Less(bales[i].baleNumber, bales[j].baleNumber))
            && (forall k :: k in BaleNumbers(recs) <==> exists i :: 0 <= i < |bales| && bales[i].baleNumber == k)
            && (forall i :: 0 <= i < |bales| ==>
                 var g := Group(recs, bales[i].baleNumber);
                 && g != [] && bales[i] == Aggregate(g)
                 && g[0] == recs[FirstWith(recs, bales[i].baleNumber)])
  {
    GroupBySorted(recs);
    GroupByCovers(recs);
    GroupByGroups(recs);
  }

  /** Row `i` of the grouped frame carries the `i`-th key. */
  lemma GroupByKeys(recs: seq<Record>)
    ensures forall i :: 0 <= i < |GroupBy(recs)| ==> GroupBy(recs)[i].baleNumber == Keys(recs)[i]
  {
    forall i | 0 <= i < |GroupBy(recs)| ensures GroupBy(recs)[i].baleNumber == Keys(recs)[i] {
      GroupByRow(recs, i);
    }
  }

  /** The rows are in strictly ascending bale-number order. */
  lemma GroupBySorted(recs: seq<Record>)
    ensures var bales := GroupBy(recs);
            forall i, j :: 0 <= i < j < |bales| ==> Less(bales[i].baleNumber, bales[j].baleNumber)
  {
    GroupByKeys(recs);
  }

  /** Every bale number of the records has a row, and no other does. */
  lemma GroupByCovers(recs: seq<Record>)
    ensures var bales := GroupBy(recs);
            forall k :: k in BaleNumbers(recs) <==> exists i :: 0 <= i < |bales| && bales[i].baleNumber == k
  {
    GroupByKeys(recs);
    var keys := Keys(recs);
    var bales := GroupBy(recs);
    forall k | k in BaleNumbers(recs)
      ensures exists i :: 0 <= i < |bales| && bales[i].baleNumber == k
    {
      var i :| 0 <= i < |keys| && keys[i] == k;
      assert bales[i].baleNumber == k;
    }
  }

  /** Each row aggregates the non-empty group of its bale number, which
      starts with the first record of that bale in the log. */
  lemma GroupByGroups(recs: seq<Record>)
    ensures var bales := GroupBy(recs);
            forall i :: 0 <= i < |bales| ==>
              var g := Group(recs, bales[i].baleNumber);
              && g != [] && bales[i] == Aggregate(g)
              && g[0] == recs[FirstWith(recs, bales[i].baleNumber)]
  {
    var bales := GroupBy(recs);
    forall i | 0 <= i < |bales|
      ensures var g := Group(recs, bales[i].baleNumber);
              && g != [] && bales[i] == Aggregate(g)
              && g[0] == recs[FirstWith(recs, bales[i].baleNumber)]
    {
      GroupByRow(recs, i);
    }
  }

  /** Row `i` of the grouped frame aggregates the group of the `i`-th key. */
  lemma GroupByRow(recs: seq<Record>, i: nat)
    requires i < |GroupBy(recs)|
    ensures Keys(recs)[i] in BaleNumbers(recs)
    ensures var k := Keys(recs)[i];
            && GroupBy(recs)[i].baleNumber == k
            && Group(recs, k) != [] && GroupBy(recs)[i] == Aggregate(Group(recs, k))
            && Group(recs, k)[0] == recs[FirstWith(recs, k)]
  {
    var k := Keys(recs)[i];
    assert k in Keys(recs);
    GroupStartsWithFirstSeen(recs, k);
    var g := Group(recs, k);
    assert g[0] in g;
  }
}
