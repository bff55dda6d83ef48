/** Exact decimal fixed point. The instrument writes measurements as unscaled
    integers (`448` meaning 4.48); the converter divides by a power of ten,
    formats to a number of decimal places, and later rounds the per-bale
    means. Values are exact reals here and every rounding is round half to
    even on the exact value. */
module FixedPoint {

  function Pow10(d: nat): (p: nat)
    ensures p >= 1
  {
    if d == 0 then 1 else 10 * Pow10(d - 1)
  }

  /** The decimal n * 10^-d. */
  function Grid(n: int, d: nat): real {
    n as real / Pow10(d) as real
  }

  lemma GridScale(n: int, d: nat)
    ensures Grid(n, d) * Pow10(d) as real == n as real
  {
    var p := Pow10(d) as real;
    assert p >= 1.0;
  }

  /** `n` is the integer nearest to `x`, an exact tie going to the even
      neighbour: the rounding of Python's `round` and numpy's `rint`. */
  predicate IsHalfEvenRounding(x: real, n: int) {
    && x - 0.5 <= n as real <= x + 0.5
    && (n as real == x - 0.5 || n as real == x + 0.5 ==> n % 2 == 0)
  }

  function RoundHalfEven(x: real): (n: int)
    ensures IsHalfEvenRounding(x, n)
  {
    var f := x.Floor;
    var frac := x - f as real;
    if frac < 0.5 then f
    else if frac > 0.5 then f + 1
    else if f % 2 == 0 then f
    else f + 1
  }

  /** Half-to-even rounding is determined by its defining property: no other
      integer satisfies it. */
  lemma RoundHalfEvenUnique(x: real, m: int)
    requires IsHalfEvenRounding(x, m)
    ensures m == RoundHalfEven(x)
  {
  }

  /** `r` has at most `d` decimal places and is nearest to `x` among such
      values (within half a unit of the last place), an exact tie going to
      the one whose last digit is even. */
  ghost predicate IsRoundingTo(x: real, d: nat, r: real) {
    exists n: int :: r == Grid(n, d) && IsHalfEvenRounding(x * Pow10(d) as real, n)
  }

  /** `round(x, d)` (and equally the `f"{x:.{d}f}"` format read back as a
      number). */
  function RoundTo(x: real, d: nat): (r: real)
    ensures IsRoundingTo(x, d, r)
  {
    Grid(RoundHalfEven(x * Pow10(d) as real), d)
  }

  /** The rounding to `d` places is determined by its defining property. */
  lemma RoundToUnique(x: real, d: nat, r: real)
    requires IsRoundingTo(x, d, r)
    ensures r == RoundTo(x, d)
  {
    var n :| r == Grid(n, d) && IsHalfEvenRounding(x * Pow10(d) as real, n);
    RoundHalfEvenUnique(x * Pow10(d) as real, n);
  }

  /** A value that already has at most `d` places rounds to itself. */
  lemma RoundToGrid(n: int, d: nat)
    ensures RoundTo(Grid(n, d), d) == Grid(n, d)
  {
    GridScale(n, d);
    assert IsHalfEvenRounding(Grid(n, d) * Pow10(d) as real, n);
    RoundToUnique(Grid(n, d), d, Grid(n, d));
  }

  /** Rounding twice is rounding once. */
  lemma RoundToIdempotent(x: real, d: nat)
    ensures RoundTo(RoundTo(x, d), d) == RoundTo(x, d)
  {
    RoundToGrid(RoundHalfEven(x * Pow10(d) as real), d);
  }

  /** `f"{n / 10**scale:.{places}f}"` read back as a number: the integer read
      from the log, scaled down and formatted to `places` decimals. */
  function Fixed(n: int, scale: nat, places: nat): real {
    RoundTo(Grid(n, scale), places)
  }

  /** When as many places are kept as the scale removes, formatting loses
      nothing: the decoded value is exactly n / 10^scale. */
  lemma FixedExact(n: int, scale: nat)
    ensures Fixed(n, scale, scale) == Grid(n, scale)
  {
    RoundToGrid(n, scale);
  }

  lemma FixedTenths(n: int)
    ensures Fixed(n, 1, 1) == n as real / 10.0
  {
    FixedExact(n, 1);
  }

  lemma FixedHundredths(n: int)
    ensures Fixed(n, 2, 2) == n as real / 100.0
  {
    FixedExact(n, 2);
  }

  lemma FixedThousandths(n: int)
    ensures Fixed(n, 3, 3) == n as real / 1000.0
  {
    FixedExact(n, 3);
  }
}
