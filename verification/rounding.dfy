/** Rounding of a decimal to a fixed number of fractional digits, as done by
    `dround` in excel_bot.py: `x.quantize(Decimal(10) ** -places, ROUND_HALF_UP)`.
    Decimals are modelled as exact reals; scaling by powers of ten is written
    as repeated multiplication by 10 so that every proof stays linear. */
module Rounding {

  function Abs(x: real): real {
    if x < 0.0 then -x else x
  }

  /** x * 10^d. */
  function Scale(x: real, d: nat): real
    decreases d
  {
    if d == 0 then x else 10.0 * Scale(x, d - 1)
  }

  /** x / 10^d. */
  function Shrink(x: real, d: nat): real
    decreases d
  {
    if d == 0 then x else Shrink(x, d - 1) / 10.0
  }

  /** Number of fractional digits kept by quantizing to `Decimal(10) ** -places`.
      For `places >= 0` the quantum is 10^-places. For a negative `places` the
      power is the whole number 10^(-places), whose exponent is 0, so quantize
      rounds to a whole number. */
  function FractionDigits(places: int): nat {
    if places >= 0 then places else 0
  }

  /** The quantum 10^-d. */
  function Unit(d: nat): real {
    Shrink(1.0, d)
  }

  /** `r` has at most `d` fractional digits: r * 10^d is a whole number. */
  predicate OnGrid(r: real, d: nat) {
    Scale(r, d).Floor as real == Scale(r, d)
  }

  /** Nearest whole number to `y`; a tie goes away from zero (ROUND_HALF_UP). */
  function RoundHalfUp(y: real): (n: int)
    ensures Abs(n as real - y) <= 0.5
    ensures Abs(n as real - y) == 0.5 ==> Abs(n as real) > Abs(y)
  {
    if y >= 0.0 then (y + 0.5).Floor else -((-y + 0.5).Floor)
  }

  /** What it means for `q` to be `x` rounded half-up to `d` fractional digits:
      `q` has at most `d` fractional digits, lies within half a unit of `x`, and
      on a tie is the candidate farther from zero. */
  predicate IsHalfUpRounding(x: real, d: nat, q: real) {
    && OnGrid(q, d)
    && 2.0 * Abs(q - x) <= Unit(d)
    && (2.0 * Abs(q - x) == Unit(d) ==> Abs(q) > Abs(x))
  }

  // ---- Scaling by powers of ten ----

  lemma {:induction false} ScaleShrink(x: real, d: nat)
    ensures Scale(Shrink(x, d), d) == x
    decreases d
  {
    if d > 0 {
      ScaleShrink(x, d - 1);
      var y := Shrink(x, d - 1) / 10.0;
      ScaleCommute(y, d - 1);
      assert 10.0 * y == Shrink(x, d - 1);
    }
  }

  lemma {:induction false} ScaleCommute(x: real, d: nat)
    ensures Scale(10.0 * x, d) == 10.0 * Scale(x, d)
    decreases d
  {
    if d > 0 {
      ScaleCommute(x, d - 1);
    }
  }

  /** Scaling is linear. */
  lemma {:induction false} ScaleLinear(a: real, b: real, d: nat)
    ensures Scale(a - b, d) == Scale(a, d) - Scale(b, d)
    ensures Scale(a + b, d) == Scale(a, d) + Scale(b, d)
    ensures Scale(2.0 * a, d) == 2.0 * Scale(a, d)
    ensures Scale(-a, d) == -Scale(a, d)
    decreases d
  {
    if d > 0 {
      ScaleLinear(a, b, d - 1);
    }
  }

  /** Scaling keeps strict order and absolute values. */
  lemma {:induction false} ScaleOrder(a: real, b: real, d: nat)
    ensures a < b <==> Scale(a, d) < Scale(b, d)
    ensures Abs(Scale(a, d)) == Scale(Abs(a), d)
    decreases d
  {
    if d > 0 {
      ScaleOrder(a, b, d - 1);
    }
    ScaleLinear(a, b, d);
  }

  lemma UnitScale(d: nat)
    ensures Scale(Unit(d), d) == 1.0
  {
    ScaleShrink(1.0, d);
  }

  /** Relates the rounding conditions at `d` digits to their counterparts
      scaled by 10^d, where the unit becomes 1. */
  lemma ScaleHalfUp(x: real, q: real, d: nat)
    ensures 2.0 * Abs(q - x) <= Unit(d) <==> Abs(Scale(q, d) - Scale(x, d)) <= 0.5
    ensures 2.0 * Abs(q - x) == Unit(d) <==> Abs(Scale(q, d) - Scale(x, d)) == 0.5
    ensures Abs(q) > Abs(x) <==> Abs(Scale(q, d)) > Abs(Scale(x, d))
  {
    var e := Abs(q - x);
    UnitScale(d);
    ScaleOrder(q - x, 0.0, d);
    ScaleLinear(q, x, d);
    ScaleLinear(e, 0.0, d);
    ScaleOrder(2.0 * e, Unit(d), d);
    ScaleOrder(Unit(d), 2.0 * e, d);
    ScaleOrder(q, 0.0, d);
    ScaleOrder(x, 0.0, d);
    ScaleOrder(Abs(x), Abs(q), d);
  }

  /** Shrinking a whole number by 10^d gives a value with at most d digits. */
  lemma GridPoint(n: int, d: nat)
    ensures OnGrid(Shrink(n as real, d), d)
    ensures Scale(Shrink(n as real, d), d) == n as real
  {
    ScaleShrink(n as real, d);
    assert (n as real).Floor == n;
  }

  // ---- dround ----

  /** `dround(x, places)` as a number: x quantized half-up to
      FractionDigits(places) digits. */
  function DRound(x: real, places: int): (r: real)
    ensures IsHalfUpRounding(x, FractionDigits(places), r)
  {
    var d := FractionDigits(places);
    var n := RoundHalfUp(Scale(x, d));
    GridPoint(n, d);
    ScaleHalfUp(x, Shrink(n as real, d), d);
    Shrink(n as real, d)
  }

  /** Scaling is injective. */
  lemma ScaleCancel(a: real, b: real, d: nat)
    requires Scale(a, d) == Scale(b, d)
    ensures a == b
  {
    ScaleOrder(a, b, d);
    ScaleOrder(b, a, d);
  }

  /** Two whole numbers within half of `y`, each strictly farther from zero
      than `y` on a tie, coincide. */
  lemma SameNearestInteger(y: real, m: int, n: int)
    requires Abs(m as real - y) <= 0.5 && (Abs(m as real - y) == 0.5 ==> Abs(m as real) > Abs(y))
    requires Abs(n as real - y) <= 0.5 && (Abs(n as real - y) == 0.5 ==> Abs(n as real) > Abs(y))
    ensures m == n
  {
  }

  /** The conditions of IsHalfUpRounding pin down a single value: DRound is the
      only half-up rounding of `x`. */
  lemma {:induction false} HalfUpRoundingUnique(x: real, places: int, q: real)
    requires IsHalfUpRounding(x, FractionDigits(places), q)
    ensures q == DRound(x, places)
  {
    var d := FractionDigits(places);
    var r := DRound(x, places);
    ScaleHalfUp(x, q, d);
    ScaleHalfUp(x, r, d);
    var m := Scale(q, d).Floor;
    var n := Scale(r, d).Floor;
    SameNearestInteger(Scale(x, d), m, n);
    ScaleCancel(q, r, d);
  }

  lemma OnGridIsRoundingOfItself(r: real, d: nat)
    requires OnGrid(r, d)
    ensures IsHalfUpRounding(r, d, r)
  {
    UnitScale(d);
    ScaleOrder(0.0, Unit(d), d);
    ScaleLinear(0.0, 0.0, d);
  }

  /** Rounding an already rounded value changes nothing. */
  lemma {:induction false} DRoundIdempotent(x: real, places: int)
    ensures DRound(DRound(x, places), places) == DRound(x, places)
  {
    var r := DRound(x, places);
    OnGridIsRoundingOfItself(r, FractionDigits(places));
    HalfUpRoundingUnique(r, places, r);
  }

  /** A value with at most FractionDigits(places) fractional digits is kept exactly. */
  lemma {:induction false} DRoundOnGrid(x: real, places: int)
    requires OnGrid(x, FractionDigits(places))
    ensures DRound(x, places) == x
  {
    OnGridIsRoundingOfItself(x, FractionDigits(places));
    HalfUpRoundingUnique(x, places, x);
  }

  /** A value with d fractional digits also has at most d + k of them. */
  lemma {:induction false} OnGridWiden(r: real, d: nat, k: nat)
    requires OnGrid(r, d)
    ensures OnGrid(r, d + k)
    decreases k
  {
    if k > 0 {
      OnGridWiden(r, d, k - 1);
      var s := Scale(r, d + k - 1);
      var n := s.Floor;
      assert n as real == s;
      assert Scale(r, d + k) == 10.0 * s;
      assert (10 * n) as real == 10.0 * s;
      assert (10.0 * s).Floor == 10 * n;
    }
  }

  /** Half-up rounding to a whole number never reverses the order of two values. */
  lemma RoundHalfUpMonotone(x: real, y: real)
    requires x <= y
    ensures RoundHalfUp(x) <= RoundHalfUp(y)
  {
  }

  /** Rounding never reverses the order of two values. */
  lemma {:induction false} DRoundMonotone(x: real, y: real, places: int)
    requires x <= y
    ensures DRound(x, places) <= DRound(y, places)
  {
    var d := FractionDigits(places);
    ScaleOrder(y, x, d);
    RoundHalfUpMonotone(Scale(x, d), Scale(y, d));
    var m := RoundHalfUp(Scale(x, d)) as real;
    var n := RoundHalfUp(Scale(y, d)) as real;
    ScaleShrink(m, d);
    ScaleShrink(n, d);
    ScaleOrder(Shrink(n, d), Shrink(m, d), d);
  }

  /** Rounding commutes with negation: ties go away from zero on both sides. */
  lemma {:induction false} DRoundOdd(x: real, places: int)
    ensures DRound(-x, places) == -DRound(x, places)
  {
    var d := FractionDigits(places);
    var r := DRound(x, places);
    assert OnGrid(-r, d) by {
      var s := Scale(r, d);
      var n := s.Floor;
      assert n as real == s;
      ScaleLinear(r, 0.0, d);
      assert Scale(-r, d) == -s;
      assert (-n) as real == -s;
      assert (-s).Floor == -n;
    }
    assert Abs(-r - -x) == Abs(r - x);
    HalfUpRoundingUnique(-x, places, -r);
  }
}
