/** The level formulas of excel_bot.py: `compute_sell_from_high_low` and
    `compute_buy_from_low_high`, with the entry multiplier A_MULT written `a`
    and the target multiplier B_MULT written `b`. Decimals are exact reals. */
module Levels {

  /** The entry (limit, "K") level and the take-profit level of one trade. */
  datatype Levels = Levels(entry: real, target: real)

  // ---- Small facts about products, kept apart so each proof stays cheap ----

  lemma ProductNonneg(x: real, y: real)
    requires x >= 0.0 && y >= 0.0
    ensures x * y >= 0.0
  {
  }

  lemma ProductAtMost(x: real, y: real)
    requires x >= 0.0 && 0.0 <= y <= 1.0
    ensures x * y <= x
  {
    assert x - x * y == x * (1.0 - y);
    ProductNonneg(x, 1.0 - y);
  }

  lemma ProductZero(x: real, y: real)
    ensures x * y == 0.0 <==> x == 0.0 || y == 0.0
  {
  }

  /** Signs and sizes of the products the formulas scale the range by. */
  lemma RangeProducts(diff: real, a: real, b: real)
    ensures 0.0 <= a && 0.0 <= diff ==> 0.0 <= diff * a
    ensures 0.0 <= a <= 1.0 && 0.0 <= diff ==> diff * a <= diff
    ensures 0.0 <= a && 0.0 <= b && 0.0 <= diff ==> 0.0 <= diff * a * b
  {
    if 0.0 <= a && 0.0 <= diff {
      ProductNonneg(diff, a);
      if a <= 1.0 {
        ProductAtMost(diff, a);
      }
      if 0.0 <= b {
        ProductNonneg(diff * a, b);
      }
    }
  }

  /** The entry's distance `e` from the level it starts at, as a share `a` of
      the range `diff`, and the target's distance `e * b` from the other level. */
  lemma EntryOffset(diff: real, a: real, b: real, e: real)
    requires e == diff * a
    ensures 0.0 <= a <= 1.0 && 0.0 <= diff ==> 0.0 <= e <= diff
    ensures e * b == diff * a * b
    ensures 0.0 <= a && 0.0 <= b && 0.0 <= diff ==> 0.0 <= e * b
  {
    RangeProducts(diff, a, b);
  }

  /** Sell: the entry lies `a` of the range below the high, and the target
      lies `b` times the entry's distance below the low. */
  function SellLevels(high: real, low: real, a: real, b: real): (l: Levels)
    ensures l.target == low - (high - low) * a * b
    ensures 0.0 <= a <= 1.0 && low <= high ==> low <= l.entry <= high
    ensures 0.0 <= a && 0.0 <= b && low <= high ==> l.target <= low
  {
    var diff := high - low;
    var k := high - diff * a;
    var tp := low - (high - k) * b;
    EntryOffset(diff, a, b, high - k);
    Levels(k, tp)
  }

  /** Buy: the entry lies `a` of the range above the low, and the target lies
      `b` times the entry's distance above the high. */
  function BuyLevels(low: real, high: real, a: real, b: real): (l: Levels)
    ensures l.target == high + (high - low) * a * b
    ensures 0.0 <= a <= 1.0 && low <= high ==> low <= l.entry <= high
    ensures 0.0 <= a && 0.0 <= b && low <= high ==> l.target >= high
  {
    var diff := high - low;
    var k := low + diff * a;
    var tp := high + (k - low) * b;
    EntryOffset(diff, a, b, k - low);
    Levels(k, tp)
  }

  /** Buy mirrors sell about the middle of the range: the two entries, and the
      two targets, are reflections of each other through (high + low) / 2. */
  lemma BuyMirrorsSell(high: real, low: real, a: real, b: real)
    ensures SellLevels(high, low, a, b).entry + BuyLevels(low, high, a, b).entry == high + low
    ensures SellLevels(high, low, a, b).target + BuyLevels(low, high, a, b).target == high + low
  {
  }

  // ---- The "with values" formulas shown next to the result ----

  /** The multipliers written literally into the formula text. */
  const FormulaEntryMult: real := 0.323
  const FormulaTargetMult: real := 0.786

  /** Value of the sell formulas `={high}-(({high}-{low})*0.323)` and
      `={low}-({high}-{k})*0.786`, where `k` is the computed entry. */
  function SellFormulaValues(high: real, low: real, k: real): Levels {
    Levels(high - (high - low) * FormulaEntryMult, low - (high - k) * FormulaTargetMult)
  }

  /** Value of the buy formulas `={low}+(({high}-{low})*0.323)` and
      `={high}-({low}-{k})*0.786`, where `k` is the computed entry. */
  function BuyFormulaValues(low: real, high: real, k: real): Levels {
    Levels(low + (high - low) * FormulaEntryMult, high - (low - k) * FormulaTargetMult)
  }

  /** The sell formulas evaluate to the computed levels only for the default
      multipliers (or a degenerate range or entry). */
  lemma SellFormulasAgree(high: real, low: real, a: real, b: real)
    ensures var l := SellLevels(high, low, a, b);
            var f := SellFormulaValues(high, low, l.entry);
            && (f.entry == l.entry <==> a == FormulaEntryMult || high == low)
            && (f.target == l.target <==> b == FormulaTargetMult || a == 0.0 || high == low)
  {
    var l := SellLevels(high, low, a, b);
    var f := SellFormulaValues(high, low, l.entry);
    assert f.entry - l.entry == (high - low) * (a - FormulaEntryMult);
    ProductZero(high - low, a - FormulaEntryMult);
    assert high - l.entry == (high - low) * a;
    assert f.target - l.target == (high - l.entry) * (b - FormulaTargetMult);
    ProductZero(high - l.entry, b - FormulaTargetMult);
    ProductZero(high - low, a);
  }

  /** The buy formulas evaluate to the computed levels only for the default
      multipliers (or a degenerate range or entry). */
  lemma BuyFormulasAgree(low: real, high: real, a: real, b: real)
    ensures var l := BuyLevels(low, high, a, b);
            var f := BuyFormulaValues(low, high, l.entry);
            && (f.entry == l.entry <==> a == FormulaEntryMult || high == low)
            && (f.target == l.target <==> b == FormulaTargetMult || a == 0.0 || high == low)
  {
    var l := BuyLevels(low, high, a, b);
    var f := BuyFormulaValues(low, high, l.entry);
    assert l.entry - f.entry == (high - low) * (a - FormulaEntryMult);
    ProductZero(high - low, a - FormulaEntryMult);
    assert l.entry - low == (high - low) * a;
    assert f.target - l.target == (l.entry - low) * (FormulaTargetMult - b);
    ProductZero(l.entry - low, FormulaTargetMult - b);
    ProductZero(high - low, a);
  }
}
