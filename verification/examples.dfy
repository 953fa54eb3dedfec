/** Worked cases with the default multipliers and the prices used in the
    bot's help text. */
module Examples {
  import opened Rounding
  import opened Levels
  import Numerals

  /** Sell from high 1.16506 and low 1.16439. */
  lemma SellExample()
    ensures SellLevels(1.16506, 1.16439, 0.323, 0.786) == Levels(1.16484359, 1.16421990174)
    ensures DRound(1.16421990174, 9) == 1.164219902
  {
  }

  /** Buy from low 1.16439 and high 1.16506. */
  lemma BuyExample()
    ensures BuyLevels(1.16439, 1.16506, 0.323, 0.786) == Levels(1.16460641, 1.16523009826)
    ensures DRound(1.16523009826, 9) == 1.165230098
  {
  }

  /** Ties round away from zero, not to even; a negative `places` rounds to a
      whole number. */
  lemma RoundingExamples()
    ensures DRound(2.5, 0) == 3.0
    ensures DRound(-2.5, 0) == -3.0
    ensures DRound(0.125, 2) == 0.13
    ensures DRound(1234.5, -2) == 1235.0
  {
  }

  /** The literal "1.16506" has the value 1.16506. */
  lemma ValueExample()
    ensures Numerals.IsNumeral("1.16506")
    ensures Numerals.NumeralValue("1.16506") == 1.16506
  {
    var s := "1.16506";
    assert Numerals.SignLen(s) == 0;
    assert s[0..] == s;
    assert Numerals.DotIndex(s) == 1;
    assert Numerals.WholeDigits(s) == "1";
    assert Numerals.FractionDigitsOf(s) == "16506";
    FractionDigitsExample();
  }

  /** The fraction digits "16506" are worth 0.16506. */
  lemma FractionDigitsExample()
    ensures Numerals.DigitsValue("16506") == 16506
    ensures Shrink(16506.0, 5) == 0.16506
  {
    assert "16506"[..4] == "1650" && "1650"[..3] == "165" && "165"[..2] == "16" && "16"[..1] == "1";
    assert Numerals.DigitsValue("1") == 1;
    assert Numerals.DigitsValue("16") == 16;
    assert Numerals.DigitsValue("165") == 165;
    assert Numerals.DigitsValue("1650") == 1650;
  }

  /** A decimal comma is read as a decimal point. */
  lemma CommaExample()
    ensures Numerals.FallbackNumbers("1,5") == [1.5]
  {
    var s := "1.5";
    assert Numerals.NormalizeCommas("1,5") == s;
    assert Numerals.IsNumeral(s) && s + "" == s;
    Numerals.NumeralThenStop(s, "");
    assert s[..3] == s && s[3..] == "";
    assert Numerals.Tokens(s) == [s];
    assert s[0..] == s;
    assert Numerals.DotIndex(s) == 1;
    assert Numerals.WholeDigits(s) == "1";
    assert Numerals.FractionDigitsOf(s) == "5";
    assert Numerals.NumeralValue(s) == 1.5;
  }
}
