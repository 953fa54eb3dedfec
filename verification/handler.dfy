/** The computing part of `handle_message` in excel_bot.py, lifted into a
    pure function: reject an incomplete parse, choose buy or sell, compute
    the levels and round every number the reply shows. */
module Handler {
  import opened Wrappers
  import opened Rounding
  import opened Levels
  import opened Parser
  import Numerals

  datatype Mode = Buy | Sell

  /** The values `A_MULT`, `B_MULT` and `DECIMALS` read from the environment. */
  datatype Config = Config(a: real, b: real, places: int)

  /** The defaults used when the environment sets nothing. */
  const DefaultConfig: Config := Config(0.323, 0.786, 9)

  /** The multipliers for which the levels stay in their intended places. */
  predicate SaneMultipliers(cfg: Config) {
    0.0 <= cfg.a <= 1.0 && 0.0 <= cfg.b
  }

  /** The reply: a refusal, or the mode and the rounded numbers shown. */
  datatype Reply =
    | Rejected
    | Quote(mode: Mode, high: real, low: real, entry: real, target: real)

  /** Buy or sell: the hint decides when there is one; otherwise buy exactly
      when the low is strictly below the high, so equal levels sell. */
  function ChooseMode(hint: Option<OrderHint>, high: real, low: real): (m: Mode)
    ensures hint.Some? ==> (m == Buy <==> hint == Some(LowFirst))
    ensures hint.None? ==> (m == Buy <==> low < high)
  {
    match hint
    case Some(LowFirst) => Buy
    case Some(HighFirst) => Sell
    case None => if low < high then Buy else Sell
  }

  /** `handle_message` from the parse to the numbers of the reply. */
  function HandleMessage(p: Parsed, cfg: Config): (r: Reply)
    ensures r.Rejected? <==> !Succeeded(p)
    ensures r.Quote? ==> r.mode == ChooseMode(p.hint, p.high.value, p.low.value)
    ensures r.Quote? ==> IsHalfUpRounding(p.high.value, FractionDigits(cfg.places), r.high)
    ensures r.Quote? ==> IsHalfUpRounding(p.low.value, FractionDigits(cfg.places), r.low)
    ensures r.Quote? ==>
      var l := if r.mode == Sell then SellLevels(p.high.value, p.low.value, cfg.a, cfg.b)
               else BuyLevels(p.low.value, p.high.value, cfg.a, cfg.b);
      && IsHalfUpRounding(l.entry, FractionDigits(cfg.places), r.entry)
      && IsHalfUpRounding(l.target, FractionDigits(cfg.places), r.target)
  {
    if p.high.None? || p.low.None? then Rejected
    else
      var high := p.high.value;
      var low := p.low.value;
      var mode := ChooseMode(p.hint, high, low);
      var l := if mode == Sell then SellLevels(high, low, cfg.a, cfg.b) else BuyLevels(low, high, cfg.a, cfg.b);
      var d := (v: real) => DRound(v, cfg.places);
      Quote(mode, d(high), d(low), d(l.entry), d(l.target))
  }

  /** With sane multipliers and high >= low, the numbers shown keep the order
      the formulas promise: buy shows low <= entry <= high <= target, sell
      shows target <= low <= entry <= high. */
  lemma {:induction false} QuoteIsOrdered(p: Parsed, cfg: Config)
    requires Succeeded(p) && p.low.value <= p.high.value && SaneMultipliers(cfg)
    ensures var r := HandleMessage(p, cfg);
            r.mode == Buy ==> r.low <= r.entry <= r.high <= r.target
    ensures var r := HandleMessage(p, cfg);
            r.mode == Sell ==> r.target <= r.low <= r.entry <= r.high
  {
    var high, low := p.high.value, p.low.value;
    var r := HandleMessage(p, cfg);
    var l := if r.mode == Sell then SellLevels(high, low, cfg.a, cfg.b) else BuyLevels(low, high, cfg.a, cfg.b);
    if r.mode == Buy {
      DRoundMonotone(low, l.entry, cfg.places);
      DRoundMonotone(l.entry, high, cfg.places);
      DRoundMonotone(high, l.target, cfg.places);
    } else {
      DRoundMonotone(l.target, low, cfg.places);
      DRoundMonotone(low, l.entry, cfg.places);
      DRoundMonotone(l.entry, high, cfg.places);
    }
  }

  /** Parsing and then choosing the mode: the keyword order decides when both
      kinds of keyword occur, whatever the sizes of the numbers. */
  lemma {:induction false} KeywordOrderDecidesMode(kw: KeywordSearches, nums: seq<real>, cfg: Config)
    requires kw.lowPos.Some? && kw.highPos.Some?
    requires Succeeded(Decide(kw, nums))
    ensures HandleMessage(Decide(kw, nums), cfg).mode == Buy <==> kw.lowPos.value < kw.highPos.value
  {
    var p := Decide(kw, nums);
    if !(kw.highMatch.Some? && kw.lowMatch.Some?) {
      FallbackUsesFirstTwoNumbers(kw, nums);
    }
    assert p.hint == KeywordHint(kw.lowPos, kw.highPos);
  }

  /** Without keywords, two bare numbers buy exactly when the smaller comes
      first, and the larger is always taken as the high. */
  lemma {:induction false} SmallerFirstBuys(kw: KeywordSearches, nums: seq<real>, cfg: Config)
    requires kw == KeywordSearches(None, None, None, None) && |nums| >= 2
    ensures var r := HandleMessage(Decide(kw, nums), cfg);
            && (r.mode == Buy <==> nums[0] < nums[1])
            && Decide(kw, nums).high.value >= Decide(kw, nums).low.value
  {
    UnhintedFallbackOrdersBySize(kw, nums);
  }

  /** Both anchored searches can take the same numeral: in the one-line
      message "1.16439 low 1.16506 high" both keywords follow 1.16439, the
      leftmost numeral of the line. The high and the low are then equal, and
      the quote shows one price four times, whichever way it trades. */
  lemma SharedAnchorCollapses(kw: KeywordSearches, nums: seq<real>, cfg: Config)
    requires kw.highMatch.Some? && kw.highMatch == kw.lowMatch
    ensures var r := HandleMessage(Decide(kw, nums), cfg);
            && r.Quote?
            && r.high == r.low == r.entry == r.target == DRound(kw.highMatch.value, cfg.places)
  {
    var x := kw.highMatch.value;
    assert SellLevels(x, x, cfg.a, cfg.b) == Levels(x, x);
    assert BuyLevels(x, x, cfg.a, cfg.b) == Levels(x, x);
  }

  /** A message of two bare numbers separated by filler, in which no keyword
      search succeeds: both numbers are found, the trade buys exactly when the
      first is smaller, and each price is shown exactly as typed when it has
      no more fractional digits than `places` allows. */
  lemma {:induction false} TwoNumberMessage(u: string, a: string, w: string, b: string, v: string, cfg: Config)
    requires Numerals.IsFiller(u) && Numerals.IsFiller(w) && Numerals.IsFiller(v) && |w| > 0
    requires Numerals.NoComma(u) && Numerals.NoComma(w) && Numerals.NoComma(v)
    requires Numerals.IsNumeral(a) && Numerals.IsNumeral(b)
    ensures var p := ParseHighLowAndOrder(u + (a + (w + (b + v))), KeywordSearches(None, None, None, None));
            && Succeeded(p)
            && (HandleMessage(p, cfg).mode == Buy <==> Numerals.NumeralValue(a) < Numerals.NumeralValue(b))
    ensures var r := HandleMessage(ParseHighLowAndOrder(u + (a + (w + (b + v))), KeywordSearches(None, None, None, None)), cfg);
            |Numerals.FractionDigitsOf(a)| <= FractionDigits(cfg.places)
            && |Numerals.FractionDigitsOf(b)| <= FractionDigits(cfg.places)
            ==> multiset{r.high, r.low} == multiset{Numerals.NumeralValue(a), Numerals.NumeralValue(b)}
  {
    var text := u + (a + (w + (b + v)));
    Numerals.TwoNumbersFound(u, a, w, b, v);
    var nums := Numerals.FallbackNumbers(text);
    SmallerFirstBuys(KeywordSearches(None, None, None, None), nums, cfg);
    FallbackUsesFirstTwoNumbers(KeywordSearches(None, None, None, None), nums);
    if |Numerals.FractionDigitsOf(a)| <= FractionDigits(cfg.places)
       && |Numerals.FractionDigitsOf(b)| <= FractionDigits(cfg.places) {
      Numerals.DRoundKeepsNumeral(a, cfg.places);
      Numerals.DRoundKeepsNumeral(b, cfg.places);
    }
  }
}
