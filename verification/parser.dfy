/** The decision logic of `parse_high_low_and_order` in excel_bot.py.
    The keyword searches are inputs: `re.search` for the first low and the
    first high keyword, and the anchored searches, which return the leftmost
    numeral whose line has the keyword somewhere after it. The positional
    fallback uses the literals of Numerals.Tokens. */
module Parser {
  import opened Wrappers
  import Numerals

  /** Which of the two levels the text mentions first. */
  datatype OrderHint = LowFirst | HighFirst

  /** What the keyword searches found in the normalised text. */
  datatype KeywordSearches = KeywordSearches(
    lowPos: Option<nat>,      // start of the first low keyword
    highPos: Option<nat>,     // start of the first high keyword
    highMatch: Option<real>,  // the leftmost numeral followed on its line by a high keyword
    lowMatch: Option<real>)   // the leftmost numeral followed on its line by a low keyword

  /** An anchored match contains its keyword, so the plain keyword search
      finds a keyword whenever the anchored one matches. */
  predicate Consistent(kw: KeywordSearches) {
    && (kw.highMatch.Some? ==> kw.highPos.Some?)
    && (kw.lowMatch.Some? ==> kw.lowPos.Some?)
  }

  /** The triple `(high, low, order_hint)` the parser returns. */
  datatype Parsed = Parsed(high: Option<real>, low: Option<real>, hint: Option<OrderHint>)

  /** Both levels were found. */
  predicate Succeeded(p: Parsed) {
    p.high.Some? && p.low.Some?
  }

  /** The order hint from keyword positions: set only when both kinds of
      keyword occur, low-first exactly when the low keyword starts earlier. */
  function KeywordHint(lowPos: Option<nat>, highPos: Option<nat>): (h: Option<OrderHint>)
    ensures h.Some? <==> lowPos.Some? && highPos.Some?
    ensures h == Some(LowFirst) <==> lowPos.Some? && highPos.Some? && lowPos.value < highPos.value
    ensures h == Some(HighFirst) <==> lowPos.Some? && highPos.Some? && highPos.value <= lowPos.value
  {
    if lowPos.Some? && highPos.Some? then
      Some(if lowPos.value < highPos.value then LowFirst else HighFirst)
    else None
  }

  /** The hint the fallback works with: the keyword hint when there is one,
      otherwise the order of the first two numbers. */
  function FallbackHint(keywordHint: Option<OrderHint>, first: real, second: real): (h: Option<OrderHint>)
    ensures h.Some?
    ensures keywordHint.Some? ==> h == keywordHint
    ensures keywordHint.None? ==> (h == Some(LowFirst) <==> first < second)
  {
    if keywordHint.None? then Some(if first < second then LowFirst else HighFirst)
    else keywordHint
  }

  /** The fallback's assignment of the first two numbers to (high, low),
      including its last branch, which takes the larger as high. */
  function AssignFallback(hint: Option<OrderHint>, first: real, second: real): (hl: (real, real))
    ensures hint == Some(LowFirst) ==> hl == (second, first)
    ensures hint == Some(HighFirst) ==> hl == (first, second)
    ensures hint.None? ==> hl.0 >= hl.1 && multiset{hl.0, hl.1} == multiset{first, second}
  {
    match hint
    case Some(LowFirst) => (second, first)
    case Some(HighFirst) => (first, second)
    case None => (if first >= second then first else second, if first >= second then second else first)
  }

  /** `parse_high_low_and_order` given its searches and the fallback numbers. */
  function Decide(kw: KeywordSearches, nums: seq<real>): (p: Parsed)
    ensures kw.highMatch.Some? && kw.lowMatch.Some? ==>
      p == Parsed(kw.highMatch, kw.lowMatch, KeywordHint(kw.lowPos, kw.highPos))
    ensures Succeeded(p) <==> (kw.highMatch.Some? && kw.lowMatch.Some?) || |nums| >= 2
    ensures !Succeeded(p) ==> p == Parsed(kw.highMatch, kw.lowMatch, KeywordHint(kw.lowPos, kw.highPos))
  {
    var hint := KeywordHint(kw.lowPos, kw.highPos);
    if kw.highMatch.Some? && kw.lowMatch.Some? then
      Parsed(kw.highMatch, kw.lowMatch, hint)
    else if |nums| >= 2 then
      var hint' := FallbackHint(hint, nums[0], nums[1]);
      var (high, low) := AssignFallback(hint', nums[0], nums[1]);
      Parsed(Some(high), Some(low), hint')
    else
      Parsed(kw.highMatch, kw.lowMatch, hint)
  }

  /** The whole parser on a text: the numbers of the fallback are the literals
      found after the comma rewrite. */
  function ParseHighLowAndOrder(text: string, kw: KeywordSearches): (p: Parsed)
    ensures Succeeded(p) <==>
      (kw.highMatch.Some? && kw.lowMatch.Some?) || |Numerals.Tokens(Numerals.NormalizeCommas(text))| >= 2
  {
    Decide(kw, Numerals.FallbackNumbers(text))
  }

  /** The fallback overwrites both levels with the first two numbers, even
      when one anchored match succeeded, and always leaves a hint. */
  lemma FallbackUsesFirstTwoNumbers(kw: KeywordSearches, nums: seq<real>)
    requires !(kw.highMatch.Some? && kw.lowMatch.Some?) && |nums| >= 2
    ensures var p := Decide(kw, nums);
            && Succeeded(p) && p.hint.Some?
            && multiset{p.high.value, p.low.value} == multiset{nums[0], nums[1]}
            && (p.hint == Some(LowFirst) ==> p.low.value == nums[0] && p.high.value == nums[1])
            && (p.hint == Some(HighFirst) ==> p.high.value == nums[0] && p.low.value == nums[1])
  {
  }

  /** Without a keyword hint the fallback orders the levels by size: the high
      is never below the low. */
  lemma {:induction false} UnhintedFallbackOrdersBySize(kw: KeywordSearches, nums: seq<real>)
    requires !(kw.highMatch.Some? && kw.lowMatch.Some?) && |nums| >= 2
    requires KeywordHint(kw.lowPos, kw.highPos).None?
    ensures Decide(kw, nums).high.value >= Decide(kw, nums).low.value
    ensures Decide(kw, nums).hint == Some(LowFirst) <==> nums[0] < nums[1]
  {
    var h := FallbackHint(None, nums[0], nums[1]);
    assert h == Some(if nums[0] < nums[1] then LowFirst else HighFirst);
  }

  /** The max/min branch of the fallback is dead code: the hint it gets is
      never None (FallbackHint's contract), and had it been reached it would
      have given the same levels as the numeric hint does. */
  lemma MaxMinBranchIsDead(first: real, second: real)
    ensures AssignFallback(FallbackHint(None, first, second), first, second)
         == AssignFallback(None, first, second)
  {
  }

  /** For consistent searches a successful parse always carries a hint. */
  lemma {:induction false} SuccessHasHint(kw: KeywordSearches, nums: seq<real>)
    requires Consistent(kw)
    requires Succeeded(Decide(kw, nums))
    ensures Decide(kw, nums).hint.Some?
  {
    if kw.highMatch.Some? && kw.lowMatch.Some? {
      assert KeywordHint(kw.lowPos, kw.highPos).Some?;
    } else {
      FallbackUsesFirstTwoNumbers(kw, nums);
    }
  }
}
