# Price-level engine of the Telegram "excel bot", modelled in Dafny

The bot reads a message holding two prices, a high (قمة / high / top / peak / h …)
and a low (قاع / low). It decides whether the trade is a buy or a sell and
replies with an entry ("K", a limit price) and a take-profit level:

- sell: `K = high - (high - low) * A`, `TP = low - (high - K) * B`
- buy:  `K = low + (high - low) * A`,  `TP = high + (K - low) * B`

The first two lines of the reply show the high, the low, K and TP rounded
half-up to `DECIMALS` fractional digits; a negative `DECIMALS` rounds them to
whole numbers. The "with values" formula lines print the high, the low and K
unrounded.
`A_MULT` (default 0.323), `B_MULT` (default 0.786) and `DECIMALS` (default 9)
come from the environment.

The model covers the pure core of `excel_bot.py`. Python's `Decimal` is modelled as
exact `real`.

- `rounding.dfy` (module `Rounding`): `dround`, i.e. `quantize` with `ROUND_HALF_UP`.
  It is characterised independently: the result lies on the grid, within half a unit
  of the input, and takes the candidate farther from zero on a tie. Uniqueness,
  idempotence, monotonicity and symmetry are proved. Powers of ten are applied as
  repeated multiplication by 10, which keeps every proof linear.
- `numerals.dfy` (module `Numerals`): the digit-comma-digit rewrite
  (`re.sub(r'(\d),(\d)', r'\1.\2', t)`) and the positional scan
  `re.findall(r'[-+]?\d+(?:\.\d+)?', t)` over ASCII text, and `Decimal(literal)`.
  `Tokens` is the scan as a recursive function. `FindAll` is the same scan as a loop
  that also returns where each literal starts. Its contract is stated in terms of the
  numeral grammar alone: each literal is the longest numeral at its position, the
  literals follow each other without overlapping, and no numeral starts in the text
  the scan skips. The value of a literal is tied back to its digits.
- `parser.dfy` (module `Parser`): the branch structure of `parse_high_low_and_order`.
  The keyword searches are taken as inputs: the first low keyword, the first high
  keyword, and the two anchored searches. An anchored search returns the leftmost
  numeral on the first line where the keyword follows it, not necessarily the
  numeral just before the keyword.
- `levels.dfy` (module `Levels`): `compute_sell_from_high_low` and
  `compute_buy_from_low_high`. Also the values of the "with values" formula text.
- `handler.dfy` (module `Handler`): the buy/sell choice and the computing part of
  `handle_message`, as a pure function from the parse to the numbers shown.
- `examples.dfy` (module `Examples`): worked cases with the bot's sample prices.
- `wrappers.dfy` (module `Wrappers`): `Option`, standing for Python's `None`.

Some behaviour of the code worth knowing:

- Output precision is the fixed `DECIMALS`, whatever precision the user typed.
- The anchored searches run on the text after the comma rewrite.
- With fewer than two numbers, and without both anchored matches, the parser returns
  the partial result (`None` for at least one level), and the handler rejects it.
- The fallback's last branch, which puts the larger number in high, is unreachable:
  the hint it tests is never `None` there (`Parser.FallbackHint`), and it would assign
  the levels as the numeric hint does anyway (`Parser.MaxMinBranchIsDead`).
- On one line, "1.16439 low 1.16506 high" makes both anchored searches take 1.16439,
  so high and low are equal and K and TP equal them too (`Handler.SharedAnchorCollapses`).

## Model

| member | source | states |
|---|---|---|
| `Rounding.RoundHalfUp` | excel_bot.py:14 | the whole number chosen is within 1/2 of the input, and on an exact tie it is the one farther from zero (ROUND_HALF_UP) |
| `Rounding.DRound` | excel_bot.py:12-14 | `dround` has at most `places` fractional digits (none for a negative `places`), is within half a unit of `x`, and on a tie lies farther from zero than `x` |
| `Rounding.HalfUpRoundingUnique` | excel_bot.py:12-14 | any value meeting those three conditions is the result of `dround`, so they specify it completely |
| `Rounding.DRoundIdempotent` | excel_bot.py:12-14 | rounding an already rounded value returns it unchanged |
| `Rounding.DRoundOnGrid` | excel_bot.py:12-14 | a value that already has at most `places` fractional digits is returned exactly |
| `Rounding.DRoundMonotone` | excel_bot.py:12-14 | rounding never reverses the order of two values |
| `Rounding.DRoundOdd` | excel_bot.py:12-14 | rounding commutes with negation: ties go away from zero on both sides |
| `Rounding.OnGridWiden` | excel_bot.py:13 | a value with d fractional digits also fits every finer quantum `10^-(d+k)` |
| `Numerals.DigitRunIsMaximal` | excel_bot.py:33 | the `\d+` run taken greedily covers only digits and stops before the first non-digit |
| `Numerals.MatchLenIsLongestNumeral` | excel_bot.py:33 | the match at a position is a `[-+]?\d+(?:\.\d+)?` numeral, no longer prefix is one, and there is no match exactly when no prefix is a numeral |
| `Numerals.MatchLen` | excel_bot.py:33 | the anchored match of the numeral pattern at the start of the text, when there is one, is non-empty and fits the text; `Numerals.MatchLenIsLongestNumeral` relates it to the grammar |
| `Numerals.Tokens` | excel_bot.py:33 | `findall` finds at most one literal per character of the text |
| `Numerals.TokensAreNumerals` | excel_bot.py:33 | every literal `findall` returns is a numeral, hence non-empty and starting with a sign or a digit |
| `Numerals.FindAll` | excel_bot.py:33 | the scan loop returns literals with their start positions such that each literal is the text at its position and the longest numeral starting there, the literals are in text order and do not overlap, no numeral starts in any gap between them or after the last, and the literals are those of `Tokens` |
| `Numerals.ScanGrammar` | excel_bot.py:33 | any complete left-to-right scan with the anchored matcher has those grammar properties and yields the literals of `Tokens` |
| `Numerals.SkipFiller` | excel_bot.py:33 | text without digits, signs or dots contributes no literal |
| `Numerals.NumeralThenStop` | excel_bot.py:33 | a numeral followed by the end or by a character that cannot extend it is matched whole |
| `Numerals.NumeralThenFiller` | excel_bot.py:33 | a numeral followed by filler is the next literal, and the scan resumes after the filler |
| `Numerals.TwoNumeralsInFiller` | excel_bot.py:33 | two numerals separated by filler are exactly the two literals found, in text order |
| `Numerals.TrailingNumeral` | excel_bot.py:33 | a numeral followed only by filler is the single literal found |
| `Numerals.NumeralValue` | excel_bot.py:35 | `Decimal(literal)` is at most zero for a literal starting with '-' and at least zero otherwise |
| `Numerals.NumeralParts` | excel_bot.py:35 | a literal without its sign is exactly its whole digits followed, when it has a fraction, by '.' and the fraction digits |
| `Numerals.NumeralValueDigits` | excel_bot.py:35 | the size of `Decimal(literal)` times 10 to the number of fraction digits is the literal's whole and fraction digits read as one whole number |
| `Numerals.DigitsValueAppend` | excel_bot.py:35 | appending digits y to x multiplies the value of x by 10^len(y) and adds the value of y |
| `Numerals.NumeralOnGrid` | excel_bot.py:35 | `Decimal(literal)` has no more fractional digits than the literal shows |
| `Numerals.DRoundKeepsNumeral` | excel_bot.py:109 | a price typed with at most `DECIMALS` fractional digits is shown with its exact value |
| `Numerals.NormalizeCommas` | excel_bot.py:18 | the rewrite keeps the length of the text |
| `Numerals.NormalizeCommasOnlyRewritesDecimalCommas` | excel_bot.py:18 | the rewrite keeps the length and changes only commas that sit between two digits, each into a dot |
| `Numerals.NormalizeCommasCopiesPrefix` | excel_bot.py:18 | comma-free text before a point where no match starts is copied unchanged |
| `Numerals.DecimalCommaRewritten` | excel_bot.py:18 | a digit-comma-digit preceded only by comma-free text becomes digit-dot-digit |
| `Numerals.SurvivingDecimalComma` | excel_bot.py:18 | a comma between two digits stays a comma only when the match two places before took its left digit, that is, the comma two places earlier became a dot |
| `Numerals.OverlappingCommas` | excel_bot.py:18 | matches do not overlap: "1,2,3" becomes "1.2,3" |
| `Numerals.FallbackNumbers` | excel_bot.py:33-35 | there is one fallback number per literal of the rewritten text, in order, and the i-th number is the value of the i-th literal, which is a numeral |
| `Numerals.TwoNumbersFound` | excel_bot.py:18-35 | two numerals in comma-free filler give exactly their two values, in text order |
| `Numerals.NumeralHasNoComma` | excel_bot.py:33 | a literal found by the scan contains no comma |
| `Parser.KeywordHint` | excel_bot.py:20-24 | a hint exists iff both kinds of keyword occur; it is low-first iff the first low keyword starts strictly before the first high keyword |
| `Parser.FallbackHint` | excel_bot.py:36-37 | the fallback always has a hint: the keyword hint if any, else low-first iff the first number is smaller |
| `Parser.AssignFallback` | excel_bot.py:38-43 | low-first takes the first number as low, high-first takes it as high, and the last branch returns the same two numbers with the larger in high |
| `Parser.Decide` | excel_bot.py:22-44 | both anchored matches win unchanged; the result has both levels iff both anchored matches succeeded or there are at least two numbers; otherwise the partial anchored result is returned |
| `Parser.ParseHighLowAndOrder` | excel_bot.py:16-44 | parsing a text succeeds iff both anchored matches succeed or the rewritten text holds at least two literals |
| `Parser.FallbackUsesFirstTwoNumbers` | excel_bot.py:32-41 | the fallback overwrites both levels with the first two numbers, even after one anchored match succeeded, and assigns them by the hint |
| `Parser.UnhintedFallbackOrdersBySize` | excel_bot.py:36-43 | without a keyword hint the fallback yields high >= low, with a low-first hint iff the first number is smaller |
| `Parser.MaxMinBranchIsDead` | excel_bot.py:36-43 | had the max/min branch been reached, it would assign the same high and low as the numeric hint does |
| `Parser.SuccessHasHint` | excel_bot.py:20-44 | when the searches are consistent, every successful parse carries an order hint |
| `Levels.SellLevels` | excel_bot.py:46-50 | sell target is `low - (high-low)*A*B`; with `low <= high` and `0 <= A <= 1` the entry lies in `[low, high]`; with `A, B >= 0` the target is at or below the low |
| `Levels.BuyLevels` | excel_bot.py:52-56 | buy target is `high + (high-low)*A*B`; with `low <= high` and `0 <= A <= 1` the entry lies in `[low, high]`; with `A, B >= 0` the target is at or above the high |
| `Levels.BuyMirrorsSell` | excel_bot.py:46-56 | buy and sell levels mirror through the middle of the range: entries and targets each sum to `high + low` |
| `Levels.SellFormulasAgree` | excel_bot.py:58-63 | the sell "with values" formulas equal the computed levels iff `A = 0.323` (entry) and `B = 0.786` (target), up to a degenerate range or entry |
| `Levels.BuyFormulasAgree` | excel_bot.py:65-70 | the buy "with values" formulas equal the computed levels iff `A = 0.323` (entry) and `B = 0.786` (target), up to a degenerate range or entry |
| `Handler.ChooseMode` | excel_bot.py:91-96 | with a hint, buy iff low-first, whatever the numbers; without one, buy iff low < high, so a tie sells |
| `Handler.HandleMessage` | excel_bot.py:86-110 | the reply is a rejection iff a level is missing; otherwise it uses the chosen mode and shows the high, the low, and the K and TP of that mode's levels, each rounded half-up to the configured digits |
| `Handler.QuoteIsOrdered` | excel_bot.py:98-110 | with sane multipliers and high >= low the shown numbers keep their order after rounding (buy: low <= K <= high <= TP; sell: TP <= low <= K <= high) |
| `Handler.KeywordOrderDecidesMode` | excel_bot.py:91-96 | when both keywords occur the trade buys iff the low keyword comes first, regardless of the numbers |
| `Handler.SmallerFirstBuys` | excel_bot.py:36-41 | two bare numbers buy iff the smaller comes first, and the larger is taken as the high |
| `Handler.SharedAnchorCollapses` | excel_bot.py:26-30 | when both anchored searches take the same numeral, the reply is a quote whose high, low, K and TP are all that numeral rounded |
| `Handler.TwoNumberMessage` | excel_bot.py:32-43 | a message of two numbers in filler, with no keyword found, parses, buys iff the first is smaller, and shows both prices exactly when `DECIMALS` covers their digits |
| `Examples.SellExample` | excel_bot.py:46-50 | high 1.16506, low 1.16439 with the default multipliers sell at K = 1.16484359, TP = 1.16421990174 (shown 1.164219902) |
| `Examples.BuyExample` | excel_bot.py:52-56 | the same prices buy at K = 1.16460641, TP = 1.16523009826 (shown 1.165230098) |
| `Examples.RoundingExamples` | excel_bot.py:12-14 | 2.5 rounds to 3 and -2.5 to -3 (not to even); a negative `places` rounds to a whole number |
| `Examples.ValueExample` | excel_bot.py:35 | the literal "1.16506" has the value 1.16506 |
| `Examples.CommaExample` | excel_bot.py:18 | "1,5" is read as the number 1.5 |

## Left out

- The Telegram transport is not modelled: `start`, `help_cmd`, sending replies, `main` and polling (excel_bot.py:72-89, 114-127). It is asynchronous I/O through a library.
- Reading `A_MULT`, `B_MULT` and `DECIMALS` from the environment (excel_bot.py:8-10) is not modelled. They are the fields of `Handler.Config`, and `Handler.DefaultConfig` holds the defaults.
- The text rendering of numbers is not modelled: `str(...)` in `dround` and the f-strings of the reply and formulas (excel_bot.py:14, 58-70, 107-113). The model works with the numbers shown, not their digits. Zero and tiny values print in scientific notation (`0E-9`), so the text does not always show `DECIMALS` digits.
- Levels.SellLevels: computes with exact reals. It does not model Python's default `Decimal` context, which rounds each product and difference to 28 significant digits.
- Levels.BuyLevels: computes with exact reals, for the same reason as `Levels.SellLevels`.
- Rounding.DRound: computes with exact reals. It does not model the `InvalidOperation` that `quantize` raises when the result needs more than 28 significant digits, so very large inputs get a value here where Python raises an error.
- The keyword searches (excel_bot.py:20-21, 26-27) are inputs of `Parser.Decide`, not computed from the text. Python's `\b` word boundary and the lazy `[^\n\r]*?` search are outside the model. So are `lower()` and the Arabic spelling replacement (excel_bot.py:17), which change only letters.
- Unicode digits are not modelled. The numeric scan recognises ASCII `0`-`9` only, while Python's `\d` also matches other scripts' digits, such as Arabic-Indic ones.
- The symbolic Excel formula strings (`=I-((I-J)*0.323)` and the like) are not modelled. Only the numeric values of the "with values" formulas are.
