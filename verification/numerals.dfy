/** The numeric side of the parser in excel_bot.py: the rewrite of a comma
    between two digits into a dot, and the scan for numbers matching
    `[-+]?\d+(?:\.\d+)?`, restricted to ASCII digits. */
module Numerals {
  import opened Wrappers
  import opened Rounding

  predicate IsDigit(c: char) {
    '0' <= c <= '9'
  }

  predicate IsSign(c: char) {
    c == '+' || c == '-'
  }

  /** `\d+(?:\.\d+)?`: digits, with at most one '.' that has digits on both sides. */
  predicate IsUnsignedNumeral(s: string) {
    && |s| > 0
    && IsDigit(s[0])
    && IsDigit(s[|s| - 1])
    && (forall i :: 0 <= i < |s| ==> IsDigit(s[i]) || s[i] == '.')
    && (forall i, j :: 0 <= i < j < |s| && s[i] == '.' ==> s[j] != '.')
  }

  /** `[-+]?\d+(?:\.\d+)?` as a whole-string grammar. */
  predicate IsNumeral(s: string) {
    || IsUnsignedNumeral(s)
    || (|s| > 0 && IsSign(s[0]) && IsUnsignedNumeral(s[1..]))
  }

  // ---- Greedy matching at the start of a string ----

  /** Length of the run of digits that starts `s`. */
  function DigitRun(s: string): (n: nat)
    ensures n <= |s|
  {
    if |s| > 0 && IsDigit(s[0]) then 1 + DigitRun(s[1..]) else 0
  }

  /** DigitRun stops at the first character that is not a digit. */
  lemma {:induction false} DigitRunIsMaximal(s: string)
    ensures forall i :: 0 <= i < DigitRun(s) ==> IsDigit(s[i])
    ensures DigitRun(s) < |s| ==> !IsDigit(s[DigitRun(s)])
    decreases |s|
  {
    if |s| > 0 && IsDigit(s[0]) {
      DigitRunIsMaximal(s[1..]);
      forall i | 0 < i < DigitRun(s) ensures IsDigit(s[i]) {
        assert s[1..][i - 1] == s[i];
      }
      if DigitRun(s) < |s| {
        assert s[1..][DigitRun(s) - 1] == s[DigitRun(s)];
      }
    }
  }

  /** 1 when `s` starts with a sign, else 0. */
  function SignLen(s: string): (k: nat)
    ensures k <= |s|
  {
    if |s| > 0 && IsSign(s[0]) then 1 else 0
  }

  /** End of the integer digits after an optional leading sign. */
  function IntEnd(s: string): (e: nat)
    ensures SignLen(s) <= e <= |s|
  {
    SignLen(s) + DigitRun(s[SignLen(s)..])
  }

  /** The integer digits are followed by '.' and at least one more digit. */
  predicate HasFraction(s: string) {
    var e := IntEnd(s);
    e + 1 < |s| && s[e] == '.' && IsDigit(s[e + 1])
  }

  /** Length of the match of `[-+]?\d+(?:\.\d+)?` anchored at the start of
      `s`, as Python's backtracking matcher finds it, or None when nothing
      matches there. The sign is taken only when digits follow it; the
      fraction only when a digit follows the '.'. */
  function MatchLen(s: string): (m: Option<nat>)
    ensures m.Some? ==> 0 < m.value <= |s|
  {
    var e := IntEnd(s);
    if e == SignLen(s) then None
    else if HasFraction(s) then Some(e + 1 + DigitRun(s[e + 1..]))
    else Some(e)
  }

  /** The characters between SignLen(s) and IntEnd(s) are the maximal digit run. */
  lemma IntEndFacts(s: string)
    ensures forall i :: SignLen(s) <= i < IntEnd(s) ==> IsDigit(s[i])
    ensures IntEnd(s) < |s| ==> !IsDigit(s[IntEnd(s)])
  {
    var sign := SignLen(s);
    DigitRunIsMaximal(s[sign..]);
    forall i | sign <= i < IntEnd(s) ensures IsDigit(s[i]) {
      assert s[sign..][i - sign] == s[i];
    }
    if IntEnd(s) < |s| {
      assert s[sign..][IntEnd(s) - sign] == s[IntEnd(s)];
    }
  }

  /** Facts about one position of a numeral, stated for any text so that a
      proof that some text is no numeral can use them without a case split. */
  lemma NumeralBody(t: string, k: int)
    ensures IsNumeral(t) && SignLen(t) <= k < |t| ==>
      && (IsDigit(t[k]) || t[k] == '.')
      && (k == SignLen(t) ==> IsDigit(t[k]))
      && t[|t| - 1] != '.'
      && (t[k] == '.' ==> forall j :: SignLen(t) <= j < |t| && j != k ==> t[j] != '.')
  {
    if IsNumeral(t) && SignLen(t) <= k < |t| && SignLen(t) == 1 {
      assert !IsUnsignedNumeral(t);
      var u := t[1..];
      assert u[k - 1] == t[k];
      assert u[|u| - 1] == t[|t| - 1];
      forall j | 1 <= j < |t| && j != k && t[k] == '.' ensures t[j] != '.' {
        assert u[j - 1] == t[j];
      }
    }
  }

  /** Characters after the first of a numeral are digits or '.'. */
  lemma NumeralTail(t: string, i: int)
    requires IsNumeral(t) && 0 < i < |t|
    ensures IsDigit(t[i]) || t[i] == '.'
  {
    if !IsUnsignedNumeral(t) {
      assert t[1..][i - 1] == t[i];
    }
  }

  /** A character after the first that is neither a digit nor '.' rules out
      a numeral. */
  lemma NotNumeralAt(t: string, i: int)
    requires 0 < i < |t| && !IsDigit(t[i]) && t[i] != '.'
    ensures !IsNumeral(t)
  {
    assert t[1..][i - 1] == t[i];
  }

  /** A sign followed by an unsigned numeral, or an unsigned numeral, is a numeral. */
  lemma SignedNumeral(t: string)
    requires IsUnsignedNumeral(t[SignLen(t)..])
    ensures IsNumeral(t)
  {
    if SignLen(t) == 0 {
      assert t[0..] == t;
    }
  }

  /** Digits, a '.' and digits again form an unsigned numeral. */
  lemma FractionIsUnsigned(u: string, k: int)
    requires 0 < k < |u| - 1 && u[k] == '.'
    requires forall i :: 0 <= i < |u| && i != k ==> IsDigit(u[i])
    ensures IsUnsignedNumeral(u)
  {
  }

  lemma NoMatchHasNoNumeral(s: string)
    requires MatchLen(s).None?
    ensures forall k :: 0 <= k <= |s| ==> !IsNumeral(s[..k])
  {
    IntEndFacts(s);
    forall k | 0 <= k <= |s| ensures !IsNumeral(s[..k]) {
      if k > 0 {
        assert SignLen(s[..k]) == SignLen(s);
        NumeralBody(s[..k], SignLen(s));
      }
    }
  }

  lemma IntegerMatchIsLongest(s: string)
    requires MatchLen(s).Some? && !HasFraction(s)
    ensures IsNumeral(s[..MatchLen(s).value])
    ensures forall k :: MatchLen(s).value < k <= |s| ==> !IsNumeral(s[..k])
  {
    IntEndFacts(s);
    var sign := SignLen(s);
    var e := IntEnd(s);
    var t := s[..e];
    assert SignLen(t) == sign;
    assert IsUnsignedNumeral(t[sign..]) by {
      forall i | 0 <= i < |t[sign..]| ensures IsDigit(t[sign..][i]) {
        assert t[sign..][i] == s[sign + i];
      }
    }
    SignedNumeral(t);
    forall k | e < k <= |s| ensures !IsNumeral(s[..k]) {
      var t' := s[..k];
      assert SignLen(t') == sign;
      NumeralBody(t', e);
      NumeralBody(t', k - 1);
      NumeralBody(t', e + 1);
    }
  }

  /** Where the match has a fraction, it is the integer digits, the '.' at
      IntEnd(s), and the maximal digit run after it. */
  lemma FractionRun(s: string)
    requires MatchLen(s).Some? && HasFraction(s)
    ensures var e, n := IntEnd(s), MatchLen(s).value;
            && SignLen(s) < e && e + 1 < n && s[e] == '.'
            && (forall i :: SignLen(s) <= i < n && i != e ==> IsDigit(s[i]))
            && (n < |s| ==> !IsDigit(s[n]))
  {
    IntEndFacts(s);
    var e := IntEnd(s);
    var fracLen := DigitRun(s[e + 1..]);
    var n := e + 1 + fracLen;
    DigitRunIsMaximal(s[e + 1..]);
    forall i | e + 1 <= i < n ensures IsDigit(s[i]) {
      assert s[e + 1..][i - e - 1] == s[i];
    }
    if n < |s| {
      assert s[e + 1..][fracLen] == s[n];
    }
  }

  lemma FractionMatchIsLongest(s: string)
    requires MatchLen(s).Some? && HasFraction(s)
    ensures IsNumeral(s[..MatchLen(s).value])
    ensures forall k :: MatchLen(s).value < k <= |s| ==> !IsNumeral(s[..k])
  {
    FractionRun(s);
    var sign := SignLen(s);
    var e := IntEnd(s);
    var n := MatchLen(s).value;
    var t := s[..n];
    assert SignLen(t) == sign;
    var u := t[sign..];
    forall i | 0 <= i < |u| && i != e - sign ensures IsDigit(u[i]) {
      assert u[i] == s[sign + i];
    }
    FractionIsUnsigned(u, e - sign);
    SignedNumeral(t);
    forall k | n < k <= |s| ensures !IsNumeral(s[..k]) {
      var t' := s[..k];
      assert SignLen(t') == sign;
      NumeralBody(t', n);
      NumeralBody(t', e);
    }
  }

  /** The greedy match is the longest numeral that starts `s`, and there is no
      match exactly when no prefix of `s` is a numeral. */
  lemma MatchLenIsLongestNumeral(s: string)
    ensures MatchLen(s).Some? ==>
      && IsNumeral(s[..MatchLen(s).value])
      && forall k :: MatchLen(s).value < k <= |s| ==> !IsNumeral(s[..k])
    ensures MatchLen(s).None? ==> forall k :: 0 <= k <= |s| ==> !IsNumeral(s[..k])
  {
    if MatchLen(s).None? {
      NoMatchHasNoNumeral(s);
    } else if HasFraction(s) {
      FractionMatchIsLongest(s);
    } else {
      IntegerMatchIsLongest(s);
    }
  }

  // ---- re.findall ----

  /** The literals `re.findall(r'[-+]?\d+(?:\.\d+)?', s)` returns: scanning
      left to right, each match is taken whole and the scan resumes after it;
      where nothing matches the scan moves on by one character. */
  function Tokens(s: string): (toks: seq<string>)
    ensures |toks| <= |s|
    decreases |s|
  {
    if |s| == 0 then []
    else
      match MatchLen(s)
      case Some(n) => [s[..n]] + Tokens(s[n..])
      case None => Tokens(s[1..])
  }

  /** Every literal found is a numeral; in particular it is non-empty and starts
      with a sign or a digit. */
  lemma {:induction false} TokensAreNumerals(s: string)
    ensures forall t :: t in Tokens(s) ==> IsNumeral(t)
    ensures forall t :: t in Tokens(s) ==> |t| > 0 && (IsSign(t[0]) || IsDigit(t[0]))
    decreases |s|
  {
    if |s| > 0 {
      match MatchLen(s)
      case Some(n) =>
        MatchLenIsLongestNumeral(s);
        TokensAreNumerals(s[n..]);
      case None =>
        TokensAreNumerals(s[1..]);
    }
  }

  /** `s[p..p + n]` is a numeral and no longer text starting at `p` is one. */
  predicate LongestNumeralAt(s: string, p: nat, n: nat)
    requires p + n <= |s|
  {
    IsNumeral(s[p..p + n]) && forall k :: p + n < k <= |s| ==> !IsNumeral(s[p..k])
  }

  /** No numeral starts at position `p` of `s`. */
  predicate NoNumeralAt(s: string, p: nat)
    requires p <= |s|
  {
    forall k :: p <= k <= |s| ==> !IsNumeral(s[p..k])
  }

  /** The greedy match at position `p`, stated on `s` itself. */
  lemma MatchAt(s: string, p: nat)
    requires p <= |s|
    ensures MatchLen(s[p..]).Some? ==>
      p + MatchLen(s[p..]).value <= |s| && LongestNumeralAt(s, p, MatchLen(s[p..]).value)
    ensures MatchLen(s[p..]).None? ==> NoNumeralAt(s, p)
  {
    var t := s[p..];
    MatchLenIsLongestNumeral(t);
    forall k | p <= k <= |s| ensures t[..k - p] == s[p..k] {
    }
  }

  /** Nothing `m` matches starts at a position in [a, b). */
  predicate NoMatchIn(m: string -> Option<nat>, s: string, a: nat, b: nat)
    requires b <= |s|
  {
    forall q {:trigger m(s[q..])} :: a <= q < b ==> m(s[q..]).None?
  }

  /** `toks`, found at `starts`, is what a left-to-right scan of `s[..pos]`
      with the anchored matcher `m` finds: the last literal is the match at
      its position (never empty), the literals before it are the scan up to
      that position, and nothing matches after it. FindAll scans with `m == MatchLen`; the
      step lemmas need nothing else about `m`. */
  predicate ScanOf(m: string -> Option<nat>, s: string, toks: seq<string>, starts: seq<nat>, pos: nat)
    decreases |toks|
  {
    && pos <= |s|
    && |starts| == |toks|
    && if |toks| == 0 then NoMatchIn(m, s, 0, pos)
       else
         var p, t := starts[|toks| - 1], toks[|toks| - 1];
         && p < p + |t| <= pos
         && t == s[p..p + |t|]
         && m(s[p..]) == Some(|t|)
         && ScanOf(m, s, toks[..|toks| - 1], starts[..|toks| - 1], p)
         && NoMatchIn(m, s, p + |t|, pos)
  }

  /** Taking the match at `pos` extends the scan past it. */
  lemma ScanTake(m: string -> Option<nat>, s: string, toks: seq<string>, starts: seq<nat>, pos: nat, n: nat)
    requires ScanOf(m, s, toks, starts, pos) && 0 < n && pos + n <= |s| && m(s[pos..]) == Some(n)
    ensures ScanOf(m, s, toks + [s[pos..pos + n]], starts + [pos], pos + n)
  {
    assert (toks + [s[pos..pos + n]])[..|toks|] == toks;
    assert (starts + [pos])[..|toks|] == starts;
  }

  /** Moving past a position where nothing matches extends the scan by one. */
  lemma ScanSkip(m: string -> Option<nat>, s: string, toks: seq<string>, starts: seq<nat>, pos: nat)
    requires ScanOf(m, s, toks, starts, pos) && pos < |s| && m(s[pos..]).None?
    ensures ScanOf(m, s, toks, starts, pos + 1)
  {
  }

  /** Where the gap before the `i`-th literal begins: the end of the literal
      before it, or the start of the text. `i == |toks|` gives the end of the
      last literal. */
  function GapStart(starts: seq<nat>, toks: seq<string>, i: nat): nat
    requires |starts| == |toks| && i <= |toks|
  {
    if i == 0 then 0 else starts[i - 1] + |toks[i - 1]|
  }

  /** Dropping the last literal keeps the gaps before the others. */
  lemma GapStartPrefix(starts: seq<nat>, toks: seq<string>, i: nat)
    requires |starts| == |toks| && 0 < |toks| && i < |toks|
    ensures GapStart(starts[..|toks| - 1], toks[..|toks| - 1], i) == GapStart(starts, toks, i)
  {
  }

  /** Each literal of a scan, for any matcher, is the text at its start and
      the match of `m` there. */
  lemma {:induction false} ScanLiterals(m: string -> Option<nat>, s: string, toks: seq<string>, starts: seq<nat>, pos: nat)
    requires ScanOf(m, s, toks, starts, pos)
    ensures |starts| == |toks|
    ensures forall i :: 0 <= i < |toks| ==>
      && starts[i] + |toks[i]| <= |s| && toks[i] == s[starts[i]..starts[i] + |toks[i]|]
      && m(s[starts[i]..]) == Some(|toks[i]|)
    decreases |toks|
  {
    if |toks| > 0 {
      var k := |toks| - 1;
      ScanLiterals(m, s, toks[..k], starts[..k], starts[k]);
      forall i | 0 <= i < k
        ensures && starts[i] + |toks[i]| <= |s| && toks[i] == s[starts[i]..starts[i] + |toks[i]|]
                && m(s[starts[i]..]) == Some(|toks[i]|)
      {
        assert toks[..k][i] == toks[i] && starts[..k][i] == starts[i];
      }
    }
  }

  /** The literals of a scan follow each other in text order and end by `pos`. */
  lemma {:induction false} ScanOrder(m: string -> Option<nat>, s: string, toks: seq<string>, starts: seq<nat>, pos: nat)
    requires ScanOf(m, s, toks, starts, pos)
    ensures forall i {:trigger GapStart(starts, toks, i)} :: 0 <= i < |toks| ==> GapStart(starts, toks, i) <= starts[i]
    ensures GapStart(starts, toks, |toks|) <= pos
    decreases |toks|
  {
    if |toks| > 0 {
      var k := |toks| - 1;
      ScanOrder(m, s, toks[..k], starts[..k], starts[k]);
      forall i | 0 <= i < |toks| ensures GapStart(starts, toks, i) <= starts[i] {
        GapStartPrefix(starts, toks, i);
        if i < k {
          assert starts[..k][i] == starts[i];
        }
      }
    }
  }

  /** Nothing `m` matches in the gaps a scan skips: before each literal and
      after the last one. */
  lemma {:induction false} ScanGaps(m: string -> Option<nat>, s: string, toks: seq<string>, starts: seq<nat>, pos: nat)
    requires ScanOf(m, s, toks, starts, pos)
    ensures forall i, q {:trigger GapStart(starts, toks, i), m(s[q..])} ::
      0 <= i < |toks| && GapStart(starts, toks, i) <= q < starts[i] <= |s| ==> m(s[q..]).None?
    ensures NoMatchIn(m, s, GapStart(starts, toks, |toks|), pos)
    decreases |toks|
  {
    if |toks| > 0 {
      var k := |toks| - 1;
      ScanGaps(m, s, toks[..k], starts[..k], starts[k]);
      forall i, q | 0 <= i < |toks| && GapStart(starts, toks, i) <= q < starts[i] <= |s|
        ensures m(s[q..]).None?
      {
        GapStartPrefix(starts, toks, i);
        if i < k {
          assert starts[..k][i] == starts[i];
        }
      }
    }
  }

  /** `toks`, found at `starts`, are the numerals of `s` in terms of the
      grammar alone: each literal is the text at its position and the longest
      numeral starting there, the literals follow each other in text order
      without overlapping, and no numeral starts anywhere between them or
      after the last one. */
  predicate NumeralsOf(s: string, toks: seq<string>, starts: seq<nat>) {
    && |starts| == |toks|
    && (forall i :: 0 <= i < |toks| ==>
          starts[i] + |toks[i]| <= |s| && toks[i] == s[starts[i]..starts[i] + |toks[i]|])
    && (forall i :: 0 <= i < |toks| ==> LongestNumeralAt(s, starts[i], |toks[i]|))
    && (forall i {:trigger GapStart(starts, toks, i)} :: 0 <= i < |toks| ==> GapStart(starts, toks, i) <= starts[i])
    && (forall i, q {:trigger GapStart(starts, toks, i), NoNumeralAt(s, q)} ::
          0 <= i < |toks| && GapStart(starts, toks, i) <= q < starts[i] ==> NoNumeralAt(s, q))
    && (forall q :: GapStart(starts, toks, |toks|) <= q < |s| ==> NoNumeralAt(s, q))
  }

  /** A complete scan with MatchLen, read in terms of the grammar: by
      MatchAt, each literal is the longest numeral at its position, and no
      numeral starts where nothing matches. What it finds is what Tokens
      finds. */
  lemma ScanGrammar(s: string, toks: seq<string>, starts: seq<nat>)
    requires ScanOf(MatchLen, s, toks, starts, |s|)
    ensures NumeralsOf(s, toks, starts)
    ensures toks == Tokens(s)
  {
    ScanIsTokens(s, toks, starts);
    var m: string -> Option<nat> := MatchLen;
    ScanLiterals(m, s, toks, starts, |s|);
    ScanOrder(m, s, toks, starts, |s|);
    ScanGaps(m, s, toks, starts, |s|);
    forall i | 0 <= i < |toks| ensures LongestNumeralAt(s, starts[i], |toks[i]|) {
      assert m(s[starts[i]..]) == Some(|toks[i]|);
      MatchAt(s, starts[i]);
    }
    forall i, q | 0 <= i < |toks| && GapStart(starts, toks, i) <= q < starts[i]
      ensures NoNumeralAt(s, q)
    {
      assert m(s[q..]).None?;
      MatchAt(s, q);
    }
    forall q | GapStart(starts, toks, |toks|) <= q < |s| ensures NoNumeralAt(s, q) {
      assert m(s[q..]).None?;
      MatchAt(s, q);
    }
  }

  /** The left-to-right scan with an anchored matcher `m`: where `m` matches
      a non-empty prefix the scan takes it whole and resumes after it,
      elsewhere it moves on by one character. A match longer than the text is
      treated as no match; MatchLen never gives one. */
  function Scan(m: string -> Option<nat>, s: string): seq<string>
    decreases |s|
  {
    if |s| == 0 then []
    else
      match m(s)
      case Some(n) => if 0 < n <= |s| then [s[..n]] + Scan(m, s[n..]) else Scan(m, s[1..])
      case None => Scan(m, s[1..])
  }

  /** Tokens is the scan with MatchLen. */
  lemma {:induction false} TokensIsScan(s: string)
    ensures Tokens(s) == Scan(MatchLen, s)
    decreases |s|
  {
    if |s| > 0 {
      match MatchLen(s)
      case Some(n) => TokensIsScan(s[n..]);
      case None => TokensIsScan(s[1..]);
    }
  }

  /** The scan of `s[q..]` where `m` matches `n` characters at `q`. */
  lemma ScanTakeAt(m: string -> Option<nat>, s: string, q: nat, n: nat)
    requires 0 < n && q + n <= |s| && m(s[q..]) == Some(n)
    ensures Scan(m, s[q..]) == [s[q..q + n]] + Scan(m, s[q + n..])
  {
    assert s[q..][..n] == s[q..q + n] && s[q..][n..] == s[q + n..];
  }

  /** The scan of `s[q..]` where `m` matches nothing at `q`. */
  lemma ScanSkipAt(m: string -> Option<nat>, s: string, q: nat)
    requires q < |s| && m(s[q..]).None?
    ensures Scan(m, s[q..]) == Scan(m, s[q + 1..])
  {
    assert s[q..][1..] == s[q + 1..];
  }

  /** A stretch where nothing matches adds no literal. */
  lemma {:induction false} GapScan(m: string -> Option<nat>, s: string, a: nat, b: nat)
    requires a <= b <= |s| && NoMatchIn(m, s, a, b)
    ensures Scan(m, s[a..]) == Scan(m, s[b..])
    decreases b - a
  {
    if a < b {
      ScanSkipAt(m, s, a);
      GapScan(m, s, a + 1, b);
    }
  }

  /** A scan up to `pos` is the beginning of the whole scan: the rest is what
      the text after `pos` yields. */
  lemma {:induction false} ScanPrefix(m: string -> Option<nat>, s: string, toks: seq<string>, starts: seq<nat>, pos: nat)
    requires ScanOf(m, s, toks, starts, pos)
    ensures Scan(m, s[0..]) == toks + Scan(m, s[pos..])
    decreases |toks|
  {
    if |toks| == 0 {
      GapScan(m, s, 0, pos);
    } else {
      var k := |toks| - 1;
      var p, t := starts[k], toks[k];
      var rest := Scan(m, s[pos..]);
      ScanPrefix(m, s, toks[..k], starts[..k], p);
      ScanTakeAt(m, s, p, |t|);
      GapScan(m, s, p + |t|, pos);
      assert Scan(m, s[p..]) == [t] + rest;
      assert toks[..k] + ([t] + rest) == (toks[..k] + [t]) + rest;
      assert toks == toks[..k] + [t];
    }
  }

  /** A complete scan with MatchLen finds what Tokens finds. */
  lemma ScanIsTokens(s: string, toks: seq<string>, starts: seq<nat>)
    requires ScanOf(MatchLen, s, toks, starts, |s|)
    ensures toks == Tokens(s)
  {
    ScanPrefix(MatchLen, s, toks, starts, |s|);
    TokensIsScan(s);
    assert s[0..] == s && s[|s|..] == [];
    assert toks + [] == toks;
  }

  /** `m` matches only non-empty prefixes of its argument, as MatchLen does. */
  ghost predicate IsMatcher(m: string -> Option<nat>) {
    forall x :: m(x).Some? ==> 0 < m(x).value <= |x|
  }

  /** One step of the scan with the matcher `m` at `pos`: take the literal
      that matches there, or move on by one character. */
  method FindNext(m: string -> Option<nat>, s: string, toks: seq<string>, starts: seq<nat>, pos: nat)
    returns (toks': seq<string>, starts': seq<nat>, pos': nat)
    requires IsMatcher(m) && pos < |s| && ScanOf(m, s, toks, starts, pos)
    ensures pos < pos' <= |s|
    ensures ScanOf(m, s, toks', starts', pos')
  {
    match m(s[pos..])
    case Some(n) =>
      ScanTake(m, s, toks, starts, pos, n);
      toks', starts', pos' := toks + [s[pos..pos + n]], starts + [pos], pos + n;
    case None =>
      ScanSkip(m, s, toks, starts, pos);
      toks', starts', pos' := toks, starts, pos + 1;
  }

  /** The scan of `re.findall` as a loop, returning each literal with its
      position. The contract says what the scan finds in terms of the grammar
      alone (NumeralsOf), and that the recursive Tokens gives the same
      literals. */
  method FindAll(s: string) returns (toks: seq<string>, starts: seq<nat>)
    ensures NumeralsOf(s, toks, starts)
    ensures toks == Tokens(s)
  {
    assert IsMatcher(MatchLen);
    toks, starts := [], [];
    var pos: nat := 0;
    while pos < |s|
      invariant ScanOf(MatchLen, s, toks, starts, pos)
      decreases |s| - pos
    {
      toks, starts, pos := FindNext(MatchLen, s, toks, starts, pos);
    }
    ScanGrammar(s, toks, starts);
  }

  /** No digit, sign or '.' occurs in `w`: text the scan passes over. */
  predicate IsFiller(w: string) {
    forall i :: 0 <= i < |w| ==> !IsDigit(w[i]) && !IsSign(w[i]) && w[i] != '.'
  }

  /** Filler before the text contributes no literal. */
  lemma {:induction false} SkipFiller(w: string, rest: string)
    requires IsFiller(w)
    ensures Tokens(w + rest) == Tokens(rest)
    decreases |w|
  {
    if |w| > 0 {
      var s := w + rest;
      assert s[0] == w[0];
      assert s[0..] == s;
      assert MatchLen(s).None?;
      assert s[1..] == w[1..] + rest;
      SkipFiller(w[1..], rest);
    } else {
      assert w + rest == rest;
    }
  }

  /** A numeral followed by the end of the text, or by a character that can
      neither extend it nor start its fraction, is found whole. */
  lemma NumeralThenStop(a: string, rest: string)
    requires IsNumeral(a)
    requires |rest| > 0 ==> !IsDigit(rest[0]) && rest[0] != '.'
    ensures MatchLen(a + rest) == Some(|a|)
  {
    var s := a + rest;
    assert s[..|a|] == a;
    MatchLenIsLongestNumeral(s);
    forall k | |a| < k <= |s| ensures !IsNumeral(s[..k]) {
      assert s[..k][|a|] == rest[0];
      NotNumeralAt(s[..k], |a|);
    }
  }

  /** A numeral and then filler: the numeral is the next literal found, and
      the scan resumes after the filler. */
  lemma NumeralThenFiller(a: string, w: string, rest: string)
    requires IsNumeral(a) && IsFiller(w) && |w| > 0
    ensures Tokens(a + (w + rest)) == [a] + Tokens(rest)
  {
    var t := a + (w + rest);
    NumeralThenStop(a, w + rest);
    assert t[..|a|] == a && t[|a|..] == w + rest;
    assert Tokens(t) == [a] + Tokens(w + rest);
    SkipFiller(w, rest);
  }

  /** Two numerals separated by filler, in text that is otherwise filler, are
      exactly the two literals found, in their order in the text. */
  lemma TwoNumeralsInFiller(u: string, a: string, w: string, b: string, v: string)
    requires IsFiller(u) && IsFiller(w) && IsFiller(v) && |w| > 0
    requires IsNumeral(a) && IsNumeral(b)
    ensures Tokens(u + (a + (w + (b + v)))) == [a, b]
  {
    SkipFiller(u, a + (w + (b + v)));
    NumeralThenFiller(a, w, b + v);
    TrailingNumeral(b, v);
    assert [a] + [b] == [a, b];
  }

  /** Two numerals in comma-free filler are the two numbers read, in order. */
  lemma TwoNumbersFound(u: string, a: string, w: string, b: string, v: string)
    requires IsFiller(u) && IsFiller(w) && IsFiller(v) && |w| > 0
    requires NoComma(u) && NoComma(w) && NoComma(v)
    requires IsNumeral(a) && IsNumeral(b)
    ensures FallbackNumbers(u + (a + (w + (b + v)))) == [NumeralValue(a), NumeralValue(b)]
  {
    var text := u + (a + (w + (b + v)));
    NoCommaText(u, a, w, b, v);
    NormalizeCommasCopiesPrefix(text, []);
    assert text + [] == text;
    TwoNumeralsInFiller(u, a, w, b, v);
  }

  /** A numeral followed only by filler is the one literal found. */
  lemma TrailingNumeral(b: string, v: string)
    requires IsNumeral(b) && IsFiller(v)
    ensures Tokens(b + v) == [b]
  {
    if |v| > 0 {
      assert b + v == b + (v + []);
      NumeralThenFiller(b, v, []);
    } else {
      assert b + v == b;
      NumeralThenStop(b, []);
      assert b + [] == b;
      assert b[..|b|] == b && b[|b|..] == [];
    }
  }

  // ---- Values of numerals: Decimal(literal) ----

  predicate AllDigits(s: string) {
    forall i :: 0 <= i < |s| ==> IsDigit(s[i])
  }

  function DigitValue(c: char): nat
    requires IsDigit(c)
  {
    (c as int) - ('0' as int)
  }

  /** Value of a string of decimal digits, most significant first. */
  function DigitsValue(s: string): nat
    requires AllDigits(s)
  {
    if |s| == 0 then 0 else 10 * DigitsValue(s[..|s| - 1]) + DigitValue(s[|s| - 1])
  }

  /** Index of the first '.' in `s`, or |s| when there is none. */
  function DotIndex(s: string): (k: nat)
    ensures k <= |s|
  {
    if |s| == 0 || s[0] == '.' then 0 else 1 + DotIndex(s[1..])
  }

  lemma {:induction false} DotIndexIsFirstDot(s: string)
    ensures forall i :: 0 <= i < DotIndex(s) ==> s[i] != '.'
    ensures DotIndex(s) < |s| ==> s[DotIndex(s)] == '.'
    decreases |s|
  {
    if |s| > 0 && s[0] != '.' {
      DotIndexIsFirstDot(s[1..]);
      forall i | 0 < i < DotIndex(s) ensures s[i] != '.' {
        assert s[1..][i - 1] == s[i];
      }
      if DotIndex(s) < |s| {
        assert s[1..][DotIndex(s) - 1] == s[DotIndex(s)];
      }
    }
  }

  /** The digits of a numeral before and after its '.' (the fraction is empty
      when there is no '.'). */
  function WholeDigits(s: string): (w: string)
    requires IsNumeral(s)
    ensures AllDigits(w) && |w| > 0
  {
    var u := s[SignLen(s)..];
    UnsignedPart(s);
    DotIndexIsFirstDot(u);
    var k := DotIndex(u);
    assert k > 0;
    assert forall i :: 0 <= i < k ==> u[..k][i] == u[i];
    u[..k]
  }

  function FractionDigitsOf(s: string): (f: string)
    requires IsNumeral(s)
    ensures AllDigits(f)
  {
    var u := s[SignLen(s)..];
    UnsignedPart(s);
    DotIndexIsFirstDot(u);
    var k := DotIndex(u);
    if k < |u| then
      u[k + 1..]
    else []
  }

  /** Without its sign a numeral is an unsigned numeral. */
  lemma UnsignedPart(s: string)
    requires IsNumeral(s)
    ensures IsUnsignedNumeral(s[SignLen(s)..])
  {
    if SignLen(s) == 0 {
      assert s[0..] == s;
    }
  }

  /** `Decimal(literal)` for a literal the scan found. Its sign is the
      literal's; NumeralValueDigits gives its size. */
  function NumeralValue(s: string): (v: real)
    requires IsNumeral(s)
    ensures s[0] == '-' ==> v <= 0.0
    ensures s[0] != '-' ==> v >= 0.0
  {
    var f := FractionDigitsOf(s);
    ShrinkNonneg(DigitsValue(f) as real, |f|);
    var mag := DigitsValue(WholeDigits(s)) as real + Shrink(DigitsValue(f) as real, |f|);
    if s[0] == '-' then -mag else mag
  }

  lemma {:induction false} ShrinkNonneg(x: real, d: nat)
    requires x >= 0.0
    ensures Shrink(x, d) >= 0.0
    decreases d
  {
    if d > 0 {
      ShrinkNonneg(x, d - 1);
    }
  }

  /** A numeral is its optional sign, its whole digits and, when it has a
      fraction, a '.' followed by the fraction digits. */
  lemma NumeralParts(s: string)
    requires IsNumeral(s)
    ensures var f := FractionDigitsOf(s);
            s[SignLen(s)..] == WholeDigits(s) + (if |f| > 0 then "." + f else "")
  {
    var u := s[SignLen(s)..];
    UnsignedPart(s);
    UnsignedParts(u);
    var k := DotIndex(u);
    assert WholeDigits(s) == u[..k];
    if k < |u| {
      assert FractionDigitsOf(s) == u[k + 1..];
    } else {
      assert FractionDigitsOf(s) == [];
    }
  }

  /** An unsigned numeral is its digits up to the first '.', and then, when
      there is a '.', the '.' and at least one more digit. */
  lemma UnsignedParts(u: string)
    requires IsUnsignedNumeral(u)
    ensures DotIndex(u) < |u| ==> DotIndex(u) + 1 < |u| && u == u[..DotIndex(u)] + ("." + u[DotIndex(u) + 1..])
    ensures DotIndex(u) == |u| ==> u == u[..DotIndex(u)]
  {
    DotIndexIsFirstDot(u);
    var k := DotIndex(u);
    if k < |u| {
      assert IsDigit(u[|u| - 1]);
      SplitAtDot(u, k);
    }
  }

  /** Text with a '.' at `k` is what comes before it, the '.', and what
      comes after it. */
  lemma SplitAtDot(u: string, k: nat)
    requires k < |u| && u[k] == '.'
    ensures u == u[..k] + ("." + u[k + 1..])
  {
    assert u[k..] == "." + u[k + 1..];
    assert u == u[..k] + u[k..];
  }

  /** Appending digits `y` to `x` scales x's value by 10^|y| and adds y's. */
  lemma {:induction false} DigitsValueAppend(x: string, y: string)
    requires AllDigits(x) && AllDigits(y)
    ensures AllDigits(x + y)
    ensures DigitsValue(x + y) as real == Scale(DigitsValue(x) as real, |y|) + DigitsValue(y) as real
    decreases |y|
  {
    if |y| == 0 {
      assert x + y == x;
    } else {
      var y' := y[..|y| - 1];
      assert (x + y)[..|x + y| - 1] == x + y';
      assert (x + y)[|x + y| - 1] == y[|y| - 1];
      DigitsValueAppend(x, y');
    }
  }

  /** The size of `Decimal(literal)`, scaled by 10 to the number of fraction
      digits, is the literal's digits read as one whole number: "-12.05"
      has size 1205 / 100. */
  lemma NumeralValueDigits(s: string)
    requires IsNumeral(s)
    ensures AllDigits(WholeDigits(s) + FractionDigitsOf(s))
    ensures Scale(Abs(NumeralValue(s)), |FractionDigitsOf(s)|)
         == DigitsValue(WholeDigits(s) + FractionDigitsOf(s)) as real
  {
    var w := WholeDigits(s);
    var f := FractionDigitsOf(s);
    var d := |f|;
    var fv := DigitsValue(f) as real;
    ShrinkNonneg(fv, d);
    var mag := DigitsValue(w) as real + Shrink(fv, d);
    assert Abs(NumeralValue(s)) == mag;
    ScaleLinear(DigitsValue(w) as real, Shrink(fv, d), d);
    ScaleShrink(fv, d);
    DigitsValueAppend(w, f);
  }

  /** A whole number has no fractional digits, at any precision. */
  lemma WholeOnGrid(n: int, d: nat)
    ensures OnGrid(n as real, d)
  {
    assert (n as real).Floor == n;
    assert OnGrid(n as real, 0);
    OnGridWiden(n as real, 0, d);
  }

  /** The value of a literal has no more fractional digits than the literal
      shows, so rounding it to at least that many digits returns it unchanged. */
  lemma NumeralOnGrid(s: string)
    requires IsNumeral(s)
    ensures OnGrid(NumeralValue(s), |FractionDigitsOf(s)|)
  {
    var f := FractionDigitsOf(s);
    var d := |f|;
    var w := DigitsValue(WholeDigits(s));
    var fv := DigitsValue(f);
    var mag := w as real + Shrink(fv as real, d);
    WholeOnGrid(w, d);
    ScaleShrink(fv as real, d);
    ScaleLinear(w as real, Shrink(fv as real, d), d);
    var sw := Scale(w as real, d).Floor;
    assert Scale(mag, d) == (sw + fv) as real;
    assert OnGrid(mag, d);
    ScaleLinear(mag, 0.0, d);
    assert Scale(-mag, d) == (-(sw + fv)) as real;
  }

  /** A price typed with no more fractional digits than `places` keeps its
      exact value through `dround`. */
  lemma DRoundKeepsNumeral(s: string, places: int)
    requires IsNumeral(s) && |FractionDigitsOf(s)| <= FractionDigits(places)
    ensures DRound(NumeralValue(s), places) == NumeralValue(s)
  {
    var d := |FractionDigitsOf(s)|;
    NumeralOnGrid(s);
    OnGridWiden(NumeralValue(s), d, FractionDigits(places) - d);
    DRoundOnGrid(NumeralValue(s), places);
  }

  // ---- The comma rewrite: re.sub(r'(\d),(\d)', r'\1.\2', t) ----

  /** Each comma between two digits becomes a dot. Matches are found left to
      right and do not overlap, so in "1,2,3" only the first comma changes. */
  function NormalizeCommas(s: string): (r: string)
    ensures |r| == |s|
    decreases |s|
  {
    if |s| >= 3 && IsDigit(s[0]) && s[1] == ',' && IsDigit(s[2]) then
      [s[0], '.', s[2]] + NormalizeCommas(s[3..])
    else if |s| == 0 then []
    else [s[0]] + NormalizeCommas(s[1..])
  }

  /** Position `i` of the rewrite `r` of `s` either keeps its character or is
      a comma between two digits turned into a dot. */
  predicate KeptOrDecimalComma(s: string, r: string, i: int)
    requires 0 <= i < |s| == |r|
  {
    || r[i] == s[i]
    || (&& s[i] == ',' && r[i] == '.'
        && 0 < i < |s| - 1 && IsDigit(s[i - 1]) && IsDigit(s[i + 1]))
  }

  /** The rewrite changes nothing but commas that sit between two digits, each
      into a dot. */
  lemma {:induction false} NormalizeCommasOnlyRewritesDecimalCommas(s: string)
    ensures forall i :: 0 <= i < |s| ==> KeptOrDecimalComma(s, NormalizeCommas(s), i)
    decreases |s|
  {
    var r := NormalizeCommas(s);
    if |s| >= 3 && IsDigit(s[0]) && s[1] == ',' && IsDigit(s[2]) {
      var s' := s[3..];
      NormalizeCommasOnlyRewritesDecimalCommas(s');
      forall i | 0 <= i < |s| ensures KeptOrDecimalComma(s, r, i) {
        if i >= 3 {
          assert KeptOrDecimalComma(s', NormalizeCommas(s'), i - 3);
          assert r[i] == NormalizeCommas(s')[i - 3] && s[i] == s'[i - 3];
          if i >= 4 {
            assert s[i - 1] == s'[i - 4];
          }
          if i < |s| - 1 {
            assert s[i + 1] == s'[i - 2];
          }
        }
      }
    } else if |s| > 0 {
      var s' := s[1..];
      NormalizeCommasOnlyRewritesDecimalCommas(s');
      forall i | 0 <= i < |s| ensures KeptOrDecimalComma(s, r, i) {
        if i >= 1 {
          assert KeptOrDecimalComma(s', NormalizeCommas(s'), i - 1);
          assert r[i] == NormalizeCommas(s')[i - 1] && s[i] == s'[i - 1];
          if i >= 2 {
            assert s[i - 1] == s'[i - 2];
          }
          if i < |s| - 1 {
            assert s[i + 1] == s'[i];
          }
        }
      }
    }
  }

  predicate NoComma(s: string) {
    forall i :: 0 <= i < |s| ==> s[i] != ','
  }

  /** Where the second character is no comma, the first is copied. */
  lemma NormalizeCommasKeeps(s: string)
    requires |s| > 0 && (|s| >= 2 ==> s[1] != ',')
    ensures NormalizeCommas(s) == [s[0]] + NormalizeCommas(s[1..])
  {
  }

  /** Text without a comma before a point where no match can start is copied. */
  lemma {:induction false} NormalizeCommasCopiesPrefix(u: string, rest: string)
    requires NoComma(u)
    requires |rest| > 0 ==> rest[0] != ','
    ensures NormalizeCommas(u + rest) == u + NormalizeCommas(rest)
    decreases |u|
  {
    if |u| > 0 {
      var s := u + rest;
      assert |s| >= 2 ==> s[1] != ',' by {
        if |u| > 1 {
          assert s[1] == u[1];
        } else if |s| >= 2 {
          assert s[1] == rest[0];
        }
      }
      NormalizeCommasKeeps(s);
      assert s[1..] == u[1..] + rest;
      NormalizeCommasCopiesPrefix(u[1..], rest);
      assert u == [u[0]] + u[1..];
    } else {
      assert u + rest == rest;
    }
  }

  /** A decimal comma preceded only by comma-free text is rewritten. */
  lemma DecimalCommaRewritten(u: string, d1: char, d2: char, v: string)
    requires NoComma(u) && IsDigit(d1) && IsDigit(d2)
    ensures NormalizeCommas(u + [d1, ',', d2] + v) == u + [d1, '.', d2] + NormalizeCommas(v)
  {
    var m := [d1, ',', d2] + v;
    assert u + [d1, ',', d2] + v == u + m;
    NormalizeCommasCopiesPrefix(u, m);
    assert m[3..] == v;
  }

  /** A comma between two digits survives the rewrite only when the match
      before it took its left digit: that match's comma, two places earlier,
      became a dot. */
  lemma {:induction false} SurvivingDecimalComma(s: string, i: int)
    requires 0 < i < |s| - 1 && s[i] == ',' && IsDigit(s[i - 1]) && IsDigit(s[i + 1])
    requires NormalizeCommas(s)[i] == ','
    ensures i >= 2 && s[i - 2] == ',' && NormalizeCommas(s)[i - 2] == '.'
    decreases |s|
  {
    var r := NormalizeCommas(s);
    if |s| >= 3 && IsDigit(s[0]) && s[1] == ',' && IsDigit(s[2]) {
      var s' := s[3..];
      assert r == [s[0], '.', s[2]] + NormalizeCommas(s');
      if i > 3 {
        assert s'[i - 3] == s[i] && s'[i - 4] == s[i - 1] && s'[i - 2] == s[i + 1];
        SurvivingDecimalComma(s', i - 3);
        assert r[i - 2] == NormalizeCommas(s')[i - 5];
      }
    } else {
      var s' := s[1..];
      assert r == [s[0]] + NormalizeCommas(s');
      assert s'[i - 1] == s[i] && s'[i] == s[i + 1];
      if i > 1 {
        assert s'[i - 2] == s[i - 1];
      }
      SurvivingDecimalComma(s', i - 1);
      assert r[i - 2] == NormalizeCommas(s')[i - 3];
    }
  }

  /** Matches do not overlap: of two commas sharing a digit only the first is rewritten. */
  lemma OverlappingCommas()
    ensures NormalizeCommas("1,2,3") == "1.2,3"
  {
    assert "1,2,3"[3..] == ",3";
    assert ",3"[1..] == "3";
  }

  /** The numbers of the positional fallback: the values of the literals
      `re.findall` finds in the text after the comma rewrite. */
  function FallbackNumbers(t: string): (nums: seq<real>)
    ensures |nums| == |Tokens(NormalizeCommas(t))|
    ensures forall i :: 0 <= i < |nums| ==>
      IsNumeral(Tokens(NormalizeCommas(t))[i]) && nums[i] == NumeralValue(Tokens(NormalizeCommas(t))[i])
  {
    var toks := Tokens(NormalizeCommas(t));
    TokensAreNumerals(NormalizeCommas(t));
    seq(|toks|, i requires 0 <= i < |toks| => NumeralValue(toks[i]))
  }

  /** Comma-free filler around two numerals gives comma-free text. */
  lemma NoCommaText(u: string, a: string, w: string, b: string, v: string)
    requires NoComma(u) && NoComma(w) && NoComma(v)
    requires IsNumeral(a) && IsNumeral(b)
    ensures NoComma(u + (a + (w + (b + v))))
  {
    NumeralHasNoComma(a);
    NumeralHasNoComma(b);
  }

  /** A literal found by the scan contains no comma. */
  lemma NumeralHasNoComma(a: string)
    requires IsNumeral(a)
    ensures NoComma(a)
  {
    forall i | 0 <= i < |a| ensures a[i] != ',' {
      if i > 0 {
        NumeralTail(a, i);
      }
    }
  }
}
