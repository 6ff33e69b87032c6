/** The quantity column of a drop (app.py:50-62): a quantity token is stripped,
    a random range `calc(random(N) + M)` is shown as `"M-(N+M)"`, and every other
    token, a plain integer or not, is kept as it is. */
module Quantity {
  import opened Text

  /** The fixed text that opens a random range expression. */
  const CalcOpen: string := "calc(random("

  /** The two groups the range pattern captures, when it matches: the random
      bound `N` and the offset `M`, as digit strings. */
  datatype CalcMatch = NoMatch | Groups(random: string, offset: string)

  /** Both groups of a match are non-empty runs of digits. */
  predicate DigitGroups(m: CalcMatch) {
    m.Groups? ==> |m.random| > 0 && AllDigits(m.random) && |m.offset| > 0 && AllDigits(m.offset)
  }

  /** The text of a range expression: `calc(random(` digits `)` spaces `+`
      spaces digits `)`, followed by anything at all (the pattern is anchored at
      the start only). */
  function CalcText(d1: string, ws1: string, ws2: string, d2: string, rest: string): string {
    CalcOpen + (d1 + (")" + (ws1 + ("+" + (ws2 + (d2 + (")" + rest)))))))
  }

  /** The pieces of `CalcText` that the pattern accepts. */
  predicate CalcParts(d1: string, ws1: string, ws2: string, d2: string) {
    |d1| > 0 && AllDigits(d1) && AllSpace(ws1) && AllSpace(ws2) && |d2| > 0 && AllDigits(d2)
  }

  /** `t` begins with an expression the range pattern accepts. */
  ghost predicate StartsWithCalc(t: string) {
    exists d1, ws1, ws2, d2, rest :: CalcParts(d1, ws1, ws2, d2) && t == CalcText(d1, ws1, ws2, d2, rest)
  }

  /** A hand-written matcher for `calc\(random\((\d+)\)\s*\+\s*(\d+)\)` applied with
      `re.match`, that is, at the start of `t`. Every repetition is greedy and is
      followed by a character it cannot consume, so no backtracking is needed.
      The stages below consume the pattern from left to right. */
  function MatchCalc(t: string): (m: CalcMatch)
    ensures DigitGroups(m)
  {
    if |t| < |CalcOpen| || t[..|CalcOpen|] != CalcOpen then NoMatch
    else MatchRandom(t[|CalcOpen|..])
  }

  /** `(\d+)\)`: the random bound and its closing parenthesis. */
  function MatchRandom(s: string): (m: CalcMatch)
    ensures DigitGroups(m)
  {
    var n := LeadingDigits(s);
    if n == 0 || n == |s| || s[n] != ')' then NoMatch
    else MatchPlus(s[..n], s[n + 1..])
  }

  /** `\s*\+`: the plus sign and the white space before it. */
  function MatchPlus(random: string, s: string): (m: CalcMatch)
    requires |random| > 0 && AllDigits(random)
    ensures DigitGroups(m)
  {
    var w := LeadingSpaces(s);
    if w == |s| || s[w] != '+' then NoMatch
    else MatchOffset(random, s[w + 1..])
  }

  /** `\s*(\d+)\)`: the offset, the white space before it and the final parenthesis. */
  function MatchOffset(random: string, s: string): (m: CalcMatch)
    requires |random| > 0 && AllDigits(random)
    ensures DigitGroups(m)
  {
    var u := s[LeadingSpaces(s)..];
    var n := LeadingDigits(u);
    if n == 0 || n == |u| || u[n] != ')' then NoMatch
    else Groups(random, u[..n])
  }

  /** The matcher accepts every range expression and captures its two digit runs. */
  lemma MatchCalcComplete(d1: string, ws1: string, ws2: string, d2: string, rest: string)
    requires CalcParts(d1, ws1, ws2, d2)
    ensures MatchCalc(CalcText(d1, ws1, ws2, d2, rest)) == Groups(d1, d2)
  {
    var t := CalcText(d1, ws1, ws2, d2, rest);
    var s4 := d2 + (")" + rest);
    var s3 := ws2 + s4;
    var s2 := ws1 + ("+" + s3);
    var s1 := d1 + (")" + s2);
    assert t == CalcOpen + s1;
    assert t[..|CalcOpen|] == CalcOpen && t[|CalcOpen|..] == s1;
    MatchRandomComplete(d1, s2);
    MatchPlusComplete(d1, ws1, s3);
    MatchOffsetComplete(d1, ws2, d2, rest);
  }

  lemma MatchRandomComplete(d: string, s: string)
    requires |d| > 0 && AllDigits(d)
    ensures MatchRandom(d + (")" + s)) == MatchPlus(d, s)
  {
    var u := d + (")" + s);
    LeadingDigitsOf(d, ")" + s);
    assert u[|d|] == ')' && u[|d| + 1..] == s && u[..|d|] == d;
  }

  lemma MatchPlusComplete(random: string, w: string, s: string)
    requires |random| > 0 && AllDigits(random) && AllSpace(w)
    ensures MatchPlus(random, w + ("+" + s)) == MatchOffset(random, s)
  {
    var u := w + ("+" + s);
    LeadingSpacesOf(w, "+" + s);
    assert u[|w|] == '+' && u[|w| + 1..] == s;
  }

  lemma MatchOffsetComplete(random: string, w: string, d: string, rest: string)
    requires |random| > 0 && AllDigits(random) && AllSpace(w) && |d| > 0 && AllDigits(d)
    ensures MatchOffset(random, w + (d + (")" + rest))) == Groups(random, d)
  {
    var s := w + (d + (")" + rest));
    var u := d + (")" + rest);
    LeadingSpacesOf(w, u);
    assert s[|w|..] == u;
    LeadingDigitsOf(d, ")" + rest);
    assert u[|d|] == ')' && u[..|d|] == d;
  }

  /** Whatever the matcher accepts is a range expression, and the groups it
      returns are that expression's two digit runs. */
  lemma MatchCalcSound(t: string) returns (d1: string, ws1: string, ws2: string, d2: string, rest: string)
    requires MatchCalc(t).Groups?
    ensures CalcParts(d1, ws1, ws2, d2) && t == CalcText(d1, ws1, ws2, d2, rest)
    ensures MatchCalc(t) == Groups(d1, d2)
  {
    var s1 := t[|CalcOpen|..];
    assert t == CalcOpen + s1;
    var s2, s3;
    d1, s2 := MatchRandomSound(s1);
    ws1, s3 := MatchPlusSound(d1, s2);
    ws2, d2, rest := MatchOffsetSound(d1, s3);
  }

  lemma MatchRandomSound(s: string) returns (d: string, tail: string)
    requires MatchRandom(s).Groups?
    ensures |d| > 0 && AllDigits(d) && s == d + (")" + tail)
    ensures MatchRandom(s) == MatchPlus(d, tail)
  {
    var n := LeadingDigits(s);
    d, tail := s[..n], s[n + 1..];
    SplitAt(s, n, ')');
  }

  lemma MatchPlusSound(random: string, s: string) returns (w: string, tail: string)
    requires |random| > 0 && AllDigits(random) && MatchPlus(random, s).Groups?
    ensures AllSpace(w) && s == w + ("+" + tail)
    ensures MatchPlus(random, s) == MatchOffset(random, tail)
  {
    var n := LeadingSpaces(s);
    w, tail := s[..n], s[n + 1..];
    SplitAt(s, n, '+');
  }

  lemma MatchOffsetSound(random: string, s: string) returns (w: string, d: string, rest: string)
    requires |random| > 0 && AllDigits(random) && MatchOffset(random, s).Groups?
    ensures AllSpace(w) && |d| > 0 && AllDigits(d) && s == w + (d + (")" + rest))
    ensures MatchOffset(random, s) == Groups(random, d)
  {
    var k := LeadingSpaces(s);
    var u := s[k..];
    var n := LeadingDigits(u);
    w, d, rest := s[..k], u[..n], u[n + 1..];
    SplitAt(u, n, ')');
    assert s == s[..k] + u;
  }

  /** The text a random range is shown as: the offset, a hyphen, and the sum of
      the random bound and the offset, both in decimal. */
  function RangeText(random: nat, offset: nat): string {
    NatToString(offset) + "-" + NatToString(random + offset)
  }

  /** `parse_quantity`: strip the token; a range expression at its start becomes
      `"M-(N+M)"`; anything else is returned stripped (the `int()` test in
      `parse_quantity` returns the same string on both of its branches). */
  function ParseQuantity(raw: string): string {
    var t := Strip(raw);
    match MatchCalc(t)
    case Groups(random, offset) => RangeText(Value(random), Value(offset))
    case NoMatch => t
  }

  /** A token whose stripped text starts with `calc(random(N) + M)` gives the
      range text of `N` and `M`. */
  lemma ParseQuantityOfRange(raw: string, d1: string, ws1: string, ws2: string, d2: string, rest: string)
    requires CalcParts(d1, ws1, ws2, d2) && Strip(raw) == CalcText(d1, ws1, ws2, d2, rest)
    ensures ParseQuantity(raw) == RangeText(Value(d1), Value(d2))
  {
    MatchCalcComplete(d1, ws1, ws2, d2, rest);
  }

  /** The range text reads back as its two ends: the part before the hyphen is
      the offset `M` and the part after it is `N + M`. */
  lemma RangeTextReadsBack(random: nat, offset: nat) returns (low: string, high: string)
    ensures RangeText(random, offset) == low + "-" + high
    ensures |low| > 0 && AllDigits(low) && Value(low) == offset
    ensures |high| > 0 && AllDigits(high) && Value(high) == random + offset
  {
    low, high := NatToString(offset), NatToString(random + offset);
  }

  /** A token whose stripped text does not start with a range expression is
      returned stripped and otherwise unchanged, integer or not. */
  lemma ParseQuantityOfOther(raw: string)
    requires !StartsWithCalc(Strip(raw))
    ensures ParseQuantity(raw) == Strip(raw)
  {
    if MatchCalc(Strip(raw)).Groups? {
      var d1, ws1, ws2, d2, rest := MatchCalcSound(Strip(raw));
      assert false;
    }
  }

  /** Every quantity is shown without surrounding white space. */
  lemma ParseQuantityTrimmed(raw: string)
    ensures Trimmed(ParseQuantity(raw))
  {
    var t := Strip(raw);
    match MatchCalc(t)
    case Groups(g1, g2) =>
      RangeTextTrimmed(Value(g1), Value(g2));
    case NoMatch =>
      StripTrimmed(raw);
  }

  /** A range text begins and ends with a digit. */
  lemma RangeTextTrimmed(random: nat, offset: nat)
    ensures Trimmed(RangeText(random, offset))
  {
    var low, high := NatToString(offset), NatToString(random + offset);
    var q := low + "-" + high;
    DigitIsNotSpace(low[0]);
    DigitIsNotSpace(high[|high| - 1]);
    assert q[0] == low[0] && q[|q| - 1] == high[|high| - 1];
  }

  /** The example of the comment in `parse_quantity` (app.py:57):
      `calc(random(2) + 1)` is shown as `1-3`. */
  lemma ParseQuantityExampleSpaced(t: string)
    requires t == "calc(random(2) + 1)"
    ensures ParseQuantity(t) == "1-3"
  {
    assert CalcParts("2", " ", " ", "1") by { assert AllSpace(" "); }
    assert t == CalcText("2", " ", " ", "1", []);
    StripAround([], t, []);
    assert [] + t + [] == t;
    ParseQuantityOfRange(t, "2", " ", " ", "1", []);
    RangeOfTwo();
  }

  /** The digits `2` and `1` give the range text `1-3`. */
  lemma RangeOfTwo()
    ensures RangeText(Value("2"), Value("1")) == "1-3"
  {
    assert Value("2") == 2 && Value("1") == 1;
  }

  /** A range written without spaces: `calc(random(50)+1)` is shown as `1-51`. */
  lemma ParseQuantityExampleUnspaced(t: string)
    requires t == "calc(random(50)+1)"
    ensures ParseQuantity(t) == "1-51"
  {
    assert t == CalcText("50", [], [], "1", []);
    StripAround([], t, []);
    assert [] + t + [] == t;
    ParseQuantityOfRange(t, "50", [], [], "1", []);
    RangeOfFifty();
  }

  /** The digits `50` and `1` give the range text `1-51`. */
  lemma RangeOfFifty()
    ensures RangeText(Value("50"), Value("1")) == "1-51"
  {
    assert Value("5") == 5;
    assert Value("50") == 50 by { assert "50"[..1] == "5"; }
    assert NatToString(5) == "5";
    assert NatToString(1) == "1";
    assert NatToString(51) == NatToString(5) + [DigitChar(1)];
  }

  /** A plain integer keeps its digits and loses its surrounding white space. */
  lemma ParseQuantityExampleFixed(t: string)
    requires t == " 5\n"
    ensures ParseQuantity(t) == "5"
  {
    StripAround(" ", "5", "\n");
    assert " " + "5" + "\n" == t;
  }
}
