/**
  * The oxidation reading of a tea detail page (`parseOxidationPercent` in
  * src/components/detail/OxidationMeter.tsx): the first place in the text where the pattern
  * `(\d+)\s*[-–]\s*(\d+)|(\d+)\s*%` matches gives the percentage (the midpoint of a range,
  * or the number before a percent sign); text without such a place falls back to keywords.
  *
  * The regular expression has no anchors and no look-behind, so whether it matches at a
  * position depends only on the text from there on: the model matches at the start of a
  * suffix, and the search tries the suffixes from the longest down. Because a midpoint may
  * be a half, results are counted in half percents.
  */
module Oxidation {
  import opened Text
  import opened Collections

  /** `[-–]`: a hyphen-minus or an en dash. */
  predicate IsDash(c: char) {
    c == '-' || c == '\U{2013}'
  }

  /** The length of the run of digits at the start of `s`. */
  function DigitSpan(s: string): (n: nat)
    ensures n <= |s|
    ensures forall k :: 0 <= k < n ==> IsDigit(s[k])
    ensures n == |s| || !IsDigit(s[n])
  {
    if s != [] && IsDigit(s[0]) then 1 + DigitSpan(s[1..]) else 0
  }

  /** The length of the run of white space at the start of `s`. */
  function SpaceSpan(s: string): (n: nat)
    ensures n <= |s|
    ensures n == |s| || !IsSpace(s[n])
  {
    if s != [] && IsSpace(s[0]) then 1 + SpaceSpan(s[1..]) else 0
  }

  /** Digits followed by something else: the span is the digits. */
  lemma {:induction false} DigitSpanOf(a: string, b: string)
    requires forall k :: 0 <= k < |a| ==> IsDigit(a[k])
    requires b == [] || !IsDigit(b[0])
    ensures DigitSpan(a + b) == |a|
  {
    if a != [] {
      assert (a + b)[1..] == a[1..] + b;
      DigitSpanOf(a[1..], b);
    }
  }

  /** White space followed by something else: the span is the white space. */
  lemma {:induction false} SpaceSpanOf(a: string, b: string)
    requires forall k :: 0 <= k < |a| ==> IsSpace(a[k])
    requires b == [] || !IsSpace(b[0])
    ensures SpaceSpan(a + b) == |a|
  {
    if a != [] {
      assert (a + b)[1..] == a[1..] + b;
      SpaceSpanOf(a[1..], b);
    }
  }

  function DigitValue(c: char): nat
    requires IsDigit(c)
  {
    c as int - '0' as int
  }

  /** `parseInt` of a string of decimal digits. */
  function DecimalValue(ds: string): nat
    requires forall k :: 0 <= k < |ds| ==> IsDigit(ds[k])
    decreases |ds|
  {
    if ds == [] then 0 else DecimalValue(ds[..|ds| - 1]) * 10 + DigitValue(ds[|ds| - 1])
  }

  /** What the pattern captures: both numbers of a range, or the number before a percent sign. */
  datatype Match = Range(low: nat, high: nat) | Percent(value: nat)

  /**
    * The pattern at the start of `s`: the range alternative first, then the percent one.
    * Each `\d+` and `\s*` takes the whole run, since giving back a character never helps: a
    * digit or a space is neither a dash nor a percent sign.
    */
  function MatchAt(s: string): Option<Match> {
    var d1 := DigitSpan(s);
    if d1 == 0 then None else AfterFirst(DecimalValue(s[..d1]), s[d1..])
  }

  /** The rest of the pattern once the first number has been read: `\s*` and then the dash or the percent sign. */
  function AfterFirst(first: nat, t: string): Option<Match> {
    var op := t[SpaceSpan(t)..];
    if op != [] && IsDash(op[0]) then SecondNumber(first, op[1..])
    else if op != [] && op[0] == '%' then Some(Percent(first))
    else None
  }

  /** The end of the range alternative, after the dash: `\s*(\d+)`. */
  function SecondNumber(first: nat, t: string): Option<Match> {
    var second := t[SpaceSpan(t)..];
    var d2 := DigitSpan(second);
    if d2 > 0 then Some(Range(first, DecimalValue(second[..d2]))) else None
  }

  /** `level.match(...)`: the match at the leftmost position where there is one. */
  function FirstMatch(s: string): Option<Match>
    decreases |s|
  {
    if s == [] then None
    else if MatchAt(s).Some? then MatchAt(s)
    else FirstMatch(s[1..])
  }

  /** The keyword fallback on the lower-cased text, in half percents. */
  function KeywordHalves(lower: string): nat {
    if Contains(lower, "minimal") || Contains(lower, "none") then 10
    else if Contains(lower, "light") || Contains(lower, "partial") then 60
    else if Contains(lower, "full") || Contains(lower, "complete") then 200
    else 100
  }

  /** `parseOxidationPercent(level)` times two: a range gives the sum of its ends, a percentage twice its value. */
  function OxidationHalves(level: string): (h: nat)
    ensures FirstMatch(level).None? ==> h == KeywordHalves(Lower(level))
  {
    match FirstMatch(level)
    case Some(Range(a, b)) => a + b
    case Some(Percent(n)) => 2 * n
    case None => KeywordHalves(Lower(level))
  }

  // ---- What the parser promises ----

  /**
    * The match found is the one at the leftmost position that has one, and there is none
    * exactly when no position has one.
    */
  lemma {:induction false} FirstMatchIsFirstSome(s: string)
    ensures FirstMatch(s) == FirstSome(s, MatchAt)
    decreases |s|
  {
    if s != [] {
      FirstMatchIsFirstSome(s[1..]);
    }
  }

  lemma FirstMatchLeftmost(s: string)
    ensures FirstMatch(s).None? <==> forall i :: 0 <= i < |s| ==> MatchAt(s[i..]).None?
    ensures FirstMatch(s).Some? ==>
      exists i :: 0 <= i < |s| && MatchAt(s[i..]) == FirstMatch(s) && forall j :: 0 <= j < i ==> MatchAt(s[j..]).None?
  {
    FirstMatchIsFirstSome(s);
    FirstSomeLeftmost(s, MatchAt);
  }

  /** No match starts at a character that is not a digit. */
  predicate HasNoDigit(s: string) {
    forall k :: 0 <= k < |s| ==> !IsDigit(s[k])
  }

  lemma NoMatchAtNonDigit(s: string)
    requires s != [] && !IsDigit(s[0])
    ensures MatchAt(s).None?
  {
  }

  /** A search that starts at a character other than a digit moves on to the next one. */
  lemma FirstMatchStep(t: string)
    requires t != [] && !IsDigit(t[0])
    ensures FirstMatch(t) == FirstMatch(t[1..])
  {
    NoMatchAtNonDigit(t);
  }

  /** Text before the first digit never matters to the search. */
  lemma {:induction false} FirstMatchSkips(pre: string, s: string)
    requires HasNoDigit(pre)
    ensures FirstMatch(pre + s) == FirstMatch(s)
    decreases |pre|
  {
    if pre != [] {
      FirstMatchSkips(pre[1..], s);
      assert (pre + s)[1..] == pre[1..] + s;
      FirstMatchStep(pre + s);
    } else {
      assert pre + s == s;
    }
  }

  /** Text without a digit is read by its keywords alone. */
  lemma NoDigitsKeywords(level: string)
    requires HasNoDigit(level)
    ensures OxidationHalves(level) == KeywordHalves(Lower(level))
  {
    FirstMatchSkips(level, []);
    assert level + [] == level;
  }

  /** The decimal digits of `n`, without leading zeros. */
  function ShowNat(n: nat): (r: string)
    ensures |r| >= 1
    ensures forall k :: 0 <= k < |r| ==> IsDigit(r[k])
    ensures DecimalValue(r) == n
  {
    var d := ((n % 10) + '0' as int) as char;
    if n < 10 then
      assert DecimalValue([d]) == DecimalValue([]) * 10 + n;
      [d]
    else
      var r := ShowNat(n / 10) + [d];
      assert r[..|r| - 1] == ShowNat(n / 10);
      r
  }

  predicate AllSpace(s: string) {
    forall k :: 0 <= k < |s| ==> IsSpace(s[k])
  }

  /** A number at the start is read whole, and the pattern goes on after it. */
  lemma NumberAt(digits: string, tail: string)
    requires digits != [] && forall k :: 0 <= k < |digits| ==> IsDigit(digits[k])
    requires tail == [] || !IsDigit(tail[0])
    ensures MatchAt(digits + tail) == AfterFirst(DecimalValue(digits), tail)
  {
    DigitSpanOf(digits, tail);
    var s := digits + tail;
    assert s[..|digits|] == digits && s[|digits|..] == tail;
  }

  /** White space before the dash or the percent sign is skipped. */
  lemma SpaceBeforeOperator(first: nat, gap: string, op: string)
    requires AllSpace(gap) && op != [] && !IsSpace(op[0])
    ensures AfterFirst(first, gap + op) == AfterFirst(first, op)
  {
    SpaceSpanOf(gap, op);
    SpaceSpanOf([], op);
    assert (gap + op)[|gap|..] == op && op[0..] == op;
  }

  /** White space after the dash is skipped, and the second number is read whole. */
  lemma SecondNumberOf(first: nat, gap: string, b: nat, rest: string)
    requires AllSpace(gap)
    requires rest == [] || !IsDigit(rest[0])
    ensures SecondNumber(first, gap + (ShowNat(b) + rest)) == Some(Range(first, b))
  {
    var second := ShowNat(b);
    var r := second + rest;
    SpaceSpanOf(gap, r);
    assert (gap + r)[|gap|..] == r;
    DigitSpanOf(second, rest);
    assert r[..|second|] == second;
  }

  /** A text that starts with a percentage reads as that percentage, whatever follows. */
  lemma PercentAtStart(n: nat, gap: string, rest: string)
    requires AllSpace(gap)
    ensures MatchAt(ShowNat(n) + (gap + ("%" + rest))) == Some(Percent(n))
  {
    NumberAt(ShowNat(n), gap + ("%" + rest));
    SpaceBeforeOperator(n, gap, "%" + rest);
  }

  /** A text that starts with a range reads as that range, unless a digit follows its second number directly. */
  lemma RangeAtStart(a: nat, gap1: string, dash: char, gap2: string, b: nat, rest: string)
    requires AllSpace(gap1) && IsDash(dash) && AllSpace(gap2)
    requires rest == [] || !IsDigit(rest[0])
    ensures MatchAt(ShowNat(a) + (gap1 + ([dash] + (gap2 + (ShowNat(b) + rest))))) == Some(Range(a, b))
  {
    var op := [dash] + (gap2 + (ShowNat(b) + rest));
    NumberAt(ShowNat(a), gap1 + op);
    SpaceBeforeOperator(a, gap1, op);
    assert op[1..] == gap2 + (ShowNat(b) + rest);
    SecondNumberOf(a, gap2, b, rest);
  }

  /** `parseOxidationPercent("… 15% …")` is 15 when no digit comes before the percentage. */
  lemma PercentReading(pre: string, n: nat, gap: string, rest: string)
    requires HasNoDigit(pre) && AllSpace(gap)
    ensures OxidationHalves(pre + (ShowNat(n) + (gap + ("%" + rest)))) == 2 * n
  {
    var s := ShowNat(n) + (gap + ("%" + rest));
    FirstMatchSkips(pre, s);
    PercentAtStart(n, gap, rest);
  }

  /** `parseOxidationPercent("… a-b …")` is the midpoint `(a + b) / 2` when no digit comes before the range. */
  lemma RangeReading(pre: string, a: nat, gap1: string, dash: char, gap2: string, b: nat, rest: string)
    requires HasNoDigit(pre) && AllSpace(gap1) && IsDash(dash) && AllSpace(gap2)
    requires rest == [] || !IsDigit(rest[0])
    ensures OxidationHalves(pre + (ShowNat(a) + (gap1 + ([dash] + (gap2 + (ShowNat(b) + rest)))))) == a + b
  {
    var s := ShowNat(a) + (gap1 + ([dash] + (gap2 + (ShowNat(b) + rest))));
    FirstMatchSkips(pre, s);
    RangeAtStart(a, gap1, dash, gap2, b, rest);
  }

  lemma ShowSmall()
    ensures ShowNat(0) == "0" && ShowNat(5) == "5" && ShowNat(15) == "15"
    ensures ShowNat(60) == "60" && ShowNat(80) == "80"
  {
  }

  /** The layout of a short range text, piece by piece. */
  lemma RangeLayout(pre: string, a: string, b: string, post: string)
    ensures pre + (a + ([] + (['-'] + ([] + (b + post))))) == pre + a + ['-'] + b + post
  {
    AppendAssoc(['-'], b, post);
    AppendAssoc(a, ['-'] + b, post);
    AppendAssoc(a, ['-'], b);
    AppendAssoc(pre, a + ['-'] + b, post);
    AppendAssoc(pre, a + ['-'], b);
    AppendAssoc(pre, a, ['-']);
  }

  /** "60-80%" reads as 70, the first example of the component's comment. */
  lemma RangeExample()
    ensures OxidationHalves("60-80%") == 140
  {
    ShowSmall();
    RangeReading([], 60, [], '-', [], 80, "%");
    RangeLayout([], "60", "80", "%");
    assert [] + "60" == "60";
    assert "60" + ['-'] == "60-";
    assert "60-" + "80" == "60-80";
    assert "60-80" + "%" == "60-80%";
  }

  /** "15%" reads as 15. */
  lemma PercentExample()
    ensures OxidationHalves("15%") == 30
  {
    ShowSmall();
    PercentReading([], 15, [], []);
    assert [] + ("15" + ([] + ("%" + []))) == "15%";
  }

  /** "Minimal (0-5%)" reads as 2.5: the range inside the text wins over the keyword. */
  lemma RangeInTextExample()
    ensures OxidationHalves("Minimal (0-5%)") == 5
  {
    ShowSmall();
    RangeReading("Minimal (", 0, [], '-', [], 5, "%)");
    RangeLayout("Minimal (", "0", "5", "%)");
    assert "Minimal (" + "0" == "Minimal (0";
    assert "Minimal (0" + ['-'] == "Minimal (0-";
    assert "Minimal (0-" + "5" == "Minimal (0-5";
    assert "Minimal (0-5" + "%)" == "Minimal (0-5%)";
  }

  /** "None" reads as 5. */
  lemma NoneExample()
    ensures OxidationHalves("None") == 10
  {
    NoDigitsKeywords("None");
    assert Lower("None") == "none";
    assert StartsWith("none", "none");
  }

  /** "Full" reads as 100: the earlier keywords are absent. */
  lemma FullExample()
    ensures OxidationHalves("Full") == 200
  {
    NoDigitsKeywords("Full");
    assert Lower("Full") == "full";
    assert StartsWith("full", "full");
    assert !Contains("full", "minimal") && !Contains("full", "none");
    assert !Contains("full", "light") && !Contains("full", "partial");
  }
}
