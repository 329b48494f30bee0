/** Reading the number of seconds at the start of a time-offset text such as "1.5s". */
module TimeOffsets {
  import opened Wrappers

  predicate IsDigit(c: char) {
    '0' <= c <= '9'
  }

  predicate AllDigits(s: string) {
    forall i :: 0 <= i < |s| ==> IsDigit(s[i])
  }

  predicate StartsWithDigit(s: string) {
    |s| > 0 && IsDigit(s[0])
  }

  /** The length of the run of digits that opens `s`. */
  function LeadingDigits(s: string): (n: nat)
    ensures n <= |s|
    ensures AllDigits(s[..n])
    ensures n < |s| ==> !IsDigit(s[n])
  {
    if |s| > 0 && IsDigit(s[0]) then
      var rest := LeadingDigits(s[1..]);
      assert s[..1 + rest] == [s[0]] + s[1..][..rest];
      1 + rest
    else
      0
  }

  /** Cutting `s` at `j` cuts its run of leading digits at `j` too. */
  lemma {:induction false} LeadingDigitsOfPrefix(s: string, j: nat)
    requires j <= |s|
    ensures LeadingDigits(s[..j]) == if LeadingDigits(s) < j then LeadingDigits(s) else j
  {
    if j > 0 && IsDigit(s[0]) {
      assert s[..j][1..] == s[1..][..j - 1];
      LeadingDigitsOfPrefix(s[1..], j - 1);
    }
  }

  /** Digits followed by something that is not a digit: the run is exactly the digits. */
  lemma {:induction false} LeadingDigitsOfConcat(ds: string, rest: string)
    requires AllDigits(ds)
    requires |rest| == 0 || !IsDigit(rest[0])
    ensures LeadingDigits(ds + rest) == |ds|
  {
    if |ds| > 0 {
      assert (ds + rest)[1..] == ds[1..] + rest;
      LeadingDigitsOfConcat(ds[1..], rest);
    }
  }

  /** The language of the pattern `\d+(\.\d+)?`: digits, then optionally a point and more digits. */
  predicate IsSecondsLiteral(lit: string) {
    var k := LeadingDigits(lit);
    k > 0 && (k == |lit| || (lit[k] == '.' && k + 1 < |lit| && AllDigits(lit[k + 1..])))
  }

  /** `re.match(r"\d+(\.\d+)?", time)`: the length of the match anchored at the start, if any.
      The match is the longest prefix in the pattern's language, and it exists exactly when
      the text starts with a digit. */
  function MatchSeconds(time: string): (m: Option<nat>)
    ensures m.Some? <==> StartsWithDigit(time)
    ensures m.Some? ==> m.value <= |time| && IsSecondsLiteral(time[..m.value])
    ensures m.Some? ==> forall j :: m.value < j <= |time| ==> !IsSecondsLiteral(time[..j])
    ensures m.None? ==> forall j :: 0 <= j <= |time| ==> !IsSecondsLiteral(time[..j])
  {
    var k := LeadingDigits(time);
    if k == 0 then
      NoPrefixMatches(time);
      None
    else if k + 1 < |time| && time[k] == '.' && IsDigit(time[k + 1]) then
      var n := k + 1 + LeadingDigits(time[k + 1..]);
      FractionalMatchIsLongest(time, n);
      Some(n)
    else
      WholeMatchIsLongest(time);
      Some(k)
  }

  lemma NoPrefixMatches(time: string)
    requires LeadingDigits(time) == 0
    ensures forall j :: 0 <= j <= |time| ==> !IsSecondsLiteral(time[..j])
  {
    forall j | 0 <= j <= |time| ensures !IsSecondsLiteral(time[..j]) {
      LeadingDigitsOfPrefix(time, j);
    }
  }

  lemma WholeMatchIsLongest(time: string)
    requires LeadingDigits(time) > 0
    requires !(LeadingDigits(time) + 1 < |time| && time[LeadingDigits(time)] == '.'
               && IsDigit(time[LeadingDigits(time) + 1]))
    ensures IsSecondsLiteral(time[..LeadingDigits(time)])
    ensures forall j :: LeadingDigits(time) < j <= |time| ==> !IsSecondsLiteral(time[..j])
  {
    LeadingDigitsOfPrefix(time, LeadingDigits(time));
    forall j | LeadingDigits(time) < j <= |time| ensures !IsSecondsLiteral(time[..j]) {
      LeadingDigitsOfPrefix(time, j);
    }
  }

  lemma FractionalMatchIsLongest(time: string, n: nat)
    requires LeadingDigits(time) > 0
    requires LeadingDigits(time) + 1 < |time| && time[LeadingDigits(time)] == '.'
    requires IsDigit(time[LeadingDigits(time) + 1])
    requires n == LeadingDigits(time) + 1 + LeadingDigits(time[LeadingDigits(time) + 1..])
    ensures n <= |time| && IsSecondsLiteral(time[..n])
    ensures forall j :: n < j <= |time| ==> !IsSecondsLiteral(time[..j])
  {
    var k := LeadingDigits(time);
    var tail := time[k + 1..];
    FractionalMatchIsLiteral(time, k, tail, n);
    forall j | n < j <= |time| ensures !IsSecondsLiteral(time[..j]) {
      FractionalMatchStops(time, k, tail, n, j);
    }
  }

  lemma FractionalMatchIsLiteral(time: string, k: nat, tail: string, n: nat)
    requires k == LeadingDigits(time) > 0
    requires k + 1 < |time| && time[k] == '.' && tail == time[k + 1..] && IsDigit(tail[0])
    requires n == k + 1 + LeadingDigits(tail)
    ensures n <= |time| && IsSecondsLiteral(time[..n])
  {
    var f := LeadingDigits(tail);
    assert f >= 1;
    LeadingDigitsOfPrefix(time, n);
    var p := time[..n];
    assert p[k] == '.';
    assert p[k + 1..] == tail[..f];
  }

  lemma FractionalMatchStops(time: string, k: nat, tail: string, n: nat, j: nat)
    requires k == LeadingDigits(time) > 0
    requires k + 1 < |time| && time[k] == '.' && tail == time[k + 1..]
    requires n == k + 1 + LeadingDigits(tail) && n < j <= |time|
    ensures !IsSecondsLiteral(time[..j])
  {
    var f := LeadingDigits(tail);
    LeadingDigitsOfPrefix(time, j);
    var p := time[..j];
    assert !IsDigit(tail[f]);
    assert p[k + 1..][f] == tail[f];
  }

  function DigitValue(c: char): (d: nat)
    requires IsDigit(c)
    ensures d < 10
  {
    c as int - '0' as int
  }

  /** The decimal value of a string of digits, most significant first. */
  function DigitsValue(ds: string): nat
    requires AllDigits(ds)
  {
    if |ds| == 0 then 0 else 10 * DigitsValue(ds[..|ds| - 1]) + DigitValue(ds[|ds| - 1])
  }

  function Pow10(n: nat): (p: nat)
    ensures p >= 1
  {
    if n == 0 then 1 else 10 * Pow10(n - 1)
  }

  /** n decimal digits denote less than 10^n. */
  lemma {:induction false} DigitsValueBelowPow10(ds: string)
    requires AllDigits(ds)
    ensures DigitsValue(ds) < Pow10(|ds|)
  {
    if |ds| > 0 {
      DigitsValueBelowPow10(ds[..|ds| - 1]);
    }
  }

  /** The value of the digits after a decimal point. */
  function FractionValue(ds: string): (v: real)
    requires AllDigits(ds)
    ensures 0.0 <= v < 1.0
  {
    DigitsValueBelowPow10(ds);
    var numerator, denominator := DigitsValue(ds) as real, Pow10(|ds|) as real;
    QuotientBelowOne(numerator, denominator);
    numerator / denominator
  }

  lemma QuotientBelowOne(a: real, b: real)
    requires 0.0 <= a < b
    ensures 0.0 <= a / b < 1.0
  {
    assert (a / b) * b == a;
  }

  /** `float()` of a matched literal, as an exact decimal: its whole part is the digits before the point. */
  function LiteralValue(lit: string): (v: real)
    requires IsSecondsLiteral(lit)
    ensures v.Floor == DigitsValue(lit[..LeadingDigits(lit)])
  {
    var k := LeadingDigits(lit);
    var whole := DigitsValue(lit[..k]) as real;
    if k == |lit| then whole else whole + FractionValue(lit[k + 1..])
  }

  /** `_time_to_seconds` followed by `float(m.group())`: the leading number of a time offset,
      None exactly when the text does not start with a digit. */
  function TimeToSeconds(time: string): (seconds: Option<real>)
    ensures seconds.Some? <==> StartsWithDigit(time)
    ensures seconds.Some? ==> seconds.value >= 0.0
    ensures seconds.Some? ==> seconds.value.Floor == DigitsValue(time[..LeadingDigits(time)])
  {
    match MatchSeconds(time)
    case None => None
    case Some(n) =>
      LeadingDigitsOfPrefix(time, n);
      assert time[..n][..LeadingDigits(time)] == time[..LeadingDigits(time)];
      Some(LiteralValue(time[..n]))
  }

  function DigitChar(d: nat): (c: char)
    requires d < 10
    ensures IsDigit(c) && DigitValue(c) == d
  {
    ('0' as int + d) as char
  }

  /** The decimal rendering of a natural number, without leading zeros. */
  function Render(n: nat): (s: string)
    ensures |s| > 0 && AllDigits(s)
  {
    if n < 10 then [DigitChar(n)] else Render(n / 10) + [DigitChar(n % 10)]
  }

  lemma {:induction false} RenderValue(n: nat)
    ensures DigitsValue(Render(n)) == n
  {
    if n >= 10 {
      var s := Render(n);
      assert s[..|s| - 1] == Render(n / 10);
      RenderValue(n / 10);
    }
  }

  /** A text that cannot continue a number: not a digit, and not a point followed by a digit. */
  predicate EndsNumber(suffix: string) {
    |suffix| == 0 || (!IsDigit(suffix[0]) && !(suffix[0] == '.' && |suffix| > 1 && IsDigit(suffix[1])))
  }

  /** Digits followed by a text that cannot continue the number read as those digits' value. */
  lemma TimeToSecondsOfDigits(whole: string, suffix: string)
    requires |whole| > 0 && AllDigits(whole) && EndsNumber(suffix)
    ensures TimeToSeconds(whole + suffix) == Some(DigitsValue(whole) as real)
  {
    var time := whole + suffix;
    LeadingDigitsOfConcat(whole, suffix);
    assert time[..|whole|] == whole;
    if |suffix| > 1 {
      assert time[|whole|] == suffix[0] && time[|whole| + 1] == suffix[1];
    }
  }

  /** Digits, a point and more digits, then a non-digit, read as the exact decimal value. */
  lemma TimeToSecondsOfDecimal(whole: string, fraction: string, suffix: string)
    requires |whole| > 0 && AllDigits(whole)
    requires |fraction| > 0 && AllDigits(fraction)
    requires |suffix| == 0 || !IsDigit(suffix[0])
    ensures TimeToSeconds(whole + "." + fraction + suffix)
         == Some(DigitsValue(whole) as real + FractionValue(fraction))
  {
    var lit := whole + "." + fraction;
    var value := DigitsValue(whole) as real + FractionValue(fraction);
    DecimalReadsAsLiteral(whole, fraction, suffix);
    LiteralValueOfDecimal(whole, fraction);
    assert LiteralValue(lit) == value;
    assert TimeToSeconds(lit + suffix) == Some(value);
  }

  lemma DecimalReadsAsLiteral(whole: string, fraction: string, suffix: string)
    requires |whole| > 0 && AllDigits(whole)
    requires |fraction| > 0 && AllDigits(fraction)
    requires |suffix| == 0 || !IsDigit(suffix[0])
    ensures IsSecondsLiteral(whole + "." + fraction)
    ensures TimeToSeconds(whole + "." + fraction + suffix) == Some(LiteralValue(whole + "." + fraction))
  {
    var lit := whole + "." + fraction;
    var time := lit + suffix;
    MatchOfDecimal(whole, fraction, suffix);
    assert time[..|lit|] == lit;
  }

  lemma MatchOfDecimal(whole: string, fraction: string, suffix: string)
    requires |whole| > 0 && AllDigits(whole)
    requires |fraction| > 0 && AllDigits(fraction)
    requires |suffix| == 0 || !IsDigit(suffix[0])
    ensures MatchSeconds(whole + "." + fraction + suffix) == Some(|whole| + 1 + |fraction|)
  {
    var time := whole + ("." + fraction + suffix);
    assert time == whole + "." + fraction + suffix;
    LeadingDigitsOfConcat(whole, "." + fraction + suffix);
    var k := |whole|;
    assert time[k] == '.' && time[k + 1] == fraction[0];
    assert time[k + 1..] == fraction + suffix;
    LeadingDigitsOfConcat(fraction, suffix);
  }

  lemma LiteralValueOfDecimal(whole: string, fraction: string)
    requires |whole| > 0 && AllDigits(whole)
    requires |fraction| > 0 && AllDigits(fraction)
    ensures IsSecondsLiteral(whole + "." + fraction)
    ensures LiteralValue(whole + "." + fraction) == DigitsValue(whole) as real + FractionValue(fraction)
  {
    var lit := whole + ("." + fraction);
    assert lit == whole + "." + fraction;
    LeadingDigitsOfConcat(whole, "." + fraction);
    assert lit[..|whole|] == whole;
    assert lit[|whole| + 1..] == fraction;
  }

  /** Round trip: a rendered whole number followed by a unit parses back to that number. */
  lemma TimeToSecondsOfRendered(n: nat, suffix: string)
    requires EndsNumber(suffix)
    ensures TimeToSeconds(Render(n) + suffix) == Some(n as real)
  {
    TimeToSecondsOfDigits(Render(n), suffix);
    RenderValue(n);
  }

  lemma ReadsFractionalSeconds()
    ensures TimeToSeconds("1.5s") == Some(1.5)
  {
    assert "1.5s" == "1" + "." + "5" + "s";
    assert DigitsValue("1") == 1 && DigitsValue("5") == 5 by {
      assert "1"[..0] == "" && "5"[..0] == "";
    }
    assert FractionValue("5") == 0.5;
    TimeToSecondsOfDecimal("1", "5", "s");
  }

  /** A point not followed by a digit is not part of the match: "1.s" reads as 1. */
  lemma PointWithoutDigitsStops()
    ensures TimeToSeconds("1.s") == Some(1.0)
  {
    assert Render(1) == "1";
    assert "1.s" == Render(1) + ".s";
    TimeToSecondsOfRendered(1, ".s");
  }

  lemma ReadsWholeSeconds()
    ensures TimeToSeconds("0s") == Some(0.0)
    ensures TimeToSeconds("2s") == Some(2.0)
  {
    assert Render(0) == "0" && Render(2) == "2";
    assert "0s" == Render(0) + "s" && "2s" == Render(2) + "s";
    TimeToSecondsOfRendered(0, "s");
    TimeToSecondsOfRendered(2, "s");
  }

  /** No match, as distinct from zero, when the text does not open with a digit. */
  lemma NoLeadingDigitNoSeconds()
    ensures TimeToSeconds("s1") == None
    ensures TimeToSeconds(".5s") == None
    ensures TimeToSeconds("") == None
  {
  }
}
