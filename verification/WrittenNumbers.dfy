/** Numbers as people write them, and their value digit by digit: what the scanner has to make of them. */
module WrittenNumbers {
  import opened Numerals
  import opened Plane
  import opened Wrappers

  datatype Exponent = Exponent(mark: char, sign: string, digits: string)

  /** A sign, digits, a point with digits after it, and an exponent; each part may be missing. */
  datatype Numeral = Numeral(sign: string, whole: string, point: bool, fraction: string, exponent: Option<Exponent>)

  predicate IsSign(s: string) { s == "" || s == "+" || s == "-" }

  predicate WellFormed(n: Numeral) {
    IsSign(n.sign) && AllDigits(n.whole) && AllDigits(n.fraction) &&
    (n.whole != "" || n.fraction != "") && (n.point || n.fraction == "") &&
    (n.exponent.Some? ==> WellFormedExponent(n.exponent.value))
  }

  predicate WellFormedExponent(e: Exponent) {
    (e.mark == 'e' || e.mark == 'E') && IsSign(e.sign) && AllDigits(e.digits) && e.digits != ""
  }

  function ExponentText(e: Option<Exponent>): string {
    if e.None? then "" else [e.value.mark] + (e.value.sign + e.value.digits)
  }

  function FractionText(n: Numeral): string { if n.point then "." + n.fraction else "" }

  function Text(n: Numeral): string { n.sign + (n.whole + (FractionText(n) + ExponentText(n.exponent))) }

  // ---- The value ----

  function Digit(c: char): nat
    requires IsDigit(c)
  {
    c as int - '0' as int
  }

  /** The first digit counts for the highest power of ten. */
  function WholeValue(s: string): nat
    requires AllDigits(s)
  {
    if s == "" then 0 else Digit(s[0]) * Pow10(|s| - 1) + WholeValue(s[1..])
  }

  /** The first digit counts for tenths, and the others for a tenth of what they count for alone. */
  function FractionValue(s: string): real
    requires AllDigits(s)
  {
    if s == "" then 0.0 else (Digit(s[0]) as real + FractionValue(s[1..])) / 10.0
  }

  function Shifted(x: real, e: Option<Exponent>): real
    requires e.Some? ==> WellFormedExponent(e.value)
  {
    if e.None? then x
    else if e.value.sign == "-" then x / Pow10(WholeValue(e.value.digits)) as real
    else x * Pow10(WholeValue(e.value.digits)) as real
  }

  function Value(n: Numeral): real
    requires WellFormed(n)
  {
    var x := WholeValue(n.whole) as real + FractionValue(n.fraction);
    Shifted(if n.sign == "-" then -x else x, n.exponent)
  }

  /** One more digit of the whole part makes it ten times as much, and the digit more. */
  lemma WholeDigit(s: string, c: char)
    requires AllDigits(s) && IsDigit(c)
    ensures AllDigits(s + [c]) && WholeValue(s + [c]) == 10 * WholeValue(s) + Digit(c)
  {
    WholeIsDigits(s);
    WholeIsDigits(s + [c]);
    assert (s + [c])[..|s|] == s;
  }

  /** One more digit after the point adds that many units of its place; a zero adds nothing. */
  lemma {:induction false} FractionDigit(s: string, c: char)
    requires AllDigits(s) && IsDigit(c)
    ensures AllDigits(s + [c])
    ensures FractionValue(s + [c]) == FractionValue(s) + Digit(c) as real / Pow10(|s| + 1) as real
    ensures c == '0' ==> FractionValue(s + [c]) == FractionValue(s)
  {
    if s == "" {
      assert (s + [c])[1..] == "";
      assert Pow10(1) == 10;
    } else {
      FractionDigit(s[1..], c);
      assert (s + [c])[1..] == s[1..] + [c];
      TenthOf(Digit(c) as real, Pow10(|s|) as real);
    }
  }

  lemma TenthOf(d: real, p: real)
    requires p > 0.0
    ensures (d / p) / 10.0 == d / (10.0 * p)
  {
    var q := d / p;
    assert q * p == d;
    assert (q / 10.0) * (10.0 * p) == d;
  }

  // ---- The scanner's arithmetic is this value ----

  lemma {:induction false} WholeIsDigits(s: string)
    requires AllDigits(s)
    ensures WholeValue(s) == DigitsValue(s)
  {
    if s != "" {
      WholeIsDigits(s[1..]);
      DigitsValueConcat([s[0]], s[1..]);
      assert [s[0]] + s[1..] == s;
      assert [s[0]][..0] == "";
      assert DigitsValue([s[0]]) == Digit(s[0]);
    }
  }

  lemma {:induction false} FractionIsDigits(s: string)
    requires AllDigits(s)
    ensures Times(FractionValue(s), Pow10(|s|) as real) == DigitsValue(s) as real
  {
    hide Times;
    if s == "" {
      TimesUnit(1.0);
    } else {
      FractionIsDigits(s[1..]);
      WholeIsDigits(s);
      WholeIsDigits(s[1..]);
      FractionStep(Digit(s[0]), FractionValue(s[1..]), Pow10(|s| - 1), DigitsValue(s[1..]));
    }
  }

  lemma FractionStep(d: nat, f: real, p: int, w: nat)
    requires Times(f, p as real) == w as real
    ensures Times((d as real + f) / 10.0, (10 * p) as real) == (d * p + w) as real
  {
    assert (10 * p) as real == 10.0 * p as real;
    assert (d * p) as real == d as real * p as real;
    var x := (d as real + f) / 10.0;
    assert x * (10.0 * p as real) == (d as real + f) * p as real;
    assert (d as real + f) * p as real == d as real * p as real + f * p as real;
  }

  lemma MantissaIsValue(i: string, f: string)
    requires AllDigits(i) && AllDigits(f)
    ensures MantissaValue(i, f) == WholeValue(i) as real + FractionValue(f)
  {
    hide Times;
    WholeIsDigits(i);
    FractionIsDigits(f);
    DigitsValueConcat(i, f);
    MantissaStep(DigitsValue(i), FractionValue(f), DigitsValue(f), Pow10(|f|));
  }

  lemma MantissaStep(a: nat, b: real, w: nat, p: int)
    requires p >= 1 && Times(b, p as real) == w as real
    ensures (a * p + w) as real / p as real == a as real + b
  {
    assert (a * p) as real == a as real * p as real;
    var q := (a * p + w) as real / p as real;
    assert q * p as real == a as real * p as real + b * p as real;
    assert (q - (a as real + b)) * p as real == 0.0;
  }

  lemma ShiftedIs(x: real, e: Exponent)
    requires WellFormedExponent(e)
    ensures Shifted(x, Some(e)) == WithExponent(x, e.sign == "-", DigitsValue(e.digits))
  {
    WholeIsDigits(e.digits);
    hide WholeValue, DigitsValue, Pow10;
  }

  // ---- Scanning ----

  predicate StartsWithPoint(s: string) { s != "" && s[0] == '.' }

  /** Text after which the number is over. */
  predicate Ends(n: Numeral, rest: string) {
    !StartsWithDigit(rest) && (n.exponent.None? ==> !StartsExponent(rest) && (!n.point ==> !StartsWithPoint(rest)))
  }

  lemma ScanSign(sign: string, t: string)
    requires IsSign(sign) && t != "" && t[0] != '+' && t[0] != '-'
    ensures TakeSign(sign + t) == (sign == "-", t)
  {
    if sign == "" {
      assert sign + t == t;
    } else {
      assert (sign + t)[1..] == t;
    }
  }

  lemma ScanMarked(e: Exponent, rest: string, x: real)
    requires WellFormedExponent(e) && !StartsWithDigit(rest)
    ensures ScanExponent(([e.mark] + (e.sign + e.digits)) + rest, x)
         == Scan(rest, Some(WithExponent(x, e.sign == "-", DigitsValue(e.digits))))
  {
    hide CountBrackets, LeftOf, DigitsValue, WithExponent, TakeSign, TakeDigits;
    var t := ([e.mark] + (e.sign + e.digits)) + rest;
    assert t[0] == e.mark && t[1..] == e.sign + (e.digits + rest);
    ScanSign(e.sign, e.digits + rest);
    TakeDigitsIs(e.digits, rest);
  }

  lemma ScanTail(e: Option<Exponent>, rest: string, x: real)
    requires e.Some? ==> WellFormedExponent(e.value)
    requires !StartsWithDigit(rest) && (e.None? ==> !StartsExponent(rest))
    ensures ScanExponent(ExponentText(e) + rest, x) == Scan(rest, Some(Shifted(x, e)))
  {
    if e.None? {
      assert ExponentText(e) + rest == rest;
    } else {
      hide ScanExponent, WithExponent, Shifted, WellFormedExponent;
      ScanMarked(e.value, rest, x);
      ShiftedIs(x, e.value);
    }
  }

  lemma ScanFraction(n: Numeral, rest: string)
    requires WellFormed(n) && !StartsWithDigit(rest) && (!n.point ==> !StartsWithPoint(rest))
    ensures TakeFraction(FractionText(n) + rest) == (n.fraction, rest)
  {
    hide CountBrackets, LeftOf;
    if n.point {
      assert (FractionText(n) + rest)[1..] == n.fraction + rest;
      TakeDigitsIs(n.fraction, rest);
    } else {
      assert FractionText(n) + rest == rest;
    }
  }

  lemma FourParts(a: string, b: string, c: string, d: string, rest: string)
    ensures (a + (b + (c + d))) + rest == a + (b + (c + (d + rest)))
  {
  }

  lemma TailStart(n: Numeral, rest: string)
    requires WellFormed(n) && Ends(n, rest)
    ensures var tail := ExponentText(n.exponent) + rest;
      !StartsWithDigit(tail) && (!n.point ==> !StartsWithPoint(tail))
  {
    var tail := ExponentText(n.exponent) + rest;
    if n.exponent.Some? {
      assert tail[0] == n.exponent.value.mark;
    } else {
      assert tail == rest;
    }
  }

  lemma WrittenParts(n: Numeral, rest: string)
    requires WellFormed(n) && Ends(n, rest)
    ensures var tail := ExponentText(n.exponent) + rest;
      var u := FractionText(n) + tail;
      && Text(n) + rest == n.sign + (n.whole + u)
      && !StartsWithDigit(tail) && (!n.point ==> !StartsWithPoint(tail))
      && !StartsWithDigit(u)
      && n.whole + u != "" && (n.whole + u)[0] != '+' && (n.whole + u)[0] != '-'
  {
    FourParts(n.sign, n.whole, FractionText(n), ExponentText(n.exponent), rest);
    TailStart(n, rest);
    hide ExponentText, StartsExponent;
    var u := FractionText(n) + (ExponentText(n.exponent) + rest);
    assert (n.whole + u)[0] == if n.whole != "" then n.whole[0] else '.';
  }

  /** Every number that is written in this form, in front of any text that ends it, is taken whole and
      read with its value. */
  lemma ScanWritten(n: Numeral, rest: string)
    requires WellFormed(n) && Ends(n, rest)
    ensures ScanNumber(Text(n) + rest) == Scan(rest, Some(Value(n)))
  {
    hide CountBrackets, LeftOf, TakeDigits, TakeSign, TakeFraction, ScanExponent, MantissaValue, WholeValue, FractionValue,
         Text, ExponentText, FractionText, StartsWithDigit, StartsExponent, StartsWithPoint, WellFormedExponent;
    var tail := ExponentText(n.exponent) + rest;
    var u := FractionText(n) + tail;
    WrittenParts(n, rest);
    ScanSign(n.sign, n.whole + u);
    TakeDigitsIs(n.whole, u);
    ScanFraction(n, tail);
    MantissaIsValue(n.whole, n.fraction);
    ScanTail(n.exponent, rest, Negated(n.sign == "-", MantissaValue(n.whole, n.fraction)));
  }

  /** What is printed is such a number: a minus sign only, a whole part without leading zeros, and six
      digits after the point. */
  lemma PrintedIsWritten(x: real) returns (n: Numeral)
    ensures WellFormed(n) && FixedText(x) == Text(n) && Value(n) == Rounded(x)
    ensures n.sign == (if x < 0.0 then "-" else "") && n.point && |n.fraction| == 6 && n.exponent == None
    ensures n.whole != "" && (n.whole == "0" || n.whole[0] != '0')
  {
    MillionIsPow();
    var m := Micros(x);
    n := Numeral(if x < 0.0 then "-" else "", NatText(m / MILLION), true, PaddedText(m % MILLION, 6), None);
    NoLeadingZero(m / MILLION);
    MantissaIsValue(n.whole, n.fraction);
    MantissaOfPrinted(m);
    hide Micros, MantissaValue, NatText, PaddedText, WholeValue, FractionValue, Pow10;
    assert FixedText(x) == n.sign + (n.whole + "." + n.fraction);
    assert n.whole + "." + n.fraction == n.whole + ("." + n.fraction + "");
  }

  lemma {:induction false} NoLeadingZero(n: nat)
    ensures n > 0 ==> NatText(n)[0] != '0'
    ensures n == 0 ==> NatText(n) == "0"
  {
    if n >= 10 {
      NoLeadingZero(n / 10);
      assert NatText(n)[0] == NatText(n / 10)[0];
    }
  }
}
