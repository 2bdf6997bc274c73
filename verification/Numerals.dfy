/** Decimal numbers as text: std::to_string(float), which prints six decimals, and the extraction of a
    float from a stream, with the number syntax of libstdc++'s num_get. Values are exact reals. */
module Numerals {
  import opened Wrappers

  function Pow10(n: nat): (p: int)
    ensures p >= 1
  {
    if n == 0 then 1 else 10 * Pow10(n - 1)
  }

  lemma {:induction false} Pow10Sum(m: nat, n: nat)
    ensures Pow10(m + n) == Pow10(m) * Pow10(n)
  {
    if m > 0 {
      Pow10Sum(m - 1, n);
    }
  }

  predicate IsDigit(c: char) { '0' <= c <= '9' }

  predicate AllDigits(s: string) { forall k :: 0 <= k < |s| ==> IsDigit(s[k]) }

  function DigitOf(d: nat): (c: char)
    requires d < 10
    ensures IsDigit(c) && (c as int) - ('0' as int) == d
  {
    '0' + d as char
  }

  function DigitsValue(s: string): nat
    requires AllDigits(s)
  {
    if s == "" then 0 else 10 * DigitsValue(s[..|s| - 1]) + (s[|s| - 1] as int - '0' as int)
  }

  lemma {:induction false} DigitsValueConcat(s: string, t: string)
    requires AllDigits(s) && AllDigits(t)
    ensures AllDigits(s + t)
    ensures DigitsValue(s + t) == DigitsValue(s) * Pow10(|t|) + DigitsValue(t)
  {
    if t == "" {
      assert s + t == s;
    } else {
      var n := |t| - 1;
      DigitsValueConcat(s, t[..n]);
      assert (s + t)[..|s + t| - 1] == s + t[..n];
      var v, p := DigitsValue(s), Pow10(n);
      assert Pow10(|t|) == 10 * p;
      MoveTen(v, p);
    }
  }

  lemma MoveTen(v: int, p: int)
    ensures 10 * (v * p) == v * (10 * p)
  {
  }

  // ---- Printing ----

  function NatText(n: nat): (s: string)
    ensures s != "" && AllDigits(s) && DigitsValue(s) == n
  {
    if n < 10 then [DigitOf(n)]
    else
      var s := NatText(n / 10) + [DigitOf(n % 10)];
      assert s[..|s| - 1] == NatText(n / 10);
      s
  }

  function PaddedText(n: nat, width: nat): (s: string)
    requires n < Pow10(width)
    ensures |s| == width && AllDigits(s) && DigitsValue(s) == n
  {
    if width == 0 then ""
    else
      var s := PaddedText(n / 10, width - 1) + [DigitOf(n % 10)];
      assert s[..|s| - 1] == PaddedText(n / 10, width - 1);
      s
  }

  function Nearest(r: real): (n: int)
    ensures -0.5 <= n as real - r <= 0.5
    ensures r == r.Floor as real ==> n == r.Floor
  {
    var f := r.Floor;
    var d := r - f as real;
    if d < 0.5 || (d == 0.5 && f % 2 == 0) then f else f + 1
  }

  const MILLION := 1000000

  /** The magnitude of x in millionths, rounded to the nearest, ties to even. */
  function Micros(x: real): nat {
    Nearest((if x < 0.0 then -x else x) * 1000000.0)
  }

  /** printf's "%f". */
  function FixedText(x: real): string {
    MillionIsPow();
    (if x < 0.0 then "-" else "") + (NatText(Micros(x) / MILLION) + "." + PaddedText(Micros(x) % MILLION, 6))
  }

  lemma MillionIsPow()
    ensures Pow10(6) == MILLION
  {
    assert Pow10(3) == 1000;
    Pow10Sum(3, 3);
  }

  function FromMicros(n: int): real { n as real / 1000000.0 }

  /** What is left of x after printing. */
  function Rounded(x: real): real {
    if x < 0.0 then -FromMicros(Micros(x)) else FromMicros(Micros(x))
  }

  /** Printing moves a number by at most half a millionth, and keeps whole millionths. */
  lemma RoundedIsClose(x: real)
    ensures -0.0000005 <= Rounded(x) - x <= 0.0000005
    ensures (exists n: int :: x == FromMicros(n)) ==> Rounded(x) == x
  {
    var m := (if x < 0.0 then -x else x) * 1000000.0;
    if n: int :| x == FromMicros(n) {
      assert m == (if x < 0.0 then -n else n) as real;
      assert m.Floor as real == m;
    }
  }

  /** A number half way between two millionths is printed as the even one. */
  lemma TiesGoToEven(n: nat)
    ensures Micros((n as real + 0.5) / 1000000.0) == if n % 2 == 0 then n else n + 1
  {
    var r := ((n as real + 0.5) / 1000000.0) * 1000000.0;
    assert r == n as real + 0.5;
    assert r.Floor == n;
  }

  // ---- Scanning ----

  datatype Brackets = Brackets(opens: nat, closes: nat)

  /** How many square brackets a text holds. */
  function CountBrackets(s: string): Brackets {
    if s == "" then Brackets(0, 0)
    else
      var b := CountBrackets(s[1..]);
      if s[0] == '[' then b.(opens := b.opens + 1)
      else if s[0] == ']' then b.(closes := b.closes + 1)
      else b
  }

  /** rest is what remains of s after taking characters that are not brackets. */
  predicate LeftOf(rest: string, s: string) { |rest| <= |s| && CountBrackets(rest) == CountBrackets(s) }

  predicate IsSpace(c: char) { c == ' ' || c == '\t' || c == '\n' || c == '\r' || c as int == 11 || c as int == 12 }

  function SkipSpace(s: string): (rest: string)
    ensures LeftOf(rest, s)
  {
    if s == "" || !IsSpace(s[0]) then s else SkipSpace(s[1..])
  }

  predicate StartsWithDigit(s: string) { s != "" && IsDigit(s[0]) }

  /** The longest prefix of digits, and the rest. */
  function TakeDigits(s: string): (r: (string, string))
    ensures AllDigits(r.0) && LeftOf(r.1, s)
    ensures |r.0| + |r.1| == |s|
  {
    if !StartsWithDigit(s) then ("", s)
    else
      var r := TakeDigits(s[1..]);
      ([s[0]] + r.0, r.1)
  }

  /** Whether there is a minus sign, and the rest after an optional sign. */
  function TakeSign(s: string): (r: (bool, string))
    ensures LeftOf(r.1, s)
  {
    if s != "" && (s[0] == '+' || s[0] == '-') then (s[0] == '-', s[1..]) else (false, s)
  }

  /** The digits after an optional decimal point. */
  function TakeFraction(s: string): (r: (string, string))
    ensures AllDigits(r.0) && LeftOf(r.1, s)
    ensures r.0 != "" ==> |r.1| < |s|
  {
    if s != "" && s[0] == '.' then TakeDigits(s[1..]) else ("", s)
  }

  function Negated(negative: bool, x: real): real { if negative then -x else x }

  function MantissaValue(i: string, f: string): real
    requires AllDigits(i) && AllDigits(f)
  {
    DigitsValue(i + f) as real / Pow10(|f|) as real
  }

  function WithExponent(x: real, negative: bool, e: nat): real {
    if negative then x / Pow10(e) as real else x * Pow10(e) as real
  }

  /** The remaining text and, if the characters taken form a number, its value. */
  datatype Scan = Scan(rest: string, value: Option<real>)

  predicate StartsExponent(s: string) { s != "" && (s[0] == 'e' || s[0] == 'E') }

  /** An optional exponent after a mantissa of value x. */
  function ScanExponent(s: string, x: real): (r: Scan)
    ensures LeftOf(r.rest, s)
  {
    if !StartsExponent(s) then Scan(s, Some(x))
    else
      var (negative, t) := TakeSign(s[1..]);
      var (e, u) := TakeDigits(t);
      if e == "" then Scan(u, None) else Scan(u, Some(WithExponent(x, negative, DigitsValue(e))))
  }

  /** A number without leading white space: sign, digits with at most one point, exponent. */
  function ScanNumber(s: string): (r: Scan)
    ensures LeftOf(r.rest, s)
    ensures r.value.Some? ==> |r.rest| < |s|
  {
    var (negative, t) := TakeSign(s);
    var (i, u) := TakeDigits(t);
    var (f, v) := TakeFraction(u);
    if i == "" && f == "" then Scan(v, None) else ScanExponent(v, Negated(negative, MantissaValue(i, f)))
  }

  // ---- Scanning what was printed ----

  lemma {:induction false} TakeDigitsIs(d: string, rest: string)
    requires AllDigits(d) && !StartsWithDigit(rest)
    ensures TakeDigits(d + rest) == (d, rest)
  {
    if d == "" {
      assert d + rest == rest;
    } else {
      assert (d + rest)[1..] == d[1..] + rest;
      TakeDigitsIs(d[1..], rest);
      assert d == [d[0]] + d[1..];
    }
  }

  /** Text that can follow a number without becoming part of it. */
  predicate EndsNumber(rest: string) { !StartsWithDigit(rest) && !StartsExponent(rest) }

  lemma MantissaOfPrinted(m: nat)
    ensures MantissaValue(NatText(m / MILLION), (MillionIsPow(); PaddedText(m % MILLION, 6))) == FromMicros(m)
  {
    MillionIsPow();
    var i, f := NatText(m / MILLION), PaddedText(m % MILLION, 6);
    DigitsValueConcat(i, f);
    assert (m / MILLION) * Pow10(6) + m % MILLION == m;
  }

  lemma ScanUnsigned(i: string, f: string, rest: string)
    requires AllDigits(i) && i != "" && AllDigits(f) && EndsNumber(rest)
    ensures TakeDigits(i + "." + f + rest) == (i, "." + f + rest)
    ensures TakeFraction("." + f + rest) == (f, rest)
  {
    hide CountBrackets, LeftOf;
    var w := "." + f + rest;
    assert i + "." + f + rest == i + w;
    assert w[0] == '.' && w[1..] == f + rest;
    TakeDigitsIs(f, rest);
    hide TakeDigits;
    TakeDigitsIs(i, w);
  }

  /** The scanner takes exactly what the printer wrote, and reads the rounded value back. */
  lemma ScanPrinted(x: real, rest: string)
    requires EndsNumber(rest)
    ensures ScanNumber(FixedText(x) + rest) == Scan(rest, Some(Rounded(x)))
    ensures FixedText(x) != "" && (FixedText(x)[0] == '-' || IsDigit(FixedText(x)[0]))
  {
    hide NatText, PaddedText, Micros, DigitsValue, Pow10, MantissaValue, TakeDigits, TakeFraction, CountBrackets, LeftOf;
    MillionIsPow();
    var m := Micros(x);
    var i, f := NatText(m / MILLION), PaddedText(m % MILLION, 6);
    var t := i + "." + f + rest;
    ScanUnsigned(i, f, rest);
    MantissaOfPrinted(m);
    SignOfPrinted(x < 0.0, i + "." + f, rest);
    assert ScanExponent(rest, Negated(x < 0.0, FromMicros(m))) == Scan(rest, Some(Rounded(x)));
  }

  lemma SignOfPrinted(negative: bool, t: string, rest: string)
    requires StartsWithDigit(t)
    ensures TakeSign((if negative then "-" else "") + t + rest) == (negative, t + rest)
    ensures ((if negative then "-" else "") + t)[0] == if negative then '-' else t[0]
  {
    var s := (if negative then "-" else "") + t + rest;
    if negative {
      assert s == "-" + (t + rest);
      assert s[1..] == t + rest;
    } else {
      assert s == t + rest;
      assert s[0] == t[0];
    }
  }
}
