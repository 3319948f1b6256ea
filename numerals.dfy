/**
 * Decimal text and numbers: Python's `str(int)` rendering and Python's
 * `float(str)` parsing of decimal literals, with numbers as exact reals.
 */
module Numerals {
  import opened Results
  import opened Text

  function DigitValue(c: char): nat
    requires IsDigit(c)
  {
    c as int - '0' as int
  }

  function DigitChar(d: nat): (c: char)
    requires d < 10
    ensures IsDigit(c) && DigitValue(c) == d
  {
    ('0' as int + d) as char
  }

  /** The value of a run of decimal digits, most significant digit first. */
  function DigitsValue(s: string): nat
    requires AllDigits(s)
  {
    if s == [] then 0 else DigitsValue(s[..|s| - 1]) * 10 + DigitValue(s[|s| - 1])
  }

  function Pow10Nat(n: nat): (p: nat)
    ensures p >= 1
  {
    if n == 0 then 1 else 10 * Pow10Nat(n - 1)
  }

  /** Ten to an integer power, as a real. */
  function Pow10(e: int): (p: real)
    ensures p > 0.0
  {
    if e >= 0 then Pow10Nat(e) as real else 1.0 / Pow10Nat(-e) as real
  }

  /** Python's `str(n)` for a non-negative integer: its digits, with no leading zero. */
  function NatToDecimal(n: nat): (s: string)
    ensures |s| >= 1 && AllDigits(s)
    ensures DigitsValue(s) == n
    ensures s[0] == '0' ==> n == 0
  {
    if n < 10 then [DigitChar(n)]
    else
      var s := NatToDecimal(n / 10) + [DigitChar(n % 10)];
      assert s[..|s| - 1] == NatToDecimal(n / 10);
      s
  }

  /** Python's `str(i)` for an integer: a `-` before the digits of a negative value. */
  function IntToDecimal(i: int): (s: string)
    ensures |s| >= 1 && (s[0] == '-' <==> i < 0)
  {
    if i < 0 then "-" + NatToDecimal(-i) else NatToDecimal(i)
  }

  /** The first index of `s` holding one of `cs`, or `|s|` when there is none. */
  function IndexOfAny(s: string, cs: string): (k: nat)
    ensures k <= |s|
    ensures forall j :: 0 <= j < k ==> s[j] !in cs
    ensures k < |s| ==> s[k] in cs
  {
    if s == [] then 0
    else if s[0] in cs then 0
    else 1 + IndexOfAny(s[1..], cs)
  }

  /**
   * Python's `float(s)` for a literal of the form
   * `[+|-] mantissa [(e|E) [+|-] digits]`, where the mantissa is digits with at
   * most one `.` and at least one digit. Anything else fails (None), as
   * `float` raises ValueError for it.
   */
  function ParseNum(s: string): (r: Option<real>)
    ensures s == [] || s == "-" || s == "+" || s == "." ==> r == None
  {
    if |s| > 0 && (s[0] == '-' || s[0] == '+') then
      match ParseUnsigned(s[1..])
      case None => None
      case Some(v) => Some(if s[0] == '-' then -v else v)
    else ParseUnsigned(s)
  }

  function ParseUnsigned(s: string): Option<real> {
    var k := IndexOfAny(s, "eE");
    match ParseMantissa(s[..k])
    case None => None
    case Some(m) =>
      if k == |s| then Some(m)
      else
        match ParseExponent(s[k + 1..])
        case None => None
        case Some(e) => Some(m * Pow10(e))
  }

  /** Digits with at most one `.`, and at least one digit in all. */
  function ParseMantissa(s: string): Option<real> {
    var p := IndexOfAny(s, ".");
    var whole := s[..p];
    var fraction := if p < |s| then s[p + 1..] else [];
    if AllDigits(whole) && AllDigits(fraction) && |whole| + |fraction| > 0 then
      Some(DigitsValue(whole) as real + DigitsValue(fraction) as real / Pow10(|fraction|))
    else None
  }

  /** An optionally signed, non-empty run of digits. */
  function ParseExponent(s: string): Option<int> {
    var sign := if |s| > 0 && (s[0] == '-' || s[0] == '+') then 1 else 0;
    var digits := s[sign..];
    if |digits| > 0 && AllDigits(digits) then
      Some(if sign == 1 && s[0] == '-' then -(DigitsValue(digits) as int) else DigitsValue(digits))
    else None
  }

  /** A string with none of `cs` has no index of them short of its end. */
  lemma IndexOfAnyAbsent(s: string, cs: string)
    requires forall i :: 0 <= i < |s| ==> s[i] !in cs
    ensures IndexOfAny(s, cs) == |s|
  {
  }

  /** The first index of `cs` in `s`, when `s[k]` is one of `cs` and none comes before. */
  lemma IndexOfAnyPrefix(s: string, cs: string, k: nat)
    requires k < |s| && s[k] in cs
    requires forall i :: 0 <= i < k ==> s[i] !in cs
    ensures IndexOfAny(s, cs) == k
  {
  }

  /** A run of digits is a mantissa with an empty fraction. */
  lemma ParseMantissaDigits(s: string)
    requires |s| > 0 && AllDigits(s)
    ensures ParseMantissa(s) == Some(DigitsValue(s) as real)
  {
    var p := IndexOfAny(s, ".");
    IndexOfAnyAbsent(s, ".");
    assert p == |s|;
    var whole := s[..p];
    assert whole == s;
    var fraction: string := [];
    assert DigitsValue(fraction) == 0;
    assert Pow10(|fraction|) == 1.0;
    assert DigitsValue(whole) as real + DigitsValue(fraction) as real / Pow10(|fraction|) == DigitsValue(s) as real;
  }

  /** A non-empty run of digits parses to the number it spells. */
  lemma ParseDigits(s: string)
    requires |s| > 0 && AllDigits(s)
    ensures ParseNum(s) == Some(DigitsValue(s) as real)
  {
    assert IsDigit(s[0]);
    IndexOfAnyAbsent(s, "eE");
    assert s[..|s|] == s;
    ParseMantissaDigits(s);
  }

  /**
   * Rendering an integer and parsing it back gives the integer: `str(i)` is a
   * literal that `float` reads as `i`.
   */
  lemma IntToDecimalRoundTrip(i: int)
    ensures ParseNum(IntToDecimal(i)) == Some(i as real)
  {
    if i < 0 {
      var d := NatToDecimal(-i);
      ParseDigits(d);
      assert IntToDecimal(i)[1..] == d;
    } else {
      ParseDigits(NatToDecimal(i));
    }
  }

  /**
   * The text of an integer has no `.`, a `-` exactly when it is negative,
   * digits elsewhere, and no leading zero (only `0` itself starts with `0`).
   */
  lemma IntToDecimalShape(i: int)
    ensures var s := IntToDecimal(i);
      && |s| >= 1
      && '.' !in s
      && (s[0] == '-' <==> i < 0)
      && (i >= 0 ==> IsDigit(s[0]))
      && (s[0] == '0' ==> s == "0")
      && (i < 0 ==> s[1] != '0')
      && (forall k :: 0 < k < |s| ==> IsDigit(s[k]))
  {
    var s := IntToDecimal(i);
    var d := if i < 0 then NatToDecimal(-i) else NatToDecimal(i);
    assert forall k :: 0 < k < |s| ==> IsDigit(s[k]) by {
      forall k | 0 < k < |s| ensures IsDigit(s[k]) {
        if i < 0 { assert s[k] == d[k - 1]; } else { assert s[k] == d[k]; }
      }
    }
    assert i >= 0 ==> IsDigit(s[0]);
  }
}
