/**
 Decimal digit strings and JavaScript's conversion of values to strings
 (`String(v)`, template literals, and the implicit conversion a regular
 expression test applies to its argument).
 */
module Numbers {
  import opened Runtime

  predicate IsDigit(c: char) {
    '0' <= c <= '9'
  }

  predicate AllDigits(s: string) {
    forall i :: 0 <= i < |s| ==> IsDigit(s[i])
  }

  function DigitChar(d: nat): (c: char)
    requires d < 10
    ensures IsDigit(c)
  {
    ('0' as int + d) as char
  }

  function DigitValue(c: char): (d: nat)
    requires IsDigit(c)
    ensures d < 10 && DigitChar(d) == c
  {
    c as int - '0' as int
  }

  /** The shortest decimal spelling of n: digits only, no leading zero
      except for zero itself. */
  function DecimalDigits(n: nat): (r: string)
    ensures |r| > 0 && AllDigits(r)
    ensures r[0] == '0' <==> n == 0
    decreases n
  {
    if n < 10 then [DigitChar(n)] else DecimalDigits(n / 10) + [DigitChar(n % 10)]
  }

  /** The number a digit string denotes in base ten; leading zeros are
      insignificant. */
  function ValueOfDigits(s: string): nat
    requires AllDigits(s)
    decreases |s|
  {
    if |s| == 0 then 0 else 10 * ValueOfDigits(s[..|s| - 1]) + DigitValue(s[|s| - 1])
  }

  lemma {:induction false} DigitsRoundTrip(n: nat)
    ensures ValueOfDigits(DecimalDigits(n)) == n
    decreases n
  {
    var s := DecimalDigits(n);
    if n >= 10 {
      assert s[..|s| - 1] == DecimalDigits(n / 10);
      DigitsRoundTrip(n / 10);
    }
  }

  lemma {:induction false} LeadingDigitNonZero(s: string)
    requires |s| > 0 && AllDigits(s) && s[0] != '0'
    ensures ValueOfDigits(s) >= 1
    decreases |s|
  {
    if |s| > 1 {
      var p := s[..|s| - 1];
      assert p[0] == s[0];
      LeadingDigitNonZero(p);
    }
  }

  /** A digit string without leading zeros is the spelling of its own value. */
  lemma {:induction false} DigitsCanonical(s: string)
    requires |s| > 0 && AllDigits(s)
    requires s[0] != '0' || |s| == 1
    ensures DecimalDigits(ValueOfDigits(s)) == s
    decreases |s|
  {
    if |s| > 1 {
      var p := s[..|s| - 1];
      var d := DigitValue(s[|s| - 1]);
      assert p[0] == s[0];
      LeadingDigitNonZero(p);
      var v := ValueOfDigits(s);
      assert v == 10 * ValueOfDigits(p) + d;
      assert v / 10 == ValueOfDigits(p) && v % 10 == d;
      DigitsCanonical(p);
      assert s == p + [s[|s| - 1]];
    }
  }

  /** A zero in front of a digit string does not change its value. */
  lemma {:induction false} LeadingZeroInsignificant(s: string)
    requires AllDigits(s)
    ensures AllDigits("0" + s)
    ensures ValueOfDigits("0" + s) == ValueOfDigits(s)
    decreases |s|
  {
    var z := "0" + s;
    assert forall i :: 0 <= i < |z| ==> IsDigit(z[i]) by {
      forall i | 0 <= i < |z| ensures IsDigit(z[i]) {
        if i > 0 { assert z[i] == s[i - 1]; }
      }
    }
    if |s| > 0 {
      var p := s[..|s| - 1];
      assert z[..|z| - 1] == "0" + p;
      LeadingZeroInsignificant(p);
    }
  }

  /** Drops trailing '0' characters, keeping at least the first character. */
  function StripTrailingZeros(s: string): (r: string)
    requires |s| > 0
    ensures 0 < |r| <= |s| && r == s[..|r|]
    decreases |s|
  {
    if |s| > 1 && s[|s| - 1] == '0' then StripTrailingZeros(s[..|s| - 1]) else s
  }

  /** Integers at or above 10^21 are printed by JavaScript in exponent form. */
  const PlainLimit: nat := 1_000_000_000_000_000_000_000

  /** JavaScript's exponent spelling of a large integer, `d.ddde+N`: the
      significant digits (trailing zeros dropped) with a point after the
      first one, then `e+` and the decimal exponent. */
  function ExponentForm(m: nat): (r: string)
    ensures exists i :: 0 <= i < |r| && r[i] == 'e'
  {
    var d := DecimalDigits(m);
    var t := StripTrailingZeros(d);
    var mantissa := if |t| == 1 then t else [t[0]] + "." + t[1..];
    var r := mantissa + "e+" + DecimalDigits(|d| - 1);
    assert r[|mantissa|] == 'e';
    r
  }

  /** `String(m)` for a non-negative integral JavaScript number. */
  function NatToString(m: nat): string {
    if m < PlainLimit then DecimalDigits(m) else ExponentForm(m)
  }

  /** `String(n)` for an integral JavaScript number. */
  function NumberToString(n: int): string {
    if n < 0 then "-" + NatToString(-n) else NatToString(n)
  }

  /** `String(v)`: the conversion a template literal or `RegExp.test`
      applies to a value. */
  function ToJsString(v: JsValue): string {
    match v
    case Undefined => "undefined"
    case Null => "null"
    case Str(s) => s
    case Num(n) => NumberToString(n)
  }

  /** A number's string is all digits exactly when the number is a
      non-negative integer printed without an exponent. */
  lemma NumberToStringDigits(n: int)
    ensures (|NumberToString(n)| > 0 && AllDigits(NumberToString(n))) <==> 0 <= n < PlainLimit
  {
    var r := NumberToString(n);
    if n < 0 {
      assert r[0] == '-';
    } else if n >= PlainLimit {
      var i :| 0 <= i < |r| && r[i] == 'e';
      assert !IsDigit(r[i]);
    }
  }
}
