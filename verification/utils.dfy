/**
 The digit-string validator of the utilities file (`isNumeric`, the
 regular expression `^\d+$` tested against its argument) and the
 `parseInt` the PATCH handler applies to values that passed it.
 */
module Utils {
  import opened Runtime
  import opened Numbers

  /** `\d*$`: the rest of the input is digits up to its end. */
  predicate MatchesDigitStar(s: string)
    decreases |s|
  {
    |s| == 0 || (IsDigit(s[0]) && MatchesDigitStar(s[1..]))
  }

  /** `^\d+$`: one digit, then `\d*$`. */
  predicate MatchesDigitPlus(s: string) {
    |s| > 0 && IsDigit(s[0]) && MatchesDigitStar(s[1..])
  }

  /** `isNumeric(v)`: the regular expression is tested against `String(v)`. */
  predicate IsNumeric(v: JsValue) {
    MatchesDigitPlus(ToJsString(v))
  }

  lemma {:induction false} DigitStarIsAllDigits(s: string)
    ensures MatchesDigitStar(s) <==> AllDigits(s)
    decreases |s|
  {
    if |s| > 0 {
      DigitStarIsAllDigits(s[1..]);
      assert AllDigits(s) <==> IsDigit(s[0]) && AllDigits(s[1..]) by {
        if IsDigit(s[0]) && AllDigits(s[1..]) {
          forall i | 0 <= i < |s| ensures IsDigit(s[i]) {
            if i > 0 { assert s[i] == s[1..][i - 1]; }
          }
        }
      }
    }
  }

  /** isNumeric holds exactly when the value's string is non-empty and made
      only of the ASCII digits 0-9. */
  lemma IsNumericIff(v: JsValue)
    ensures IsNumeric(v) <==> |ToJsString(v)| > 0 && AllDigits(ToJsString(v))
  {
    DigitStarIsAllDigits(ToJsString(v));
  }

  /** One character that is not a digit anywhere in a string (a sign, a
      decimal point, whitespace, a letter) makes isNumeric false. */
  lemma RejectsNonDigit(s: string, i: nat)
    requires i < |s| && !IsDigit(s[i])
    ensures !IsNumeric(Str(s))
  {
    IsNumericIff(Str(s));
  }

  /** `null` and `undefined` are converted to "null" and "undefined" and
      rejected, as is the empty string. */
  lemma RejectsNullishAndEmpty()
    ensures !IsNumeric(Null) && !IsNumeric(Undefined) && !IsNumeric(Str(""))
  {
    assert ToJsString(Null)[0] == 'n';
    assert ToJsString(Undefined)[0] == 'u';
  }

  /** Signed, fractional and padded spellings are rejected. */
  lemma RejectsSamples()
    ensures !IsNumeric(Str("-1")) && !IsNumeric(Str("1.5")) && !IsNumeric(Str(" 5"))
  {
    RejectsNonDigit("-1", 0);
    RejectsNonDigit("1.5", 1);
    RejectsNonDigit(" 5", 0);
  }

  /** A JSON number passes exactly when it is a non-negative integer below
      10^21 (larger ones print with an exponent). */
  lemma IsNumericNumber(n: int)
    ensures IsNumeric(Num(n)) <==> 0 <= n < PlainLimit
  {
    IsNumericIff(Num(n));
    NumberToStringDigits(n);
  }

  /** `parseInt(v)` on a value that passed isNumeric: the base-ten value of
      its digits. */
  function ParseInt(v: JsValue): nat
    requires IsNumeric(v)
  {
    IsNumericIff(v);
    ValueOfDigits(ToJsString(v))
  }

  /** The digits of any natural number pass isNumeric and parse back to it;
      so does the number itself below the exponent threshold. */
  lemma ParseIntRoundTrip(n: nat)
    ensures IsNumeric(Str(DecimalDigits(n))) && ParseInt(Str(DecimalDigits(n))) == n
    ensures n < PlainLimit ==> IsNumeric(Num(n)) && ParseInt(Num(n)) == n
  {
    IsNumericIff(Str(DecimalDigits(n)));
    DigitsRoundTrip(n);
    IsNumericNumber(n);
  }

  /** A numeric string without leading zeros is the spelling of its parse. */
  lemma ParseIntCanonical(s: string)
    requires IsNumeric(Str(s))
    requires s[0] != '0' || |s| == 1
    ensures DecimalDigits(ParseInt(Str(s))) == s
  {
    IsNumericIff(Str(s));
    DigitsCanonical(s);
  }

  /** Leading zeros are accepted and ignored: "007" parses like "7". */
  lemma LeadingZerosAccepted(s: string)
    requires IsNumeric(Str(s))
    ensures IsNumeric(Str("0" + s)) && ParseInt(Str("0" + s)) == ParseInt(Str(s))
  {
    IsNumericIff(Str(s));
    LeadingZeroInsignificant(s);
    IsNumericIff(Str("0" + s));
  }

  lemma Parses250()
    ensures IsNumeric(Str("250")) && ParseInt(Str("250")) == 250
  {
    assert DecimalDigits(2) == "2";
    assert DecimalDigits(25) == DecimalDigits(2) + ['5'] == "25";
    assert DecimalDigits(250) == DecimalDigits(25) + ['0'] == "250";
    ParseIntRoundTrip(250);
  }

  lemma Parses007()
    ensures IsNumeric(Str("007")) && ParseInt(Str("007")) == 7
  {
    assert DecimalDigits(7) == "7";
    ParseIntRoundTrip(7);
    LeadingZerosAccepted("7");
    assert "0" + "7" == "07";
    LeadingZerosAccepted("07");
    assert "0" + "07" == "007";
  }

  /** Nothing bounds the accepted value by 100, and leading zeros pass. */
  lemma NoUpperBound()
    ensures IsNumeric(Str("250")) && ParseInt(Str("250")) == 250
    ensures IsNumeric(Str("007")) && ParseInt(Str("007")) == 7
  {
    Parses250();
    Parses007();
  }
}
