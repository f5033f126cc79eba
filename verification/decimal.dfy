/**
 Decimal rendering of a deviation score, as Python's `str(int)` (and hence an
 f-string) writes an integer: an optional minus sign followed by the digits,
 most significant first, with no leading zeros. `ParseInt` reads a numeral
 back and is the inverse used in the round-trip lemma; `IsCanonicalNumeral`
 describes the form `str` writes, and the rendered numerals are exactly the
 canonical ones.
 */
module Decimal {
  import opened Options
  import opened Strings

  predicate IsDigit(c: char)
  {
    '0' <= c <= '9'
  }

  /** A character that can appear in a rendered integer. */
  predicate IsNumeralChar(c: char)
  {
    IsDigit(c) || c == '-'
  }

  predicate AllDigits(s: string)
  {
    forall i :: 0 <= i < |s| ==> IsDigit(s[i])
  }

  /** Every character of `s` can appear in a rendered integer. */
  predicate AllNumeralChars(s: string)
  {
    forall i :: 0 <= i < |s| ==> IsNumeralChar(s[i])
  }

  /**
   The form `str(n)` writes: an optional minus sign, then a non-empty run of
   digits that starts with '0' only when it is "0" itself; "-0" is not canonical.
   */
  predicate IsCanonicalNumeral(s: string)
  {
    if |s| > 0 && s[0] == '-' then
      |s| > 1 && AllDigits(s[1..]) && s[1] != '0'
    else
      |s| > 0 && AllDigits(s) && (s[0] == '0' ==> |s| == 1)
  }

  function DigitChar(d: nat): (c: char)
    requires d < 10
    ensures IsDigit(c)
  {
    "0123456789"[d]
  }

  function DigitValue(c: char): (d: nat)
    requires IsDigit(c)
    ensures d < 10 && DigitChar(d) == c
  {
    (c as int - '0' as int) as nat
  }

  /** The decimal numeral of `n`, without leading zeros. */
  function NatToString(n: nat): (s: string)
    ensures |s| > 0 && AllDigits(s)
    ensures s[0] == '0' ==> n == 0
  {
    if n < 10 then [DigitChar(n)] else NatToString(n / 10) + [DigitChar(n % 10)]
  }

  /** Python's `str(n)` for an integer `n`. */
  function IntToString(n: int): (s: string)
    ensures |s| > 0 && AllNumeralChars(s)
    ensures IsOneLine(s)
    ensures (s[0] == '-') <==> n < 0
  {
    if n < 0 then "-" + NatToString(-n) else NatToString(n)
  }

  /** The value of a non-empty string of decimal digits. */
  function ParseNat(s: string): nat
    requires |s| > 0 && AllDigits(s)
    decreases |s|
  {
    if |s| == 1 then DigitValue(s[0])
    else 10 * ParseNat(s[..|s| - 1]) + DigitValue(s[|s| - 1])
  }

  /** Reads an optional minus sign and a non-empty run of digits; anything else is no number. */
  function ParseInt(s: string): Option<int>
  {
    if |s| > 1 && s[0] == '-' && AllDigits(s[1..]) then Some(-(ParseNat(s[1..]) as int))
    else if |s| > 0 && AllDigits(s) then Some(ParseNat(s))
    else None
  }

  lemma {:induction false} ParseNatToString(n: nat)
    ensures ParseNat(NatToString(n)) == n
  {
    if n >= 10 {
      var s := NatToString(n / 10);
      ParseNatToString(n / 10);
      assert (s + [DigitChar(n % 10)])[..|s|] == s;
    }
  }

  /** Rendering a deviation loses nothing: the numeral reads back as the same integer. */
  lemma IntToStringRoundTrip(n: int)
    ensures ParseInt(IntToString(n)) == Some(n)
  {
    if n < 0 {
      var digits := NatToString(-n);
      assert IntToString(n) == "-" + digits;
      assert ("-" + digits)[1..] == digits;
      ParseNatToString(-n);
    } else {
      var digits := NatToString(n);
      assert IsDigit(digits[0]);
      ParseNatToString(n);
    }
  }

  /** Every rendered integer is canonical: no leading zeros and no "-0". */
  lemma IntToStringCanonical(n: int)
    ensures IsCanonicalNumeral(IntToString(n))
  {
  }

  /** A digit string not starting with '0' has a positive value. */
  lemma {:induction false} ParseNatPositive(s: string)
    requires |s| > 0 && AllDigits(s) && s[0] != '0'
    ensures ParseNat(s) > 0
    decreases |s|
  {
    if |s| > 1 {
      ParseNatPositive(s[..|s| - 1]);
    }
  }

  /** Rendering the value of a digit string without leading zeros gives the string back. */
  lemma {:induction false} NatToStringParse(s: string)
    requires |s| > 0 && AllDigits(s) && (s[0] == '0' ==> |s| == 1)
    ensures NatToString(ParseNat(s)) == s
    decreases |s|
  {
    if |s| > 1 {
      var init := s[..|s| - 1];
      var d := DigitValue(s[|s| - 1]);
      ParseNatPositive(init);
      NatToStringParse(init);
      var n := ParseNat(s);
      assert n == 10 * ParseNat(init) + d;
      assert n / 10 == ParseNat(init) && n % 10 == d;
      assert s == init + [s[|s| - 1]];
    }
  }

  /** Every canonical numeral is the rendering of the integer it reads as. */
  lemma CanonicalNumeralIsRendered(s: string)
    requires IsCanonicalNumeral(s)
    ensures ParseInt(s).Some? && IntToString(ParseInt(s).value) == s
  {
    if s[0] == '-' {
      var digits := s[1..];
      NatToStringParse(digits);
      ParseNatPositive(digits);
      assert s == "-" + digits;
    } else {
      NatToStringParse(s);
    }
  }

  /** Distinct deviations are rendered as distinct numerals. */
  lemma IntToStringInjective(m: int, n: int)
    ensures IntToString(m) == IntToString(n) <==> m == n
  {
    IntToStringRoundTrip(m);
    IntToStringRoundTrip(n);
  }
}
