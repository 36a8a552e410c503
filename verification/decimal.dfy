/** Python's `'%d' % n` for integers, and the decimal reading that undoes it. */
module Decimal {
  import opened Results

  predicate IsDigit(c: char) {
    '0' <= c <= '9'
  }

  predicate AllDigits(s: string) {
    forall i :: 0 <= i < |s| ==> IsDigit(s[i])
  }

  function DigitChar(d: int): (c: char)
    requires 0 <= d < 10
    ensures IsDigit(c)
  {
    ('0' as int + d) as char
  }

  function DigitValue(c: char): (d: int)
    requires IsDigit(c)
    ensures 0 <= d < 10
    ensures DigitChar(d) == c
  {
    c as int - '0' as int
  }

  /** The canonical decimal numeral of a natural number: no sign, no leading zero. */
  predicate IsCanonical(s: string) {
    && |s| > 0
    && AllDigits(s)
    && (|s| == 1 || s[0] != '0')
  }

  /** The decimal digits of `n`, most significant first. */
  function FormatNat(n: nat): (s: string)
    ensures IsCanonical(s)
    decreases n
  {
    if n < 10 then [DigitChar(n)]
    else FormatNat(n / 10) + [DigitChar(n % 10)]
  }

  /** `'%d' % n`: a minus sign before the digits of a negative number. */
  function FormatInt(n: int): (s: string)
    ensures |s| > 0
    ensures n < 0 <==> s[0] == '-'
    ensures n >= 0 ==> IsCanonical(s)
    ensures n < 0 ==> IsCanonical(s[1..]) && s[1] != '0'
  {
    if n < 0 then "-" + FormatNat(-n) else FormatNat(n)
  }

  /** The value of a string of decimal digits, most significant first. */
  function NatValue(s: string): nat
    requires AllDigits(s)
  {
    if s == [] then 0 else NatValue(s[..|s| - 1]) * 10 + DigitValue(s[|s| - 1])
  }

  /** Reads an optionally negated decimal numeral; anything else is a ValueError. */
  function ParseInt(s: string): (r: Result<int>)
    ensures r.Ok? <==> (|s| > 0 && AllDigits(s)) || (|s| > 1 && s[0] == '-' && AllDigits(s[1..]))
    ensures r.Err? ==> r.error == ValueError
  {
    if |s| > 1 && s[0] == '-' && AllDigits(s[1..]) then Ok(0 - NatValue(s[1..]) as int)
    else if |s| > 0 && AllDigits(s) then Ok(NatValue(s))
    else Err(ValueError)
  }

  /** Reading back the digits of `n` gives `n`. */
  lemma {:induction false} NatValueOfFormat(n: nat)
    ensures NatValue(FormatNat(n)) == n
    decreases n
  {
    if n >= 10 {
      var s := FormatNat(n);
      assert s[..|s| - 1] == FormatNat(n / 10);
      NatValueOfFormat(n / 10);
    }
  }

  /** A leading digit other than zero makes the value positive. */
  lemma {:induction false} NatValuePositive(s: string)
    requires |s| > 0 && AllDigits(s) && s[0] != '0'
    ensures NatValue(s) > 0
    decreases |s|
  {
    if |s| > 1 {
      NatValuePositive(s[..|s| - 1]);
    }
  }

  /** Every canonical numeral is the rendering of its own value, so `FormatNat`
      is a bijection between naturals and canonical numerals. */
  lemma {:induction false} FormatOfNatValue(s: string)
    requires IsCanonical(s)
    ensures FormatNat(NatValue(s)) == s
    decreases |s|
  {
    if |s| > 1 {
      var t := s[..|s| - 1];
      var d := DigitValue(s[|s| - 1]);
      NatValuePositive(t);
      FormatOfNatValue(t);
      var n := NatValue(s);
      assert n == NatValue(t) * 10 + d;
      assert n / 10 == NatValue(t) && n % 10 == d;
      assert s == t + [s[|s| - 1]];
    }
  }

  /** `'%d' % n` read back as a decimal integer gives `n`, for every integer. */
  lemma FormatIntRoundTrip(n: int)
    ensures ParseInt(FormatInt(n)) == Ok(n)
  {
    var s := FormatInt(n);
    if n < 0 {
      assert s[1..] == FormatNat(-n);
      NatValueOfFormat(-n);
    } else {
      NatValueOfFormat(n);
    }
  }
}
