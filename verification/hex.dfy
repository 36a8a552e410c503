/** Base-16 numerals, as Python's `int(text, 16)` reads them. */
module Hex {
  import opened Results

  predicate IsHexDigit(c: char) {
    '0' <= c <= '9' || 'a' <= c <= 'f' || 'A' <= c <= 'F'
  }

  predicate AllHexDigits(s: string) {
    forall i :: 0 <= i < |s| ==> IsHexDigit(s[i])
  }

  /** The value of one hex digit; letters count the same in either case. */
  function DigitValue(c: char): (d: nat)
    requires IsHexDigit(c)
    ensures d < 16
    ensures ('0' <= c <= '9') <==> d < 10
  {
    if '0' <= c <= '9' then c as int - '0' as int
    else if 'a' <= c <= 'f' then c as int - 'a' as int + 10
    else c as int - 'A' as int + 10
  }

  /** The upper-case digit for a value below 16. */
  function DigitChar(d: nat): (c: char)
    requires d < 16
    ensures IsHexDigit(c) && DigitValue(c) == d
    ensures !('a' <= c <= 'f')
  {
    if d < 10 then ('0' as int + d) as char else ('A' as int + d - 10) as char
  }

  /** A hex digit with its letter, if any, in upper case. */
  function Upper(c: char): (u: char)
    requires IsHexDigit(c)
    ensures IsHexDigit(u) && DigitValue(u) == DigitValue(c)
  {
    if 'a' <= c <= 'f' then (c as int - 'a' as int + 'A' as int) as char else c
  }

  function UpperAll(s: string): (u: string)
    requires AllHexDigits(s)
    ensures |u| == |s|
  {
    seq(|s|, i requires 0 <= i < |s| => Upper(s[i]))
  }

  function Pow16(n: nat): (p: nat)
    ensures p > 0
  {
    if n == 0 then 1 else 16 * Pow16(n - 1)
  }

  /** The big-endian base-16 value of a string of hex digits. */
  function Value(s: string): nat
    requires AllHexDigits(s)
  {
    if s == [] then 0 else Value(s[..|s| - 1]) * 16 + DigitValue(s[|s| - 1])
  }

  /** The `width` low-order hex digits of `n`, most significant first, upper case. */
  function Numeral(n: nat, width: nat): (s: string)
    ensures |s| == width
    ensures AllHexDigits(s)
  {
    if width == 0 then [] else Numeral(n / 16, width - 1) + [DigitChar(n % 16)]
  }

  /** `int(text, 16)` on text made of hex digits only: the loop accumulates
      digits from the left and rejects empty text and any other character. */
  method Parse(text: string) returns (r: Result<nat>)
    ensures r.Ok? <==> |text| > 0 && AllHexDigits(text)
    ensures r.Ok? ==> r.value == Value(text) && r.value < Pow16(|text|)
    ensures r.Err? ==> r.error == ValueError
  {
    if |text| == 0 {
      return Err(ValueError);
    }
    var v: nat := 0;
    var i := 0;
    while i < |text|
      invariant 0 <= i <= |text|
      invariant AllHexDigits(text[..i])
      invariant v == Value(text[..i])
      invariant v < Pow16(i)
    {
      if !IsHexDigit(text[i]) {
        return Err(ValueError);
      }
      assert text[..i + 1][..i] == text[..i];
      v := v * 16 + DigitValue(text[i]);
      i := i + 1;
    }
    assert text[..i] == text;
    return Ok(v);
  }

  /** A numeral of n digits stays below 16^n. */
  lemma {:induction false} ValueBound(s: string)
    requires AllHexDigits(s)
    ensures Value(s) < Pow16(|s|)
    decreases |s|
  {
    if s != [] {
      ValueBound(s[..|s| - 1]);
    }
  }

  /** Writing `n` with enough digits and reading it back gives `n`. */
  lemma {:induction false} ValueOfNumeral(n: nat, width: nat)
    requires n < Pow16(width)
    ensures Value(Numeral(n, width)) == n
    decreases width
  {
    if width > 0 {
      var s := Numeral(n, width);
      assert s[..|s| - 1] == Numeral(n / 16, width - 1);
      ValueOfNumeral(n / 16, width - 1);
    }
  }

  /** Reading a numeral and writing its value back with as many digits gives the
      same numeral, up to the case of its letters: reading is injective on
      numerals of one width once case is ignored. */
  lemma {:induction false} NumeralOfValue(s: string)
    requires AllHexDigits(s)
    ensures Numeral(Value(s), |s|) == UpperAll(s)
    decreases |s|
  {
    if s != [] {
      var t := s[..|s| - 1];
      var d := DigitValue(s[|s| - 1]);
      NumeralOfValue(t);
      var n := Value(s);
      assert n / 16 == Value(t) && n % 16 == d;
      assert UpperAll(s) == UpperAll(t) + [Upper(s[|s| - 1])];
    }
  }
}
