/** `decode_error_byte` exactly as written: it renders EB1 with `format(EB1, 'b')`,
    looks at the characters `EB1[-1]` to `EB1[-6]`, and compares each one with the
    integer 1. */
module LiteralErrorByte {
  import opened Results
  import opened Ascii
  import opened ErrorByte

  /** The Python values met in the comparisons: a one-character string and an int. */
  datatype PyValue = PyStr(s: string) | PyInt(i: int)

  /** Python `==`: a string never equals an integer. */
  predicate PyEquals(x: PyValue, y: PyValue) {
    match (x, y)
    case (PyStr(a), PyStr(b)) => a == b
    case (PyInt(a), PyInt(b)) => a == b
    case _ => false
  }

  function BinaryDigit(d: nat): char
    requires d < 2
  {
    if d == 0 then '0' else '1'
  }

  /** `format(n, 'b')`: the binary digits of `n`, most significant first, no
      leading zero ("0" for zero). */
  function Binary(n: nat): (s: string)
    ensures |s| >= 1
    ensures forall i :: 0 <= i < |s| ==> s[i] == '0' || s[i] == '1'
    decreases n
  {
    if n < 2 then [BinaryDigit(n)] else Binary(n / 2) + [BinaryDigit(n % 2)]
  }

  function Pow2(k: nat): (p: nat)
    ensures p >= 1
  {
    if k == 0 then 1 else 2 * Pow2(k - 1)
  }

  /** The tests for `EB1[-k]`, k from `k` to 6, starting from the message built so
      far. Each subscript past the start of the string raises; each comparison is
      between a string and the integer 1. */
  function Checks(digits: string, k: nat, message: string): (r: Result<string>)
    requires 1 <= k <= 7
    ensures r.Err? <==> k <= 6 && |digits| < 6
    ensures r.Err? ==> r.error == IndexError
    decreases 7 - k
  {
    if k == 7 then Ok(message)
    else if k > |digits| then Err(IndexError)
    else
      var hit := PyEquals(PyStr([digits[|digits| - k]]), PyInt(1));
      Checks(digits, k + 1, if hit then message + Text(AllConditions[k - 1]) else message)
  }

  /** `decode_error_byte` as written. It raises IndexError for every byte below 32
      and returns "no error" for every other byte. */
  function Decode(b: Byte): (r: Result<string>)
    ensures r.Err? <==> b < 32
    ensures r.Err? ==> r.error == IndexError
    ensures r.Ok? ==> r.value == NoError
  {
    BinaryLength(b, 5);
    ChecksNeverAppend(Binary(b), 1, "");
    match Checks(Binary(b), 1, "")
    case Err(e) => Err(e)
    case Ok(m) => Ok(if m == "" then NoError else m)
  }

  /** The binary rendering of `n` is longer than `k` digits exactly when `n`
      reaches 2^k. */
  lemma {:induction false} BinaryLength(n: nat, k: nat)
    requires k >= 1
    ensures |Binary(n)| > k <==> n >= Pow2(k)
    decreases n
  {
    if n >= 2 {
      if k > 1 {
        BinaryLength(n / 2, k - 1);
      }
    } else {
      assert Pow2(k) >= 2;
    }
  }

  /** No comparison ever fires, so the checks either raise on a short string or
      return the message they started with. */
  lemma {:induction false} ChecksNeverAppend(digits: string, k: nat, message: string)
    requires 1 <= k <= 6
    ensures Checks(digits, k, message) ==
      (if |digits| < 6 then Err(IndexError) else Ok(message))
    decreases 7 - k
  {
    if k < 6 && k <= |digits| {
      ChecksNeverAppend(digits, k + 1, message);
    }
  }

  /** The code as written agrees with the intended decode only on the bytes whose
      bits 0 to 5 are clear and whose binary form has six digits or more: 64, 128
      and 192. */
  lemma AgreesOnlyOnHighBytes(b: Byte)
    ensures Decode(b) == Ok(ErrorByte.Decode(b)) <==> b >= 32 && b % 64 == 0
  {
    var written := Decode(b);
    var intended := ErrorByte.Decode(b);
    var clear := b % 64 == 0;
    NoErrorIffLowBitsClear(b);
    assert intended == NoError <==> clear;
    if b >= 32 {
      assert written == Ok(NoError);
      assert written == Ok(intended) <==> clear;
    } else {
      assert written.Err?;
    }
  }

  /** `n >> k`. */
  function ShiftRight(n: nat, k: nat): nat {
    if k == 0 then n else ShiftRight(n / 2, k - 1)
  }

  /** The character `k` places from the right of `format(n, 'b')` is bit `k` of `n`. */
  lemma {:induction false} BinaryDigitFromRight(n: nat, k: nat)
    requires k < |Binary(n)|
    ensures Binary(n)[|Binary(n)| - 1 - k] == BinaryDigit(ShiftRight(n, k) % 2)
    decreases n
  {
    if n >= 2 && k > 0 {
      var s := Binary(n);
      assert s == Binary(n / 2) + [BinaryDigit(n % 2)];
      BinaryDigitFromRight(n / 2, k - 1);
    }
  }

  lemma ShiftRightByMask(n: nat, c: Condition)
    ensures ShiftRight(n, Bit(c)) == n / Mask(c)
    ensures Pow2(Bit(c)) == Mask(c)
  {
    var q1 := n / 2;
    var q2 := q1 / 2;
    var q3 := q2 / 2;
    var q4 := q3 / 2;
    var q5 := q4 / 2;
    assert q2 == n / 4;
    assert q3 == n / 8;
    assert q4 == n / 16;
    assert q5 == n / 32;
    match c
    case CoolingRateNotMaintained =>
    case StageNotConnected =>
      assert ShiftRight(n, 1) == ShiftRight(q1, 0);
    case OverloadProtection =>
      assert ShiftRight(n, 2) == ShiftRight(q1, 1) == ShiftRight(q2, 0);
    case TS1500ProfileExitAbove300 =>
      assert ShiftRight(n, 3) == ShiftRight(q1, 2) == ShiftRight(q2, 1) == ShiftRight(q3, 0);
    case TS1500WithTHM =>
      assert ShiftRight(n, 4) == ShiftRight(q1, 3) == ShiftRight(q2, 2) == ShiftRight(q3, 1)
        == ShiftRight(q4, 0);
    case RS232Transmission =>
      assert ShiftRight(n, 5) == ShiftRight(q1, 4) == ShiftRight(q2, 3) == ShiftRight(q3, 2)
        == ShiftRight(q4, 1) == ShiftRight(q5, 0);
  }

  /** Reading the binary string from its right end is sound: had `decode_error_byte`
      compared `EB1[-k]` with the character '1' and treated a position past the
      start of the string as a clear bit, each test would be exactly the mask
      test of the intended decode. */
  lemma StringTestIsMaskTest(b: Byte, c: Condition)
    ensures var s := Binary(b);
      (Bit(c) < |s| && s[|s| - 1 - Bit(c)] == '1') <==> Has(b, c)
  {
    var s := Binary(b);
    var k := Bit(c);
    ShiftRightByMask(b, c);
    if k < |s| {
      BinaryDigitFromRight(b, k);
    } else {
      BinaryLength(b, k);
    }
  }

  /** Two bytes on which the written code and the intended decode differ: 0x01
      (the cooling-rate flag alone) raises instead of reporting the flag, and
      0x21 (cooling rate and RS232) reports "no error". */
  lemma Divergence()
    ensures Decode(0x01) == Err(IndexError)
    ensures ErrorByte.Decode(0x01) == Text(CoolingRateNotMaintained)
    ensures Decode(0x21) == Ok(NoError)
    ensures ErrorByte.Decode(0x21) == Text(CoolingRateNotMaintained) + Text(RS232Transmission)
  {
    DecodeBit0();
    DecodeBits0And5();
  }
}
