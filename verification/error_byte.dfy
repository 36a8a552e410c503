/** The error byte EB1 of the reply to "T": six independent flags, one per bit,
    bit 0 the least significant. */
module ErrorByte {
  import opened Results
  import opened Ascii

  /** The conditions the programmer reports, in bit order. */
  datatype Condition =
    | CoolingRateNotMaintained     // bit 0
    | StageNotConnected            // bit 1: stage missing or sensor open circuit
    | OverloadProtection           // bit 2: current protection set by an overload
    | TS1500ProfileExitAbove300    // bit 3: TS1500 left a profile above 300 °C
    | TS1500WithTHM                // bit 4: TS1500 and THM stages both connected
    | RS232Transmission            // bit 5: problems with the RS232 data transmission

  /** Conditions listed from bit 0 to bit 5, the order `decode_error_byte` tests them in. */
  const AllConditions: seq<Condition> := [
    CoolingRateNotMaintained, StageNotConnected, OverloadProtection,
    TS1500ProfileExitAbove300, TS1500WithTHM, RS232Transmission]

  /** The position of a condition's flag in the byte. */
  function Bit(c: Condition): (k: nat)
    ensures k < 6 && AllConditions[k] == c
  {
    match c
    case CoolingRateNotMaintained => 0
    case StageNotConnected => 1
    case OverloadProtection => 2
    case TS1500ProfileExitAbove300 => 3
    case TS1500WithTHM => 4
    case RS232Transmission => 5
  }

  /** The single-bit mask of a condition's flag. */
  function Mask(c: Condition): Byte {
    match c
    case CoolingRateNotMaintained => 0x01
    case StageNotConnected => 0x02
    case OverloadProtection => 0x04
    case TS1500ProfileExitAbove300 => 0x08
    case TS1500WithTHM => 0x10
    case RS232Transmission => 0x20
  }

  /** `b & Mask(c) != 0`, in arithmetic form. */
  predicate Has(b: Byte, c: Condition) {
    (b / Mask(c)) % 2 == 1
  }

  /** The first two characters of a condition's text. */
  function Initials(c: Condition): (char, char) {
    match c
    case CoolingRateNotMaintained => ('C', 'o')
    case StageNotConnected => ('S', 't')
    case OverloadProtection => ('C', 'u')
    case TS1500ProfileExitAbove300 => ('T', 'S')
    case TS1500WithTHM => ('T', 'M')
    case RS232Transmission => ('P', 'r')
  }

  /** The line of text `decode_error_byte` appends for a condition. Each is
      written as its first word and the rest, so that its leading characters can
      be read off the short first part. */
  function Text(c: Condition): (t: string)
    ensures |t| >= 2 && (t[0], t[1]) == Initials(c)
  {
    match c
    case CoolingRateNotMaintained => "Cooling " + "rate cannot be maintained \n"
    case StageNotConnected => "Stage " + "not connected or sensor is open circuit \n"
    case OverloadProtection => "Current " + "protection has been set due to an overload \n"
    case TS1500ProfileExitAbove300 =>
      "TS1500 " + "stage tried to exit profile at a temperature > 300\U{00B0}C (not allowed)\n"
    case TS1500WithTHM => "TMS92 " + "has a TS1500 and THM stage connected (not allowed)\n"
    case RS232Transmission => "Problems " + "with the RS232 data transmission\n"
  }

  const NoError: string := "no error"

  /** The conditions among `cs` whose flag is set in `b`, in the order of `cs`. */
  function FlagsAmong(b: Byte, cs: seq<Condition>): (fs: seq<Condition>)
    ensures |fs| <= |cs|
  {
    if cs == [] then []
    else (if Has(b, cs[0]) then [cs[0]] else []) + FlagsAmong(b, cs[1..])
  }

  /** The conditions flagged in `b`, from bit 0 to bit 5. */
  function Flags(b: Byte): seq<Condition> {
    FlagsAmong(b, AllConditions)
  }

  /** The texts of the given conditions, one after the other. */
  function Join(fs: seq<Condition>): (m: string)
    ensures m == [] <==> fs == []
  {
    if fs == [] then "" else Text(fs[0]) + Join(fs[1..])
  }

  /** The intended `decode_error_byte`: for bit 0 up to bit 5, append the text
      of each condition whose flag is set; with none set, "no error". */
  function Decode(b: Byte): (m: string)
    ensures m == NoError <==> Flags(b) == []
    ensures Flags(b) != [] ==> m == Join(Flags(b))
  {
    var body := Join(Flags(b));
    if body == "" then NoError
    else
      assert body[0] == Text(Flags(b)[0])[0];
      body
  }

  /** The byte that flags exactly the given conditions. */
  function Encode(s: set<Condition>): (b: Byte)
    ensures b < 64
  {
    (if CoolingRateNotMaintained in s then 0x01 else 0)
    + (if StageNotConnected in s then 0x02 else 0)
    + (if OverloadProtection in s then 0x04 else 0)
    + (if TS1500ProfileExitAbove300 in s then 0x08 else 0)
    + (if TS1500WithTHM in s then 0x10 else 0)
    + (if RS232Transmission in s then 0x20 else 0)
  }

  function FlagSet(b: Byte): set<Condition> {
    set c | c in AllConditions && Has(b, c)
  }

  predicate InBitOrder(fs: seq<Condition>) {
    forall i, j :: 0 <= i < j < |fs| ==> Bit(fs[i]) < Bit(fs[j])
  }

  /** A condition is among the selected ones exactly when it is in the list and
      its flag is set. */
  lemma {:induction false} FlagsAmongMembers(b: Byte, cs: seq<Condition>, c: Condition)
    ensures c in FlagsAmong(b, cs) <==> c in cs && Has(b, c)
    decreases |cs|
  {
    if cs != [] {
      FlagsAmongMembers(b, cs[1..], c);
      assert cs == [cs[0]] + cs[1..];
    }
  }

  /** Selecting from a list keeps its order. */
  lemma {:induction false} FlagsAmongOrdered(b: Byte, cs: seq<Condition>)
    requires InBitOrder(cs)
    ensures InBitOrder(FlagsAmong(b, cs))
    decreases |cs|
  {
    if cs != [] {
      var rest := FlagsAmong(b, cs[1..]);
      FlagsAmongOrdered(b, cs[1..]);
      forall c | c in rest
        ensures Bit(cs[0]) < Bit(c)
      {
        FlagsAmongMembers(b, cs[1..], c);
        var k :| 0 <= k < |cs[1..]| && cs[1..][k] == c;
        assert cs[k + 1] == c;
      }
    }
  }

  /** Each flag is read on its own: a condition is reported exactly when its bit
      is set, whatever the other bits hold, and the reports come in bit order
      without repetition. */
  lemma FlagsIndependent(b: Byte)
    ensures forall c :: c in Flags(b) <==> Has(b, c)
    ensures InBitOrder(Flags(b))
  {
    forall c
      ensures c in Flags(b) <==> Has(b, c)
    {
      FlagsAmongMembers(b, AllConditions, c);
    }
    FlagsAmongOrdered(b, AllConditions);
  }

  /** Bits 6 and 7 do not touch any condition's flag. */
  lemma HighBitsIgnored(b: Byte, c: Condition)
    ensures Has(b, c) == Has(b % 64, c)
  {
    EncodeOfFlagSet(b);
    FlagSetOfEncode(FlagSet(b));
    assert AllConditions[Bit(c)] == c;
    assert c in FlagSet(b) <==> c in FlagSet(b % 64);
  }

  /** Two bytes with the same flags select the same conditions. */
  lemma {:induction false} FlagsAmongAgree(a: Byte, b: Byte, cs: seq<Condition>)
    requires forall c :: Has(a, c) == Has(b, c)
    ensures FlagsAmong(a, cs) == FlagsAmong(b, cs)
    decreases |cs|
  {
    if cs != [] {
      FlagsAmongAgree(a, b, cs[1..]);
    }
  }

  /** Some flag is set exactly when one of bits 0 to 5 is. */
  lemma SomeFlagIffLowBits(b: Byte)
    ensures (exists c :: Has(b, c)) <==> b % 64 != 0
  {
    LowBits(b);
    if b % 64 != 0 {
      if b % 2 == 1 { assert Has(b, CoolingRateNotMaintained); }
      else if b / 2 % 2 == 1 { assert Has(b, StageNotConnected); }
      else if b / 4 % 2 == 1 { assert Has(b, OverloadProtection); }
      else if b / 8 % 2 == 1 { assert Has(b, TS1500ProfileExitAbove300); }
      else if b / 16 % 2 == 1 { assert Has(b, TS1500WithTHM); }
      else { assert Has(b, RS232Transmission); }
    }
  }

  /** "no error" is returned exactly when bits 0 to 5 are all clear. */
  lemma NoErrorIffLowBitsClear(b: Byte)
    ensures Decode(b) == NoError <==> b % 64 == 0
  {
    FlagsIndependent(b);
    SomeFlagIffLowBits(b);
    if Flags(b) != [] {
      assert Has(b, Flags(b)[0]);
    }
  }

  /** Bits 6 and 7 never change the message. */
  lemma HighBitsIrrelevant(b: Byte)
    ensures Decode(b) == Decode(b % 64)
  {
    forall c
      ensures Has(b, c) == Has(b % 64, c)
    {
      HighBitsIgnored(b, c);
    }
    FlagsAmongAgree(b, b % 64, AllConditions);
  }

  /** The six low bits of a byte, one by one, from its repeated halving. */
  lemma LowBits(b: Byte)
    ensures b % 64 == (b % 2) + 2 * (b / 2 % 2) + 4 * (b / 4 % 2) + 8 * (b / 8 % 2)
                      + 16 * (b / 16 % 2) + 32 * (b / 32 % 2)
  {
    var q1 := b / 2;
    var q2 := q1 / 2;
    var q3 := q2 / 2;
    var q4 := q3 / 2;
    var q5 := q4 / 2;
    var q6 := q5 / 2;
    assert b / 4 == q2;
    assert b / 8 == q3;
    assert b / 16 == q4;
    assert b / 32 == q5;
    assert b / 64 == q6;
  }

  /** A sum of distinct powers of two below 64 has exactly those bits set. */
  lemma BitsOfSum(d0: int, d1: int, d2: int, d3: int, d4: int, d5: int)
    requires 0 <= d0 <= 1 && 0 <= d1 <= 1 && 0 <= d2 <= 1
    requires 0 <= d3 <= 1 && 0 <= d4 <= 1 && 0 <= d5 <= 1
    ensures var x := d0 + 2 * d1 + 4 * d2 + 8 * d3 + 16 * d4 + 32 * d5;
      && x % 2 == d0 && x / 2 % 2 == d1 && x / 4 % 2 == d2
      && x / 8 % 2 == d3 && x / 16 % 2 == d4 && x / 32 % 2 == d5
  {
    var x := d0 + 2 * d1 + 4 * d2 + 8 * d3 + 16 * d4 + 32 * d5;
    assert x / 2 == d1 + 2 * d2 + 4 * d3 + 8 * d4 + 16 * d5;
    assert x / 4 == d2 + 2 * d3 + 4 * d4 + 8 * d5;
    assert x / 8 == d3 + 2 * d4 + 4 * d5;
    assert x / 16 == d4 + 2 * d5;
    assert x / 32 == d5;
  }

  /** Encoding a set of conditions and decoding the byte gives the set back. */
  lemma FlagSetOfEncode(s: set<Condition>)
    ensures FlagSet(Encode(s)) == s
  {
    var b := Encode(s);
    BitsOfSum(
      if CoolingRateNotMaintained in s then 1 else 0,
      if StageNotConnected in s then 1 else 0,
      if OverloadProtection in s then 1 else 0,
      if TS1500ProfileExitAbove300 in s then 1 else 0,
      if TS1500WithTHM in s then 1 else 0,
      if RS232Transmission in s then 1 else 0);
    forall c
      ensures c in FlagSet(b) <==> c in s
    {
      assert AllConditions[Bit(c)] == c;
    }
  }

  /** Decoding a byte and encoding its conditions gives back its low six bits. */
  lemma EncodeOfFlagSet(b: Byte)
    ensures Encode(FlagSet(b)) == b % 64
  {
    var s := FlagSet(b);
    LowBits(b);
    assert CoolingRateNotMaintained in s <==> Has(b, CoolingRateNotMaintained);
    assert StageNotConnected in s <==> Has(b, StageNotConnected);
    assert OverloadProtection in s <==> Has(b, OverloadProtection);
    assert TS1500ProfileExitAbove300 in s <==> Has(b, TS1500ProfileExitAbove300);
    assert TS1500WithTHM in s <==> Has(b, TS1500WithTHM);
    assert RS232Transmission in s <==> Has(b, RS232Transmission);
  }

  /** No two conditions share their first two characters, so a message can be
      split back into its texts: a text followed by anything fixes the text. */
  lemma TextsSeparate(c: Condition, d: Condition, x: string, y: string)
    requires Text(c) + x == Text(d) + y
    ensures c == d && x == y
  {
    var u := Text(c) + x;
    assert u[0] == Text(c)[0] && u[0] == Text(d)[0];
    assert u[1] == Text(c)[1] && u[1] == Text(d)[1];
    assert Initials(c) == Initials(d);
    assert u[|Text(c)|..] == x;
  }

  /** Equal non-empty messages start with the same condition and continue alike. */
  lemma JoinHeads(fs: seq<Condition>, gs: seq<Condition>)
    requires fs != [] && Join(fs) == Join(gs)
    ensures gs != [] && fs[0] == gs[0] && Join(fs[1..]) == Join(gs[1..])
  {
    assert gs != [];
    TextsSeparate(fs[0], gs[0], Join(fs[1..]), Join(gs[1..]));
  }

  /** Different lists of conditions give different messages. */
  lemma {:induction false} JoinInjective(fs: seq<Condition>, gs: seq<Condition>)
    requires Join(fs) == Join(gs)
    ensures fs == gs
    decreases |fs|
  {
    if fs != [] {
      JoinHeads(fs, gs);
      JoinInjective(fs[1..], gs[1..]);
      assert fs == [fs[0]] + fs[1..];
      assert gs == [gs[0]] + gs[1..];
    } else {
      assert gs == [];
    }
  }

  /** The message determines the low six bits and nothing more: two bytes decode
      to the same text exactly when they agree on bits 0 to 5. */
  lemma DecodeOnlyLowBits(a: Byte, b: Byte)
    ensures Decode(a) == Decode(b) <==> a % 64 == b % 64
  {
    HighBitsIrrelevant(a);
    HighBitsIrrelevant(b);
    if Decode(a) == Decode(b) {
      if Flags(a) == [] {
        NoErrorIffLowBitsClear(a);
        NoErrorIffLowBitsClear(b);
      } else {
        JoinInjective(Flags(a), Flags(b));
        FlagsIndependent(a);
        FlagsIndependent(b);
        forall c
          ensures c in FlagSet(a) <==> c in FlagSet(b)
        {
          assert AllConditions[Bit(c)] == c;
        }
        assert FlagSet(a) == FlagSet(b);
        EncodeOfFlagSet(a);
        EncodeOfFlagSet(b);
      }
    }
  }

  /** The condition, if its flag is set in `b`; nothing otherwise. */
  function Part(b: Byte, c: Condition): seq<Condition> {
    if Has(b, c) then [c] else []
  }

  /** Selecting from `[c] + cs` tests `c` and then the rest. */
  lemma FlagsAmongCons(b: Byte, c: Condition, cs: seq<Condition>)
    ensures FlagsAmong(b, [c] + cs) == Part(b, c) + FlagsAmong(b, cs)
  {
    assert ([c] + cs)[1..] == cs;
  }

  /** The six tests of the decode written out, bit 0 first. */
  lemma FlagsUnrolled(b: Byte)
    ensures Flags(b) == Part(b, CoolingRateNotMaintained) + (Part(b, StageNotConnected)
      + (Part(b, OverloadProtection) + (Part(b, TS1500ProfileExitAbove300)
      + (Part(b, TS1500WithTHM) + Part(b, RS232Transmission)))))
  {
    var l5 := [RS232Transmission];
    var l4 := [TS1500WithTHM] + l5;
    var l3 := [TS1500ProfileExitAbove300] + l4;
    var l2 := [OverloadProtection] + l3;
    var l1 := [StageNotConnected] + l2;
    assert AllConditions == [CoolingRateNotMaintained] + l1;
    FlagsAmongCons(b, RS232Transmission, []);
    assert [RS232Transmission] + [] == l5;
    FlagsAmongCons(b, TS1500WithTHM, l5);
    FlagsAmongCons(b, TS1500ProfileExitAbove300, l4);
    FlagsAmongCons(b, OverloadProtection, l3);
    FlagsAmongCons(b, StageNotConnected, l2);
    FlagsAmongCons(b, CoolingRateNotMaintained, l1);
  }

  /** With no flag set the message is "no error". */
  lemma DecodeClearByte()
    ensures Decode(0x00) == NoError
  {
    NoErrorIffLowBitsClear(0x00);
  }

  /** With only bit 0 set the message is the cooling-rate text alone. */
  lemma DecodeBit0()
    ensures Decode(0x01) == Text(CoolingRateNotMaintained)
  {
    FlagsUnrolled(0x01);
    assert Flags(0x01) == [CoolingRateNotMaintained];
  }

  /** With only bit 5 set the message is the RS232 text alone. */
  lemma DecodeBit5()
    ensures Decode(0x20) == Text(RS232Transmission)
  {
    FlagsUnrolled(0x20);
    assert Flags(0x20) == [RS232Transmission];
    assert Join([RS232Transmission]) == Text(RS232Transmission);
  }

  /** With bits 0 and 5 set both texts come, bit 0 first. */
  lemma DecodeBits0And5()
    ensures Decode(0x21) == Text(CoolingRateNotMaintained) + Text(RS232Transmission)
  {
    FlagsUnrolled(0x21);
    assert Flags(0x21) == [CoolingRateNotMaintained, RS232Transmission];
    assert Join([RS232Transmission]) == Text(RS232Transmission);
  }
}
