/** The command strings the driver sends. Rates are given in hundredths of a
    degree per minute and limits in tenths of a degree, the integers the driver
    renders with `%d` after scaling. */
module Commands {
  import opened Results
  import opened Ascii
  import opened Decimal
  import opened Framing

  /** `'R1%d' % (rate*100)`: set the ramp rate. */
  function Rate(hundredths: int): (c: string)
    ensures |c| > 2 && c[..2] == "R1"
    ensures c[2..] == FormatInt(hundredths)
    ensures ParseInt(c[2..]) == Ok(hundredths)
  {
    FormatIntRoundTrip(hundredths);
    "R1" + FormatInt(hundredths)
  }

  /** `'L1%d' % (limit*10)`: set the ramp limit. */
  function Limit(tenths: int): (c: string)
    ensures |c| > 2 && c[..2] == "L1"
    ensures c[2..] == FormatInt(tenths)
    ensures ParseInt(c[2..]) == Ok(tenths)
  {
    FormatIntRoundTrip(tenths);
    "L1" + FormatInt(tenths)
  }

  const Start: string := "S"
  const Stop: string := "E"
  const Hold: string := "O"
  const TemperatureQuery: string := "T"

  /** Every command the builders produce is ASCII, so `write` never raises on
      one and puts exactly its characters and a CR on the wire. */
  lemma RateIsAscii(hundredths: int)
    ensures IsAscii(Rate(hundredths))
    ensures Frame(Rate(hundredths)).Ok?
  {
    var c := Rate(hundredths);
    assert c[2..] == FormatInt(hundredths);
    forall i | 0 <= i < |c|
      ensures IsAsciiChar(c[i])
    {
      if i >= 2 { assert c[i] == c[2..][i - 2]; }
    }
  }

  lemma LimitIsAscii(tenths: int)
    ensures IsAscii(Limit(tenths))
    ensures Frame(Limit(tenths)).Ok?
  {
    var c := Limit(tenths);
    assert c[2..] == FormatInt(tenths);
    forall i | 0 <= i < |c|
      ensures IsAsciiChar(c[i])
    {
      if i >= 2 { assert c[i] == c[2..][i - 2]; }
    }
  }

  /** Two rate commands are equal exactly when their rates are, and likewise for
      limits: no two settings share a command. */
  lemma RateInjective(a: int, b: int)
    ensures Rate(a) == Rate(b) <==> a == b
  {
  }

  lemma LimitInjective(a: int, b: int)
    ensures Limit(a) == Limit(b) <==> a == b
  {
  }

  /** A rate command and a limit command never coincide. */
  lemma RateIsNotLimit(a: int, b: int)
    ensures Rate(a) != Limit(b)
  {
    assert Rate(a)[0] == 'R' && Limit(b)[0] == 'L';
  }

  /** The wire bytes of the single-letter commands: the letter and a CR. */
  lemma FixedCommandFrames()
    ensures Frame(Start) == Ok([83, 13])
    ensures Frame(Stop) == Ok([69, 13])
    ensures Frame(Hold) == Ok([79, 13])
    ensures Frame(TemperatureQuery) == Ok([84, 13])
  {
    FrameOfLetter('S');
    FrameOfLetter('E');
    FrameOfLetter('O');
    FrameOfLetter('T');
  }

  lemma FrameOfLetter(c: char)
    requires IsAsciiChar(c)
    ensures Frame([c]) == Ok([c as int, CR])
  {
    assert IsAscii([c]);
    FrameOfAscii([c]);
    var b: Byte := c as int;
    assert Encode([c]) == [b];
    assert Encode([c]) + [CR] == [b, CR];
  }

  /** A rate of 2.50 °C/min is sent as "R1250", a limit of 300.0 °C as "L13000"
      and a cooling rate of -1.5 °C/min as "R1-150". */
  lemma CommandExamples()
    ensures Rate(250) == "R1250"
    ensures Limit(3000) == "L13000"
    ensures Rate(-150) == "R1-150"
  {
    assert FormatNat(15) == "15";
    assert FormatNat(150) == "150";
    assert FormatInt(-150) == "-150";
  }

  /** The rate of 2.50 °C/min puts the bytes of "R1250\r" on the wire. */
  lemma RateFrameExample()
    ensures Frame(Rate(250)) == Ok([82, 49, 50, 53, 48, 13])
  {
    CommandExamples();
    var c := Rate(250);
    RateIsAscii(250);
    FrameOfAscii(c);
    var e := Encode(c);
    assert e[0] == 82 && e[1] == 49 && e[2] == 50 && e[3] == 53 && e[4] == 48;
    assert e == [82, 49, 50, 53, 48];
    assert e + [CR] == [82, 49, 50, 53, 48, 13];
  }
}
