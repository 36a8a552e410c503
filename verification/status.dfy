/** The status byte SB1 of the reply to "T" and the six states it names. */
module Status {
  import opened Ascii

  /** The programmer states the status byte reports, plus the fallback for any
      other byte. */
  datatype State =
    | Stopped
    | Heating
    | Cooling
    | HoldingAtLimit            // limit reached, or the end of a ramp
    | HoldingLimitTime
    | HoldingCurrentTemperature
    | ProblemReading            // a byte outside the table

  /** The byte the programmer sends for each known state. */
  function Code(s: State): (b: Byte)
    requires s != ProblemReading
  {
    match s
    case Stopped => 0x01
    case Heating => 0x10
    case Cooling => 0x20
    case HoldingAtLimit => 0x30
    case HoldingLimitTime => 0x40
    case HoldingCurrentTemperature => 0x50
  }

  predicate IsKnownCode(b: Byte) {
    b == 0x01 || b == 0x10 || b == 0x20 || b == 0x30 || b == 0x40 || b == 0x50
  }

  /** The table of `decode_status_byte`, compared in the order `programmer.decode_status_byte` uses. Every byte
      decodes; a known state is decoded from exactly its own code. */
  function Decode(b: Byte): (s: State)
    ensures s == ProblemReading <==> !IsKnownCode(b)
    ensures s != ProblemReading ==> Code(s) == b
  {
    if b == 0x01 then Stopped
    else if b == 0x10 then Heating
    else if b == 0x20 then Cooling
    else if b == 0x30 then HoldingAtLimit
    else if b == 0x40 then HoldingLimitTime
    else if b == 0x50 then HoldingCurrentTemperature
    else ProblemReading
  }

  /** The message `programmer.decode_status_byte` returns for each state. */
  function Message(s: State): (m: string)
    ensures m == "problem reading SB1" <==> s == ProblemReading
  {
    match s
    case Stopped => "stopped"
    case Heating => "heating"
    case Cooling => "cooling"
    case HoldingAtLimit => "holding at the limit or limit reached end of a ramp"
    case HoldingLimitTime => "holding the limit time"
    case HoldingCurrentTemperature => "holding the current temperature"
    case ProblemReading => "problem reading SB1"
  }

  /** Decoding the code of a known state gives that state back. */
  lemma DecodeCode(s: State)
    requires s != ProblemReading
    ensures Decode(Code(s)) == s
  {
  }

  /** Distinct states have distinct messages, so the returned string tells
      the caller the state. */
  lemma MessageInjective(s: State, t: State)
    ensures Message(s) == Message(t) <==> s == t
  {
  }

  /** The six codes of the table, in the order `programmer.decode_status_byte`
      tests them. */
  lemma StatusTable()
    ensures Decode(0x01) == Stopped && Decode(0x10) == Heating && Decode(0x20) == Cooling
    ensures Decode(0x30) == HoldingAtLimit && Decode(0x40) == HoldingLimitTime
    ensures Decode(0x50) == HoldingCurrentTemperature
    ensures Decode(0x00) == ProblemReading && Decode(0xFF) == ProblemReading
  {
  }
}
