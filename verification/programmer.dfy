/** The `programmer` driver object: the serial port it owns and the attributes
    its methods fill in (SB1, EB1, T_bytes, T_C_bytes, T_C). Every method takes
    the object's state and returns the state after the call. */
module Programmer {
  import opened Results
  import opened Ascii
  import opened Framing
  import opened SerialPort
  import Commands
  import Hex
  import Temperature
  import Status
  import ErrorByte

  /** SB1, EB1, T_C_bytes and T_C start at their class-level default, None.
      `tBytes` stands for the instance attribute `T_bytes`, which has no class
      default (the class defines `T_Bytes` instead); it is None here until
      `get_T_bytes` first assigns it, and nothing reads it before that. */
  datatype Programmer = Programmer(
    port: Port,
    sb1: Option<Byte>,
    eb1: Option<Byte>,
    tBytes: Option<seq<Byte>>,
    tcBytes: Option<seq<Byte>>,
    tc: Option<nat>)   // T_C, in tenths of a degree

  /** A driver on a freshly opened port, before any reply has been read: its
      status byte reads as a problem and decoding its error byte raises. */
  function Open(port: Port): (p: Programmer)
    ensures p.port == port
    ensures DecodeStatusByte(p) == Status.Message(Status.ProblemReading)
    ensures DecodeErrorByte(p) == Err(TypeError)
  {
    Programmer(port, None, None, None, None, None)
  }

  /** The line the next `read` returns: the next waiting line without its last byte. */
  function NextAnswer(port: Port): seq<Byte> {
    Unframe(ReadLine(port).1)
  }

  /** `write`: the ASCII bytes of the command and one CR go out; nothing is read
      and no attribute changes. A non-ASCII command raises before any byte is sent. */
  function Write(p: Programmer, command: string): (r: (Programmer, Outcome))
    ensures r.1.Completed? <==> IsAscii(command)
    ensures r.1.Completed? ==> r.0.port.sent == p.port.sent + Encode(command) + [CR]
    ensures r.1.Raised? ==> r.1.error == UnicodeEncodeError && r.0 == p
    ensures r.0.port.lines == p.port.lines
    ensures r.0.(port := p.port) == p
  {
    match Frame(command)
    case Err(e) => (p, Raised(e))
    case Ok(bytes) =>
      FrameOfAscii(command);
      (p.(port := Send(p.port, bytes)), Completed)
  }

  /** `read`: consumes the next waiting line and returns it without its last byte;
      with no line waiting it returns nothing. */
  function Read(p: Programmer): (r: (Programmer, seq<Byte>))
    ensures |p.port.lines| > 0 ==> r.0.port.lines == p.port.lines[1..]
    ensures |p.port.lines| > 0 ==> r.1 == Unframe(p.port.lines[0])
    ensures |p.port.lines| == 0 ==> r.1 == [] && r.0 == p
    ensures r.0.port.sent == p.port.sent
    ensures r.0.(port := p.port) == p
  {
    var (port, line) := ReadLine(p.port);
    (p.(port := port), Unframe(line))
  }

  /** `query`: a write followed by the read of its reply. */
  function Query(p: Programmer, command: string): (r: (Programmer, Result<seq<Byte>>))
    ensures r.1.Ok? <==> IsAscii(command)
    ensures r.1.Err? ==> r.1.error == UnicodeEncodeError && r.0 == p
    ensures r.1.Ok? ==> r.0.port.sent == p.port.sent + Encode(command) + [CR]
    ensures r.1.Ok? ==> r.1.value == NextAnswer(p.port)
    ensures r.1.Ok? && |p.port.lines| > 0 ==> r.0.port.lines == p.port.lines[1..]
    ensures |p.port.lines| == 0 ==> r.0.port.lines == []
    ensures r.0.(port := p.port) == p
  {
    var (written, o) := Write(p, command);
    match o
    case Raised(e) => (p, Err(e))
    case Completed =>
      var (q, answer) := Read(written);
      (q, Ok(answer))
  }

  /** The state after writing a command the ASCII codec accepts. */
  function Sent(p: Programmer, command: string): (q: Programmer)
    requires IsAscii(command)
    ensures q.port.sent == p.port.sent + Encode(command) + [CR]
    ensures q.port.lines == p.port.lines
    ensures q.(port := p.port) == p
  {
    Write(p, command).0
  }

  /** `rate_command`: sends "R1" and the rate in hundredths of a degree per
      minute, with no range check and without reading a reply. */
  function RateCommand(p: Programmer, hundredths: int): (q: Programmer)
    ensures q.port.sent == p.port.sent + Encode(Commands.Rate(hundredths)) + [CR]
    ensures q.port.lines == p.port.lines
    ensures q.(port := p.port) == p
  {
    Commands.RateIsAscii(hundredths);
    Sent(p, Commands.Rate(hundredths))
  }

  /** `limit_command`: sends "L1" and the limit in tenths of a degree, with no
      range check and without reading a reply. */
  function LimitCommand(p: Programmer, tenths: int): (q: Programmer)
    ensures q.port.sent == p.port.sent + Encode(Commands.Limit(tenths)) + [CR]
    ensures q.port.lines == p.port.lines
    ensures q.(port := p.port) == p
  {
    Commands.LimitIsAscii(tenths);
    Sent(p, Commands.Limit(tenths))
  }

  /** `start`, `stop` and `hold` send "S\r", "E\r" and "O\r" and read nothing. */
  function Start(p: Programmer): (q: Programmer)
    ensures q == p.(port := p.port.(sent := p.port.sent + [83, 13]))
  {
    Commands.FixedCommandFrames();
    Write(p, Commands.Start).0
  }

  function Stop(p: Programmer): (q: Programmer)
    ensures q == p.(port := p.port.(sent := p.port.sent + [69, 13]))
  {
    Commands.FixedCommandFrames();
    Write(p, Commands.Stop).0
  }

  function Hold(p: Programmer): (q: Programmer)
    ensures q == p.(port := p.port.(sent := p.port.sent + [79, 13]))
  {
    Commands.FixedCommandFrames();
    Write(p, Commands.Hold).0
  }

  /** `T_bytes[6:10]`: Python slicing, which shortens instead of raising. */
  function Slice(s: seq<Byte>, lo: nat, hi: nat): (r: seq<Byte>)
    requires lo <= hi
    ensures |s| >= hi ==> r == s[lo..hi]
    ensures lo < |s| < hi ==> r == s[lo..]
    ensures |s| <= lo ==> r == []
  {
    var l := if lo < |s| then lo else |s|;
    var h := if hi < |s| then hi else |s|;
    s[l..h]
  }

  /** `get_T_bytes`: queries "T" and stores the reply, then its status byte, its
      error byte and bytes 6 to 9. Each assignment happens in the order
      `get_T_bytes` makes it, so a reply of one byte updates SB1 before the
      subscript for EB1 raises. */
  function GetTBytes(p: Programmer): (r: (Programmer, Outcome))
    ensures r.0.port.sent == p.port.sent + [84, 13]
    ensures |p.port.lines| > 0 ==> r.0.port.lines == p.port.lines[1..]
    ensures |p.port.lines| == 0 ==> r.0.port.lines == []
    ensures r.0.tBytes == Some(NextAnswer(p.port))
    ensures r.1.Completed? <==> |NextAnswer(p.port)| >= 2
    ensures r.1.Raised? ==> r.1.error == IndexError
    ensures var a := NextAnswer(p.port);
      && (|a| >= 1 ==> r.0.sb1 == Some(a[0]))
      && (|a| == 0 ==> r.0.sb1 == p.sb1)
      && (|a| >= 2 ==> r.0.eb1 == Some(a[1]) && r.0.tcBytes == Some(Slice(a, 6, 10)))
      && (|a| < 2 ==> r.0.eb1 == p.eb1 && r.0.tcBytes == p.tcBytes)
      && (|a| >= 10 ==> r.0.tcBytes == Some(a[6..10]))
    ensures r.0.tc == p.tc
  {
    Commands.FixedCommandFrames();
    var (q, reply) := Query(p, Commands.TemperatureQuery);
    var answer := reply.value;
    var q := q.(tBytes := Some(answer));
    if |answer| == 0 then (q, Raised(IndexError))
    else
      var q := q.(sb1 := Some(answer[0]));
      if |answer| == 1 then (q, Raised(IndexError))
      else (q.(eb1 := Some(answer[1]), tcBytes := Some(Slice(answer, 6, 10))), Completed)
  }

  /** `decode_temperature`: joins the characters of the stored field, reads them
      as a hex numeral and stores the value (in tenths of a degree) as T_C.
      Before any reply the field is None, which is not iterable. */
  method DecodeTemperature(p: Programmer) returns (q: Programmer, r: Result<nat>)
    ensures p.tcBytes.None? ==> r == Err(TypeError)
    ensures p.tcBytes.Some? ==> r == Temperature.Decode(p.tcBytes.value)
    ensures r.Ok? ==> q == p.(tc := Some(r.value))
    ensures r.Err? ==> q == p
  {
    if p.tcBytes.None? {
      return p, Err(TypeError);
    }
    var field := p.tcBytes.value;
    var hexTemp := "";
    for i := 0 to |field|
      invariant hexTemp == Chars(field[..i])
    {
      hexTemp := hexTemp + [Chr(field[i])];
    }
    assert field[..|field|] == field;
    r := Hex.Parse(hexTemp);
    q := if r.Ok? then p.(tc := Some(r.value)) else p;
  }

  /** `decode_status_byte`: the message for the stored status byte. The class
      default None equals none of the codes, so it reads as a problem too. */
  function DecodeStatusByte(p: Programmer): (message: string)
    ensures message == Status.Message(Status.ProblemReading)
      <==> p.sb1.None? || !Status.IsKnownCode(p.sb1.value)
    ensures p.sb1.Some? && Status.IsKnownCode(p.sb1.value) ==>
      exists s :: s != Status.ProblemReading && Status.Code(s) == p.sb1.value
        && message == Status.Message(s)
  {
    match p.sb1
    case None => Status.Message(Status.ProblemReading)
    case Some(b) =>
      var s := Status.Decode(b);
      Status.MessageInjective(s, Status.ProblemReading);
      Status.Message(s)
  }

  /** `decode_error_byte`, with the flags read by mask as the driver intends.
      Before any reply the byte is None, which `format` rejects. */
  function DecodeErrorByte(p: Programmer): (r: Result<string>)
    ensures r.Err? <==> p.eb1.None?
    ensures r.Err? ==> r.error == TypeError
    ensures r.Ok? ==> (r.value == ErrorByte.NoError <==> p.eb1.value % 64 == 0)
    ensures r.Ok? ==> r.value == ErrorByte.Decode(p.eb1.value)
  {
    match p.eb1
    case None => Err(TypeError)
    case Some(b) =>
      ErrorByte.NoErrorIffLowBitsClear(b);
      Ok(ErrorByte.Decode(b))
  }

  /** One poll, for every reply that `readline()` hands back as one line: a
      status byte, an error byte, four reserved bytes and a temperature of 0.0
      to 6553.5 °C as four hex digits, then CR. (A reply byte equal to LF would
      end the line early.) `get_T_bytes` completes, stores the two bytes and the
      field, and the field decodes to the temperature sent. */
  lemma PollReply(p: Programmer, sb: Byte, eb: Byte, reserved: seq<Byte>, tenths: nat)
    requires |reserved| == 4 && tenths < 0x1_0000
    requires |p.port.lines| > 0
    requires p.port.lines[0] == [sb, eb] + reserved + Temperature.Field(tenths) + [CR]
    ensures var (q, o) := GetTBytes(p);
      && o == Completed
      && q.port.lines == p.port.lines[1..]
      && q.sb1 == Some(sb) && q.eb1 == Some(eb)
      && q.tcBytes == Some(Temperature.Field(tenths))
      && DecodeStatusByte(q) == Status.Message(Status.Decode(sb))
      && DecodeErrorByte(q) == Ok(ErrorByte.Decode(eb))
      && Temperature.Decode(q.tcBytes.value) == Ok(tenths)
  {
    var field := Temperature.Field(tenths);
    var answer := [sb, eb] + reserved + field;
    var line := answer + [CR];
    assert Unframe(line) == answer;
    assert NextAnswer(p.port) == answer;
    assert answer[0] == sb && answer[1] == eb;
    assert answer[6..10] == field;
    Temperature.DecodeField(tenths);
  }
}
