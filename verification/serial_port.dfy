/** The serial handle, abstracted: what has been written to it, and the
    successive lines `readline()` will hand back. */
module SerialPort {
  import opened Ascii

  /** `sent` is every byte written so far; `lines` are the results of the
      coming `readline()` calls. With the port's zero timeout a `readline()`
      with nothing waiting returns an empty line. */
  datatype Port = Port(sent: seq<Byte>, lines: seq<seq<Byte>>)

  /** `ser.write(bytes)`. */
  function Send(port: Port, bytes: seq<Byte>): (p: Port)
    ensures p.sent == port.sent + bytes && p.lines == port.lines
  {
    port.(sent := port.sent + bytes)
  }

  /** `ser.readline()`: the next waiting line, or an empty one. */
  function ReadLine(port: Port): (r: (Port, seq<Byte>))
    ensures r.0.sent == port.sent
    ensures |port.lines| > 0 ==> r.1 == port.lines[0] && r.0.lines == port.lines[1..]
    ensures |port.lines| == 0 ==> r.1 == [] && r.0 == port
  {
    if |port.lines| == 0 then (port, []) else (port.(lines := port.lines[1..]), port.lines[0])
  }
}
