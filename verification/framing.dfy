/** The framing of `programmer.write` and `programmer.read`: a command goes out
    as its ASCII bytes plus one carriage return, and a reply line loses its
    last byte. */
module Framing {
  import opened Results
  import opened Ascii

  /** `bytes(command + "\r", 'ascii')`: the bytes `write` hands to the port.
      A character outside ASCII makes the codec raise before anything is sent. */
  function Frame(command: string): (r: Result<seq<Byte>>)
    ensures r.Ok? <==> IsAscii(command)
    ensures r.Err? ==> r.error == UnicodeEncodeError
    ensures r.Ok? ==> |r.value| == |command| + 1 && r.value[|command|] == CR
    ensures r.Ok? ==> forall i :: 0 <= i < |command| ==> r.value[i] == command[i] as int
  {
    var text := command + "\r";
    assert forall i :: 0 <= i < |command| ==> text[i] == command[i];
    if IsAscii(text) then Ok(Encode(text)) else Err(UnicodeEncodeError)
  }

  /** `line[0:-1]`: every byte of the line but the last, which the driver takes
      to be the carriage return without looking at it. */
  function Unframe(line: seq<Byte>): (answer: seq<Byte>)
    ensures |line| == 0 ==> answer == []
    ensures |line| > 0 ==> |answer| == |line| - 1
    ensures forall i :: 0 <= i < |answer| ==> answer[i] == line[i]
  {
    if |line| == 0 then [] else line[..|line| - 1]
  }

  /** Stripping a frame gives back exactly the command's bytes, and reading
      those as characters gives back the command. */
  lemma UnframeFrame(command: string)
    requires IsAscii(command)
    ensures Frame(command).Ok?
    ensures Unframe(Frame(command).value) == Encode(command)
    ensures Chars(Unframe(Frame(command).value)) == command
  {
    var f := Frame(command).value;
    assert Unframe(f) == Encode(command);
    CharsOfEncode(command);
  }

  /** For ASCII text the frame is the text's own encoding followed by one CR. */
  lemma FrameOfAscii(command: string)
    requires IsAscii(command)
    ensures Frame(command) == Ok(Encode(command) + [CR])
  {
    var f := Frame(command).value;
    assert f == Encode(command) + [CR];
  }

  /** Framing is injective: two commands that put the same bytes on the wire
      are the same command. */
  lemma FrameInjective(a: string, b: string)
    requires Frame(a).Ok? && Frame(b).Ok?
    requires Frame(a) == Frame(b)
    ensures a == b
  {
    UnframeFrame(a);
    UnframeFrame(b);
  }
}
