# Linkam programmer protocol, in Dafny

This project models the protocol layer of the PyLinkam driver for Linkam T92/T93/T94
temperature programmers: the class `programmer` in `PyLinkam/PyLinkam.py`. The driver
talks to the programmer over RS232. It frames commands, builds the ramp commands
(rate, limit, start, stop, hold) and decodes the reply to the status query "T". That
reply holds a status byte SB1, an error byte EB1 and four ASCII hex digits of
temperature.

The serial handle is abstracted as a `SerialPort.Port`. Its `sent` field is every byte
written so far. Its `lines` field is the results of the coming `readline()` calls. The
driver object is the immutable `Programmer.Programmer`. Each Python method becomes a
function or method that takes the object's state and returns the state after the call.
An attribute that still holds its class default `None` is `Option.None`. The attribute
`T_bytes` has no class default (the class defines `T_Bytes`); it is `None` in the model
until `get_T_bytes` first assigns it, and nothing reads it before that. A Python
exception is a `Results.PyError` value.

Floating point is replaced by scaled integers:

- a ramp rate is an integer number of hundredths of a degree per minute;
- a limit is an integer number of tenths of a degree;
- a temperature is an integer number of tenths of a degree.

Modules, one per concern:

| file | module | models |
|---|---|---|
| results.dfy | Results | Python exceptions as values; `None` |
| ascii.dfy | Ascii | bytes, `bytes(s, 'ascii')`, `chr` |
| decimal.dfy | Decimal | `'%d' % n` and its inverse |
| hex.dfy | Hex | `int(text, 16)` on hex digits, and the 4-digit numeral |
| framing.dfy | Framing | the CR framing of `write` and `read` |
| serial_port.dfy | SerialPort | the abstract serial handle |
| commands.dfy | Commands | the command strings R1, L1, S, E, O, T |
| temperature.dfy | Temperature | the temperature field of the T reply |
| status.dfy | Status | the SB1 table |
| error_byte.dfy | ErrorByte | the EB1 flags, read by mask (the intended decode) |
| literal_error_byte.dfy | LiteralErrorByte | `decode_error_byte` exactly as written |
| programmer.dfy | Programmer | the `programmer` object and its methods |

Behaviours of the code that a caller might not expect, all modelled as written:

- `rate_command` and `limit_command` check no range: any rate whose `rate*100` is finite and any limit whose
  `limit*10` is finite is sent.
- The ramp commands and `start`/`stop`/`hold` call `write` directly. They do not go
  through `query`, so they take no lock and read no reply.
- `get_T_bytes` raises only for replies shorter than 2 bytes. For 2 to 9 bytes the
  slice `[6:10]` silently gives a shorter temperature field, or an empty one.
- The temperature field is read in base 16, so the field "0150" is 0x150 = 336
  tenths, 33.6 °C.
- `decode_error_byte` reads the flags from the right end of `format(EB1, 'b')`.
  `LiteralErrorByte.StringTestIsMaskTest` proves that this position is the right one:
  bit k is set exactly when the character k+1 places from the right end exists and
  is '1'. The defects are the comparison with the integer 1 and the subscripts past
  the start of short strings; see Findings.

## Model

| member | source | states |
|---|---|---|
| Framing.Frame | PyLinkam/PyLinkam.py:58-59 | `write`'s bytes are the command's ASCII codes, in order, followed by exactly one CR, so the length is the command length + 1. The frame exists exactly when the command is ASCII; otherwise the call raises UnicodeEncodeError |
| Framing.Unframe | PyLinkam/PyLinkam.py:46 | `read` drops exactly the last byte of a line, whatever it is, and keeps every earlier byte in place; an empty line gives an empty answer |
| SerialPort.Send | PyLinkam/PyLinkam.py:60 | `ser.write` appends the bytes after everything sent before and leaves the waiting lines alone |
| SerialPort.ReadLine | PyLinkam/PyLinkam.py:46 | `ser.readline()` hands back the next waiting line and consumes it, or an empty line when none waits; it sends nothing |
| Ascii.Encode | PyLinkam/PyLinkam.py:59 | `bytes(text, 'ascii')` gives one byte per character, each below 128, and each byte read back with `chr` is its character |
| Framing.UnframeFrame | PyLinkam/PyLinkam.py:46-60 | stripping the last byte of a frame gives back the command's bytes, and reading them as characters gives back the command |
| Framing.FrameInjective | PyLinkam/PyLinkam.py:58-59 | two commands that put the same bytes on the wire are the same command |
| Decimal.FormatInt | PyLinkam/PyLinkam.py:93 | `%d` gives a minus sign exactly for negative numbers, then a canonical digit string with no leading zero |
| Decimal.NatValueOfFormat | PyLinkam/PyLinkam.py:93 | reading back the decimal digits of n gives n |
| Decimal.FormatOfNatValue | PyLinkam/PyLinkam.py:93 | every canonical digit string is the rendering of its own value, so the rendering is a bijection onto canonical numerals |
| Decimal.FormatIntRoundTrip | PyLinkam/PyLinkam.py:93 | `%d` of any integer, read back as a signed decimal, gives the integer |
| Commands.Rate | PyLinkam/PyLinkam.py:93 | the rate command is "R1" followed by exactly the `%d` text of the rate in hundredths (a sign only for negatives, no leading zero), which parses back to the rate |
| Commands.Limit | PyLinkam/PyLinkam.py:106 | the limit command is "L1" followed by exactly the `%d` text of the limit in tenths (a sign only for negatives, no leading zero), which parses back to the limit |
| Commands.RateIsAscii | PyLinkam/PyLinkam.py:93-94 | every rate command is ASCII, so `write` never raises on it |
| Commands.LimitIsAscii | PyLinkam/PyLinkam.py:106-107 | every limit command is ASCII, so `write` never raises on it |
| Commands.RateInjective | PyLinkam/PyLinkam.py:93 | two rate commands are equal exactly when their rates are |
| Commands.LimitInjective | PyLinkam/PyLinkam.py:106 | two limit commands are equal exactly when their limits are |
| Commands.RateIsNotLimit | PyLinkam/PyLinkam.py:93-106 | no rate command equals a limit command |
| Commands.FixedCommandFrames | PyLinkam/PyLinkam.py:114-134 | start, stop, hold and the status query put exactly "S\r", "E\r", "O\r" and "T\r" on the wire |
| Commands.CommandExamples | PyLinkam/PyLinkam.py:93-106 | 2.50 °C/min gives "R1250", 300.0 °C gives "L13000", -1.50 °C/min gives "R1-150" |
| Commands.RateFrameExample | PyLinkam/PyLinkam.py:93-94 | 2.50 °C/min puts the bytes of "R1250\r" on the wire |
| Hex.Parse | PyLinkam/PyLinkam.py:153 | the model of `int(text, 16)` accepts exactly the non-empty strings of hex digits in either case, returns their big-endian base-16 value (below 16^length), and raises ValueError otherwise |
| Hex.ValueBound | PyLinkam/PyLinkam.py:153 | an n-digit hex numeral is below 16^n |
| Hex.ValueOfNumeral | PyLinkam/PyLinkam.py:153 | writing any n below 16^w as w hex digits and reading it back gives n |
| Hex.NumeralOfValue | PyLinkam/PyLinkam.py:153 | reading a w-digit numeral and writing the value back with w digits gives the numeral with its letters upper-cased |
| Temperature.Decode | PyLinkam/PyLinkam.py:150-153 | the field decodes exactly when it is non-empty and every byte is a hex digit; the value in tenths is below 16^length; otherwise ValueError |
| Temperature.DecodeRange | PyLinkam/PyLinkam.py:150-155 | a decoded 4-byte field lies in 0..65535 tenths, 0.0 to 6553.5 °C |
| Temperature.DecodeField | PyLinkam/PyLinkam.py:150-155 | every temperature of 0..65535 tenths, sent as 4 hex digits, decodes to itself |
| Temperature.FieldOfDecode | PyLinkam/PyLinkam.py:150-153 | re-encoding a decoded 4-byte field gives the field back up to letter case, so decoding loses nothing else |
| Temperature.DecodeExamples | PyLinkam/PyLinkam.py:150-155 | "0150" reads as 336 tenths and the mixed-case "1a2F" as 6703 tenths |
| Status.Decode | PyLinkam/PyLinkam.py:167-182 | every byte decodes. The fallback comes out exactly for bytes outside {0x01, 0x10, 0x20, 0x30, 0x40, 0x50}, and a known state comes out only for its own code |
| Status.DecodeCode | PyLinkam/PyLinkam.py:168-179 | each of the six states decodes back from its code |
| Status.MessageInjective | PyLinkam/PyLinkam.py:168-181 | the seven messages are pairwise distinct, so the returned text identifies the state |
| Status.StatusTable | PyLinkam/PyLinkam.py:167-182 | 0x01, 0x10, 0x20, 0x30, 0x40 and 0x50 are stopped, heating, cooling, holding at the limit, holding the limit time and holding the current temperature; 0x00 and 0xFF are the fallback |
| Status.Message | PyLinkam/PyLinkam.py:167-181 | the seven strings of `decode_status_byte`; "problem reading SB1" is the message of the fallback and of no known state |
| ErrorByte.Decode | PyLinkam/PyLinkam.py:193-211 | the intended decode returns "no error" exactly when no condition is flagged, and otherwise the texts of the flagged conditions one after the other; with `FlagsIndependent` that is each set bit's text, bit 0 first |
| ErrorByte.FlagsIndependent | PyLinkam/PyLinkam.py:196-207 | a condition is reported exactly when its own bit is set, whatever the other bits hold, and the reports come from bit 0 to bit 5 without repeats |
| ErrorByte.NoErrorIffLowBitsClear | PyLinkam/PyLinkam.py:209-210 | "no error" is returned exactly when bits 0 to 5 are all clear |
| ErrorByte.HighBitsIrrelevant | PyLinkam/PyLinkam.py:193-207 | bits 6 and 7 never change the message |
| ErrorByte.FlagSetOfEncode | PyLinkam/PyLinkam.py:196-207 | encoding any set of conditions as a byte and decoding it gives the set back |
| ErrorByte.EncodeOfFlagSet | PyLinkam/PyLinkam.py:196-207 | decoding a byte and encoding its conditions gives back its low six bits |
| ErrorByte.TextsSeparate | PyLinkam/PyLinkam.py:196-207 | no two of the six texts begin alike, so a message that starts with one condition's text starts with no other's |
| ErrorByte.JoinInjective | PyLinkam/PyLinkam.py:196-207 | two different lists of conditions never give the same message |
| ErrorByte.DecodeOnlyLowBits | PyLinkam/PyLinkam.py:193-211 | two bytes give the same message exactly when they agree on bits 0 to 5, so the message loses nothing about the six flags |
| ErrorByte.FlagsUnrolled | PyLinkam/PyLinkam.py:196-207 | the flagged conditions are the six tests one after the other, bit 0 first, each contributing its condition exactly when its bit is set |
| ErrorByte.DecodeClearByte | PyLinkam/PyLinkam.py:209-210 | 0x00 gives "no error" |
| ErrorByte.DecodeBit0 | PyLinkam/PyLinkam.py:196-197 | 0x01 gives only the cooling-rate text |
| ErrorByte.DecodeBit5 | PyLinkam/PyLinkam.py:206-207 | 0x20 gives only the RS232 text |
| ErrorByte.DecodeBits0And5 | PyLinkam/PyLinkam.py:196-207 | 0x21 gives the cooling-rate text and then the RS232 text |
| ErrorByte.Text | PyLinkam/PyLinkam.py:196-207 | each condition's text is the line the code appends for it, and it begins with that condition's two initial characters, which differ from condition to condition |
| LiteralErrorByte.Binary | PyLinkam/PyLinkam.py:193 | `format(b, 'b')` is a non-empty string of binary digits |
| LiteralErrorByte.Checks | PyLinkam/PyLinkam.py:196-207 | the six tests as written, `EB1[-k]` for k from 1 to 6: they raise IndexError exactly when a test remains and the string has fewer than 6 digits |
| LiteralErrorByte.BinaryLength | PyLinkam/PyLinkam.py:193-207 | the binary string is longer than k digits exactly when the byte reaches 2^k, so `EB1[-6]` exists exactly from 32 up |
| LiteralErrorByte.ChecksNeverAppend | PyLinkam/PyLinkam.py:196-207 | as written, no test ever fires: the six checks raise IndexError on a string shorter than 6 digits and otherwise leave the message as it was |
| LiteralErrorByte.Decode | PyLinkam/PyLinkam.py:193-211 | as written, `decode_error_byte` raises IndexError exactly for bytes below 32 and returns "no error" for every other byte |
| LiteralErrorByte.AgreesOnlyOnHighBytes | PyLinkam/PyLinkam.py:193-211 | the code as written gives the intended result exactly for bytes of 32 or more whose bits 0 to 5 are clear: 64, 128 and 192 |
| LiteralErrorByte.StringTestIsMaskTest | PyLinkam/PyLinkam.py:196-207 | bit k is set exactly when the string has a character k+1 places from its right end and that character is '1'. So the right-end indexing matches the mask test, given a comparison with '1' and a guard for short strings |
| LiteralErrorByte.Divergence | PyLinkam/PyLinkam.py:193-211 | 0x01 raises where the intended decode reports the cooling rate; 0x21 returns "no error" where it reports the cooling rate and the RS232 problem |
| Programmer.Write | PyLinkam/PyLinkam.py:49-60 | `write` appends the command's bytes and one CR to what was sent and consumes no reply. It raises UnicodeEncodeError without sending when the command is not ASCII, and it changes no attribute |
| Programmer.Read | PyLinkam/PyLinkam.py:36-47 | `read` consumes the next waiting line and returns it without its last byte (nothing if no line waits), sends nothing and changes no attribute |
| Programmer.Open | PyLinkam/PyLinkam.py:12-34 | a new `programmer` holds its port and no reply: `decode_status_byte` reports "problem reading SB1" and `decode_error_byte` raises TypeError, since SB1 and EB1 still hold their class default None |
| Programmer.Query | PyLinkam/PyLinkam.py:62-80 | `query` sends the framed command, then returns the answer to the next waiting line and consumes that line; with no line waiting the answer is empty and none remain; a non-ASCII command raises and changes nothing |
| Programmer.RateCommand | PyLinkam/PyLinkam.py:83-94 | `rate_command` sends "R1", the rate in hundredths and CR, for any rate whose `rate*100` is finite, and reads nothing |
| Programmer.LimitCommand | PyLinkam/PyLinkam.py:96-107 | `limit_command` sends "L1", the limit in tenths and CR, for any limit whose `limit*10` is finite, and reads nothing |
| Programmer.Start | PyLinkam/PyLinkam.py:109-114 | `start` sends exactly "S\r" and changes nothing else |
| Programmer.Stop | PyLinkam/PyLinkam.py:116-120 | `stop` sends exactly "E\r" and changes nothing else |
| Programmer.Hold | PyLinkam/PyLinkam.py:122-128 | `hold` sends exactly "O\r" and changes nothing else |
| Programmer.Slice | PyLinkam/PyLinkam.py:138 | the slice `[6:10]` is exactly bytes 6..9 of a reply of 10 bytes or more, bytes 6 to the end of a reply of 7 to 9 bytes, and empty for a reply of 6 bytes or fewer |
| Programmer.GetTBytes | PyLinkam/PyLinkam.py:130-138 | `get_T_bytes` sends "T\r" and stores the answer. It succeeds exactly when the answer has 2 bytes or more, storing byte 0 as SB1, byte 1 as EB1 and bytes 6..9 (4 bytes when the answer has 10) as the temperature field. Otherwise it raises IndexError: a 1-byte answer has already set SB1, and an empty one leaves SB1 unchanged. It consumes the waiting line, if any |
| Programmer.DecodeTemperature | PyLinkam/PyLinkam.py:140-155 | `decode_temperature` gives the base-16 value of the stored field's characters and stores it as T_C. It raises TypeError before any reply, raises ValueError on a field that is not hex, and leaves the state unchanged when it raises |
| Programmer.DecodeStatusByte | PyLinkam/PyLinkam.py:157-182 | `decode_status_byte` gives "problem reading SB1" exactly when SB1 is unset or not one of the six codes, and otherwise the message of the state whose code SB1 is |
| Programmer.DecodeErrorByte | PyLinkam/PyLinkam.py:183-211 | `decode_error_byte` raises TypeError exactly when EB1 is unset. Otherwise it returns the intended mask decode, which is "no error" exactly when bits 0 to 5 are clear |
| Programmer.PollReply | PyLinkam/PyLinkam.py:130-182 | when `readline()` returns the whole reply as one line, then for every status byte, error byte, four reserved bytes and temperature of 0..65535 tenths sent as 4 hex digits then CR, `get_T_bytes` completes, consumes the line, stores both bytes and the field, the status and error decodes read those bytes, and the field decodes to the temperature sent |

## Findings

| source | as written | input that shows it | evidently intended | confidence | as-written member | corrected member |
|---|---|---|---|---|---|---|
| PyLinkam/PyLinkam.py:196-207 | each test compares a one-character string with the integer 1, which is never equal in Python, so no flag is ever reported | EB1 = 0x21 returns "no error" | report "Cooling rate cannot be maintained" and "Problems with the RS232 data transmission" | high; not executed | LiteralErrorByte.Decode, LiteralErrorByte.Divergence | ErrorByte.Decode |
| PyLinkam/PyLinkam.py:193-198 | `EB1[-k]` subscripts past the start of `format(EB1, 'b')`, which has fewer than 6 digits for every byte below 32 | EB1 = 0x01 raises IndexError | report "Cooling rate cannot be maintained" | high; not executed | LiteralErrorByte.Decode, LiteralErrorByte.Divergence | ErrorByte.Decode |

The rest of the model, `Programmer.DecodeErrorByte`, uses the corrected decode.

## Left out

- Opening the serial port (19200 baud, 8-N-1, RTS/CTS, zero timeout; PyLinkam/PyLinkam.py:27-34) and closing it in `__del__`: foreign I/O. `Programmer.Open` starts from an already open port.
- The `threading.Lock` in `query` (PyLinkam/PyLinkam.py:77-80): concurrency. `Programmer.Query` is a write followed by a read; the ramp and start/stop/hold commands never took the lock.
- How `readline()` finds a line: it waits for LF, not CR, and with the zero timeout it returns whatever has arrived. This is timing on foreign I/O. The port's `lines` stand for whatever each call returns. A reply byte equal to LF (0x0A) in SB1, EB1 or the reserved bytes ends the line early, so `get_T_bytes` sees a short answer (with EB1 = 0x0A it keeps only SB1 and raises IndexError) and the rest of the reply stays waiting; `Programmer.PollReply` covers only a reply read as one line.
- Programmer.RateCommand: takes the rate already scaled to an integer of hundredths. The `%d` truncation of the float `rate*100` is not modelled, so binary rounding (2.55 giving 254) is outside the model. A rate whose scaled float `rate*100` is infinite or NaN makes `%d` raise OverflowError or ValueError before `write`, and nothing is sent; that error path is not modelled either.
- Programmer.LimitCommand: takes the limit already scaled to an integer of tenths, for the same reason. A limit whose scaled float `limit*10` is infinite or NaN makes `%d` raise OverflowError or ValueError before `write`, and nothing is sent; that error path is not modelled either.
- Programmer.DecodeTemperature: returns tenths of a degree. The final float division by 10 is not modelled.
- Temperature.Decode: treats as ValueError the forms Python's `int(text, 16)` also accepts: surrounding whitespace, a sign, a "0x" prefix and underscores between digits. The programmer sends plain digits.
- Hex.Parse: the same restriction as Temperature.Decode. Python's `int(text, 16)` also reads decimal digits of other scripts (Unicode category Nd, such as "\u0661\u0662", which is 18); these are ValueError here. They cannot reach `decode_temperature`, whose text is `chr` of bytes, all below U+0100, where the only Nd characters are 0-9.
- The class attributes `PB1` and `T_Bytes`, which no method uses. The other class-level defaults, shared between instances in Python, are per-object fields here.
- PyLinkam/Pyqt_Widget.py and PyLinkam/Pyqt_App.py: user interface, a polling thread and application start-up. The widget also reads attributes (`temperature`, `status`, `error`, `rate`, `limit`) and calls methods (`set_rate`, `set_limit`) that `programmer` does not define.
- The `print` in `__del__`: output only.
