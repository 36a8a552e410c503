/** The temperature field of the reply to "T": four ASCII hex digits giving the
    temperature in tenths of a degree Celsius. */
module Temperature {
  import opened Results
  import opened Ascii
  import opened Hex

  /** `int(''.join(chr(b) for b in field), 16)`, in tenths of a degree: the
      big-endian base-16 value of the digits. Empty text or a character that is
      not a hex digit raises ValueError. */
  function Decode(field: seq<Byte>): (r: Result<nat>)
    ensures r.Ok? <==> |field| > 0 && AllHexDigits(Chars(field))
    ensures r.Ok? ==> r.value < Pow16(|field|)
    ensures r.Err? ==> r.error == ValueError
  {
    var text := Chars(field);
    if |text| > 0 && AllHexDigits(text) then
      ValueBound(text);
      Ok(Value(text))
    else
      Err(ValueError)
  }

  /** The four bytes the programmer sends for a temperature of `tenths`. */
  function Field(tenths: nat): (f: seq<Byte>)
    requires tenths < 0x1_0000
    ensures |f| == 4
  {
    var text := Numeral(tenths, 4);
    assert IsAscii(text);
    Encode(text)
  }

  /** A decoded four-digit field lies between 0.0 °C and 6553.5 °C. */
  lemma DecodeRange(field: seq<Byte>)
    requires |field| == 4 && Decode(field).Ok?
    ensures 0 <= Decode(field).value <= 65535
  {
    assert Pow16(4) == 65536;
  }

  /** Encoding any temperature from 0.0 to 6553.5 °C and decoding it gives it back. */
  lemma DecodeField(tenths: nat)
    requires tenths < 0x1_0000
    ensures Decode(Field(tenths)) == Ok(tenths)
  {
    var text := Numeral(tenths, 4);
    assert IsAscii(text);
    CharsOfEncode(text);
    assert Pow16(4) == 0x1_0000;
    ValueOfNumeral(tenths, 4);
  }

  /** Decoding a valid field and encoding the value gives the field back, with
      lower-case letters raised: the decode loses nothing but letter case. */
  lemma FieldOfDecode(field: seq<Byte>)
    requires |field| == 4 && Decode(field).Ok?
    ensures Field(Decode(field).value) == Encode(UpperAll(Chars(field)))
  {
    var text := Chars(field);
    NumeralOfValue(text);
    assert Pow16(4) == 0x1_0000;
  }

  /** The field "0150" reads as 33.6 °C (0x150 tenths), and "1a2F" as 670.3 °C. */
  lemma DecodeExamples()
    ensures Decode([0x30, 0x31, 0x35, 0x30]) == Ok(336)
    ensures Decode([0x31, 0x61, 0x32, 0x46]) == Ok(6703)
  {
    var a := Chars([0x30, 0x31, 0x35, 0x30]);
    assert a == "0150";
    assert Value("0150") == 336 by {
      assert "0150"[..3] == "015" && "015"[..2] == "01" && "01"[..1] == "0";
    }
    var b := Chars([0x31, 0x61, 0x32, 0x46]);
    assert b == "1a2F";
    assert Value("1a2F") == 6703 by {
      assert "1a2F"[..3] == "1a2" && "1a2"[..2] == "1a" && "1a"[..1] == "1";
    }
  }
}
