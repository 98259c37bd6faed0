/** The input report the joystick task sends for one command: four 16-bit
    little-endian axis fields holding `axis - 1000`, then the button mask. The
    arithmetic is that of the C code: the subtraction happens in `int`, the low
    byte is taken with `& 0xff`, the high byte with an arithmetic `>> 8`, and both
    are truncated to `uint8_t`. */
module ReportEncoder {
  import opened HidTypes

  /** sizeof(a): bytes in one input report. */
  const ReportLength: nat := 9
  /** Subtracted from every axis before it is sent. */
  const AxisOffset: int := 1000
  /** Index of the button mask in the report. */
  const ButtonsIndex: nat := 8

  /** Conversion of an int to uint8_t: the value modulo 256. For an int in two's
      complement this is also `v & 0xff`. */
  function ToUint8(v: int): byte
  {
    v % 0x100
  }

  /** `v >> 8` on a (possibly negative) int, shifting arithmetically as the
      target compiler does; Dafny's `/` by a positive divisor rounds down, which
      is exactly that shift. */
  function ShiftRight8(v: int): int
  {
    v / 0x100
  }

  /** `(axis - 1000) & 0xff` */
  function LowByte(axis: u16): byte
  {
    ToUint8(axis - AxisOffset)
  }

  /** `(axis - 1000) >> 8`, stored into a uint8_t */
  function HighByte(axis: u16): byte
  {
    ToUint8(ShiftRight8(axis - AxisOffset))
  }

  /** The 16-bit little-endian field at bytes 2i and 2i + 1. */
  function Field(a: seq<byte>, i: nat): u16
    requires 2 * i + 1 < |a|
  {
    a[2 * i] as int + 0x100 * a[2 * i + 1] as int
  }

  /** Low and high byte of v put back together give v modulo 2^16, for every
      int v, negative ones included. */
  lemma {:induction false} BytesOfOffset(v: int)
    ensures ToUint8(v) + 0x100 * ToUint8(ShiftRight8(v)) == v % 0x1_0000
  {
    var q, r := v / 0x100, v % 0x100;
    var hi, lo := q / 0x100, q % 0x100;
    assert v == 0x100 * q + r;
    assert q == 0x100 * hi + lo;
    assert v == 0x1_0000 * hi + (0x100 * lo + r);
    assert 0 <= 0x100 * lo + r < 0x1_0000;
    DivModUnique(v, hi, 0x100 * lo + r);
  }

  /** Quotient and remainder by 2^16 are unique. */
  lemma DivModUnique(v: int, q: int, r: int)
    requires 0 <= r < 0x1_0000 && v == 0x1_0000 * q + r
    ensures v / 0x1_0000 == q && v % 0x1_0000 == r
  {
  }

  /** The report for one command (the body of the receive branch of the
      joystick task). Every field holds its axis minus 1000 modulo 2^16: there
      is no clamping and no rejection of out-of-range axes. */
  function EncodeReport(cmd: JoystickCommand): (a: seq<byte>)
    ensures |a| == ReportLength
    ensures a[ButtonsIndex] == cmd.buttons
    ensures forall i | 0 <= i < AxisCount :: Field(a, i) == (Axes(cmd)[i] - AxisOffset) % 0x1_0000
  {
    BytesOfOffset(cmd.xAxis - AxisOffset);
    BytesOfOffset(cmd.yAxis - AxisOffset);
    BytesOfOffset(cmd.xRotate - AxisOffset);
    BytesOfOffset(cmd.yRotate - AxisOffset);
    [ LowByte(cmd.xAxis), HighByte(cmd.xAxis),
      LowByte(cmd.yAxis), HighByte(cmd.yAxis),
      LowByte(cmd.xRotate), HighByte(cmd.xRotate),
      LowByte(cmd.yRotate), HighByte(cmd.yRotate),
      cmd.buttons ]
  }

  /** The inverse of the offset the encoder subtracts: the field plus 1000,
      in 16 bits. */
  function AxisOfField(f: u16): u16
  {
    (f + AxisOffset) % 0x1_0000
  }

  /** The inverse of the encoder: the command a 9-byte report was encoded
      from. (A host does not add 1000 back: it reads the field values, see
      ReportLayout.) */
  function DecodeReport(a: seq<byte>): (c: Option<JoystickCommand>)
    ensures c.Some? <==> |a| == ReportLength
    ensures c.Some? ==> c.value.buttons == a[ButtonsIndex]
  {
    if |a| != ReportLength then None
    else Some(JoystickCommand(
      a[ButtonsIndex],
      AxisOfField(Field(a, 0)),
      AxisOfField(Field(a, 1)),
      AxisOfField(Field(a, 2)),
      AxisOfField(Field(a, 3))))
  }

  /** Decoding inverts encoding for every command, in range or not. */
  lemma DecodeEncode(cmd: JoystickCommand)
    ensures DecodeReport(EncodeReport(cmd)) == Some(cmd)
  {
    var a := EncodeReport(cmd);
    forall i | 0 <= i < AxisCount
      ensures AxisOfField(Field(a, i)) == Axes(cmd)[i]
    {
      var x := Axes(cmd)[i];
      var f := (x - AxisOffset) % 0x1_0000;
      if x >= AxisOffset {
        DivModUnique(x - AxisOffset, 0, x - AxisOffset);
        DivModUnique(x, 0, x);
      } else {
        DivModUnique(x - AxisOffset, -1, x - AxisOffset + 0x1_0000);
        DivModUnique(f + AxisOffset, 1, x);
      }
    }
    assert AxisOfField(Field(a, 0)) == Axes(cmd)[0];
    assert AxisOfField(Field(a, 1)) == Axes(cmd)[1];
    assert AxisOfField(Field(a, 2)) == Axes(cmd)[2];
    assert AxisOfField(Field(a, 3)) == Axes(cmd)[3];
  }

  /** The 16-bit field recovered by adding 1000 and subtracting it again. */
  lemma FieldRoundTrip(f: u16)
    ensures (AxisOfField(f) - AxisOffset) % 0x1_0000 == f
  {
    if f + AxisOffset < 0x1_0000 {
      DivModUnique(f + AxisOffset, 0, f + AxisOffset);
      DivModUnique(f, 0, f);
    } else {
      DivModUnique(f + AxisOffset, 1, f + AxisOffset - 0x1_0000);
      DivModUnique(AxisOfField(f) - AxisOffset, -1, f);
    }
  }

  /** An axis whose offset is lo + 256 * hi is sent as the bytes lo, hi. */
  lemma AxisBytes(x: u16, lo: byte, hi: byte)
    requires (x - AxisOffset) % 0x1_0000 == lo as int + 0x100 * hi as int
    ensures LowByte(x) == lo && HighByte(x) == hi
  {
    BytesOfOffset(x - AxisOffset);
    var l: int, h: int := LowByte(x), HighByte(x);
    assert l + 0x100 * h == lo as int + 0x100 * hi as int;
  }

  /** Every 9-byte buffer is the report of exactly the command it decodes to:
      the encoder is a bijection between commands and 9-byte reports. */
  lemma EncodeDecode(a: seq<byte>)
    requires |a| == ReportLength
    ensures EncodeReport(DecodeReport(a).value) == a
  {
    var cmd := DecodeReport(a).value;
    FieldRoundTrip(Field(a, 0));
    AxisBytes(cmd.xAxis, a[0], a[1]);
    FieldRoundTrip(Field(a, 1));
    AxisBytes(cmd.yAxis, a[2], a[3]);
    FieldRoundTrip(Field(a, 2));
    AxisBytes(cmd.xRotate, a[4], a[5]);
    FieldRoundTrip(Field(a, 3));
    AxisBytes(cmd.yRotate, a[6], a[7]);
  }

  /** For a command in the documented range every field is the axis minus 1000
      exactly, lies in 0 .. 1000, and adding 1000 back gives the axis. */
  lemma InRangeFields(cmd: JoystickCommand, i: nat)
    requires InDocumentedRange(cmd)
    requires i < AxisCount
    ensures Field(EncodeReport(cmd), i) == Axes(cmd)[i] - AxisOffset
    ensures 0 <= Field(EncodeReport(cmd), i) <= AxisMax - AxisMin
    ensures Field(EncodeReport(cmd), i) + AxisOffset == Axes(cmd)[i]
  {
    var x := Axes(cmd)[i];
    DivModUnique(x - AxisOffset, 0, x - AxisOffset);
  }

  /** 1500 is sent as F4 01. */
  lemma CentredAxisExample()
    ensures EncodeReport(JoystickCommand(0x01, 1500, 1500, 1500, 1500))
         == [0xF4, 0x01, 0xF4, 0x01, 0xF4, 0x01, 0xF4, 0x01, 0x01]
  {
  }

  /** The ends of the documented range: 1000 is sent as 00 00, 2000 as E8 03. */
  lemma RangeEndsExample()
    ensures EncodeReport(JoystickCommand(0x80, 1000, 2000, 1000, 2000))
         == [0x00, 0x00, 0xE8, 0x03, 0x00, 0x00, 0xE8, 0x03, 0x80]
  {
  }

  /** An axis below 1000 is not clamped: 0 wraps to 0xFC18 (-1000 in 16 bits). */
  lemma UnclampedExample()
    ensures EncodeReport(JoystickCommand(0x00, 0, 1500, 1500, 1500))[..2] == [0x18, 0xFC]
  {
  }
}
