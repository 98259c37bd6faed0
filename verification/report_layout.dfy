/** How a host reads an input report through the report map: each field the
    map declares is taken from the report's bits, least significant bit of
    each byte first, the bytes in order (the order HID packs report fields
    in). Over HID over GATT the report ID is carried by the characteristic,
    not by the payload, so bit 0 is the first bit of the nine notified bytes. */
module ReportLayout {
  import opened HidTypes
  import opened ReportEncoder
  import RD = ReportDescriptor
  import RW = ReportWalk

  /** The bits of a report, byte after byte, each byte least significant bit
      first. */
  function ReportBits(a: seq<byte>): (bits: seq<bool>)
    ensures |bits| == 8 * |a|
  {
    if a == [] then [] else Bits(a[0], 8) + ReportBits(a[1..])
  }

  /** The value a host reads for a declared field. */
  function FieldValue(a: seq<byte>, f: RW.DeclaredField): nat
    requires f.bitOffset + f.bitSize <= 8 * |a|
  {
    FromBits(ReportBits(a)[f.bitOffset .. f.bitOffset + f.bitSize])
  }

  /** The fields the joystick's report map declares, in report order. */
  function TemplateFields(): seq<RW.DeclaredField>
  {
    RW.Fields(RD.JoystickItems, RW.StartState)
  }

  /** Byte j of a report occupies bits 8j .. 8j + 7. */
  lemma {:induction false} ReportBitsOfByte(a: seq<byte>, j: nat)
    requires j < |a|
    ensures ReportBits(a)[8 * j .. 8 * j + 8] == Bits(a[j], 8)
  {
    if j > 0 {
      ReportBitsOfByte(a[1..], j - 1);
      assert ReportBits(a)[8 * j .. 8 * j + 8] == ReportBits(a[1..])[8 * (j - 1) .. 8 * (j - 1) + 8];
    }
  }

  /** The bits after s are the high-order part of the value. */
  lemma {:induction false} FromBitsAppend(s: seq<bool>, t: seq<bool>)
    ensures FromBits(s + t) == FromBits(s) + Pow2(|s|) * FromBits(t)
  {
    if s == [] {
      assert s + t == t;
    } else {
      var low := if s[0] then 1 else 0;
      var rest, high, p := FromBits(s[1..]), FromBits(t), Pow2(|s| - 1);
      assert (s + t)[0] == s[0] && (s + t)[1..] == s[1..] + t;
      FromBitsAppend(s[1..], t);
      ShiftOneBit(low, rest, p, high);
    }
  }

  /** The arithmetic step of FromBitsAppend: one more low bit in front. */
  lemma ShiftOneBit(low: int, rest: int, p: int, high: int)
    ensures low + 2 * (rest + p * high) == (low + 2 * rest) + (2 * p) * high
  {
  }

  /** The value of a byte read back from its eight bits. */
  lemma ByteBits(b: byte)
    ensures FromBits(Bits(b, 8)) == b
  {
    EightBits();
    FromBitsBits(b, 8);
  }

  lemma EightBits()
    ensures Pow2(8) == 256
  {
  }

  /** Axis i of the command travels in the field the map declares for usage
      X, Y, Rx or Ry of the Generic Desktop page: the 16 bits from bit 16i.
      A host reads there the axis minus 1000, modulo 2^16; for a command in
      the documented range that is the axis minus 1000 itself. */
  lemma AxisFieldCarriesAxis(cmd: JoystickCommand, i: nat)
    requires i < AxisCount
    ensures |TemplateFields()| == AxisCount + ButtonCount
    ensures TemplateFields()[i] == RW.DeclaredField(RW.GenericDesktopPage, RW.AxisUsageIds[i], 16 * i, 16)
    ensures FieldValue(EncodeReport(cmd), TemplateFields()[i]) == (Axes(cmd)[i] - AxisOffset) % 0x1_0000
    ensures InDocumentedRange(cmd) ==>
      FieldValue(EncodeReport(cmd), TemplateFields()[i]) == Axes(cmd)[i] - AxisOffset
  {
    RW.DeclaredInputReport();
    assert TemplateFields()[i] == RW.AxisFields[i];
    var a := EncodeReport(cmd);
    SixteenBitField(a, i);
    if InDocumentedRange(cmd) {
      InRangeFields(cmd, i);
    }
  }

  /** A 16-bit field at bit 16i holds bytes 2i and 2i + 1, low byte first. */
  lemma SixteenBitField(a: seq<byte>, i: nat)
    requires 2 * i + 1 < |a|
    ensures FromBits(ReportBits(a)[16 * i .. 16 * i + 16]) == Field(a, i)
  {
    var j := 2 * i;
    assert 8 * j == 16 * i;
    TwoBytes(a, j);
    TwoByteValue(a[j], a[j + 1]);
  }

  /** Two bytes' bits side by side, low byte first, read as one number. */
  lemma TwoByteValue(lo: byte, hi: byte)
    ensures FromBits(Bits(lo, 8) + Bits(hi, 8)) == lo + 0x100 * hi
  {
    FromBitsAppend(Bits(lo, 8), Bits(hi, 8));
    ByteBits(lo);
    ByteBits(hi);
    EightBits();
  }

  /** Bytes j and j + 1 side by side occupy bits 8j .. 8j + 15. */
  lemma TwoBytes(a: seq<byte>, j: nat)
    requires j + 1 < |a|
    ensures ReportBits(a)[8 * j .. 8 * j + 16] == Bits(a[j], 8) + Bits(a[j + 1], 8)
  {
    ReportBitsOfByte(a, j);
    ReportBitsOfByte(a, j + 1);
    SliceSplit(ReportBits(a), 8 * j, 8 * j + 8, 8 * j + 16);
  }

  lemma SliceSplit<T>(s: seq<T>, lo: nat, mid: nat, hi: nat)
    requires lo <= mid <= hi <= |s|
    ensures s[lo..hi] == s[lo..mid] + s[mid..hi]
  {
  }

  /** Button k + 1 of the Button page travels in the 1-bit field at bit
      64 + k: a host reads 1 there exactly when bit k of the command's mask
      is set. */
  lemma ButtonFieldCarriesButton(cmd: JoystickCommand, k: nat)
    requires k < ButtonCount
    ensures |TemplateFields()| == AxisCount + ButtonCount
    ensures TemplateFields()[AxisCount + k] == RW.DeclaredField(RW.ButtonPage, k + 1, 8 * ButtonsIndex + k, 1)
    ensures FieldValue(EncodeReport(cmd), TemplateFields()[AxisCount + k]) == 1 <==> ButtonStates(cmd.buttons)[k]
    ensures FieldValue(EncodeReport(cmd), TemplateFields()[AxisCount + k]) <= 1
  {
    RW.DeclaredInputReport();
    assert TemplateFields()[AxisCount + k] == RW.ButtonFields()[k];
    var a := EncodeReport(cmd);
    var bits := ReportBits(a);
    ReportBitsOfByte(a, ButtonsIndex);
    var bit := Bits(a[ButtonsIndex], 8)[k];
    assert bits[64 + k .. 65 + k] == [bit];
    assert FromBits([bit]) == if bit then 1 else 0 by {
      assert [bit][1..] == [];
    }
  }
}
