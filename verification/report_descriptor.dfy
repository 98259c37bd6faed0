/** The HID report map of the joystick: a sequence of short items (section
    6.2.2.2 of the USB HID Device Class Definition 1.11), each a prefix byte
    followed by 0, 1, 2 or 4 little-endian data bytes. The constant template is
    written in the firmware as items (`USAGE_PAGE(1), 0x01, ...`); here it is a
    list of items whose serialisation is the 54-byte array, and the start-up code
    copies that array into a fresh buffer and overwrites one byte of it. */
module ReportDescriptor {
  import opened HidTypes
  import ReportEncoder

  /** The item kinds the joystick map uses: main items (Input, Collection,
      End Collection), global items (Usage Page, Logical and Physical Minimum
      and Maximum, Report Size, Report ID, Report Count) and local items
      (Usage, Usage Minimum, Usage Maximum). */
  datatype ItemTag =
    | Input | Collection | EndCollection
    | UsagePage | LogicalMinimum | LogicalMaximum | PhysicalMinimum | PhysicalMaximum
    | ReportSize | ReportId | ReportCount
    | Usage | UsageMinimum | UsageMaximum

  /** Bits 2..7 of the prefix byte: bTag in bits 4..7, bType in bits 2..3
      (0 main, 1 global, 2 local), as HID 1.11 sections 6.2.2.4 to 6.2.2.8
      assign them. */
  function TagBits(t: ItemTag): byte
  {
    match t
    case Input => 0x80
    case Collection => 0xA0
    case EndCollection => 0xC0
    case UsagePage => 0x04
    case LogicalMinimum => 0x14
    case LogicalMaximum => 0x24
    case PhysicalMinimum => 0x34
    case PhysicalMaximum => 0x44
    case ReportSize => 0x74
    case ReportId => 0x84
    case ReportCount => 0x94
    case Usage => 0x08
    case UsageMinimum => 0x18
    case UsageMaximum => 0x28
  }

  /** The tag whose prefix bits 2..7 are `bits`, if the map uses one. */
  function TagOf(bits: int): (t: Option<ItemTag>)
    ensures t.Some? ==> TagBits(t.value) == bits
    ensures forall u: ItemTag :: TagBits(u) == bits ==> t == Some(u)
  {
    if bits == 0x80 then Some(Input)
    else if bits == 0xA0 then Some(Collection)
    else if bits == 0xC0 then Some(EndCollection)
    else if bits == 0x04 then Some(UsagePage)
    else if bits == 0x14 then Some(LogicalMinimum)
    else if bits == 0x24 then Some(LogicalMaximum)
    else if bits == 0x34 then Some(PhysicalMinimum)
    else if bits == 0x44 then Some(PhysicalMaximum)
    else if bits == 0x74 then Some(ReportSize)
    else if bits == 0x84 then Some(ReportId)
    else if bits == 0x94 then Some(ReportCount)
    else if bits == 0x08 then Some(Usage)
    else if bits == 0x18 then Some(UsageMinimum)
    else if bits == 0x28 then Some(UsageMaximum)
    else None
  }

  /** bSize admits 0, 1, 2 or 4 data bytes. */
  predicate ValidDataSize(n: nat)
  {
    n == 0 || n == 1 || n == 2 || n == 4
  }

  /** bSize, bits 0..1 of the prefix: 3 stands for four bytes. */
  function SizeCode(n: nat): int
    requires ValidDataSize(n)
  {
    if n == 4 then 3 else n
  }

  /** Data bytes that follow a prefix byte. */
  function DataSize(prefix: byte): nat
  {
    if prefix % 4 == 3 then 4 else prefix % 4
  }

  datatype ShortItem = ShortItem(tag: ItemTag, data: seq<byte>)

  predicate WellFormed(items: seq<ShortItem>)
  {
    forall i | 0 <= i < |items| :: ValidDataSize(|items[i].data|)
  }

  function Prefix(it: ShortItem): byte
    requires ValidDataSize(|it.data|)
  {
    TagBits(it.tag) + SizeCode(|it.data|)
  }

  /** The bytes of a list of items, one after the other. */
  function Serialize(items: seq<ShortItem>): seq<byte>
    requires WellFormed(items)
  {
    if items == [] then []
    else [Prefix(items[0])] + items[0].data + Serialize(items[1..])
  }

  /** Splits a byte string into short items; None when a prefix is unknown
      or its data runs past the end. */
  function Parse(d: seq<byte>): Option<seq<ShortItem>>
    decreases |d|
  {
    if d == [] then Some([])
    else
      var n := DataSize(d[0]);
      if |d| < 1 + n then None
      else match TagOf(d[0] - d[0] % 4)
        case None => None
        case Some(t) =>
          match Parse(d[1 + n..])
          case None => None
          case Some(rest) => Some([ShortItem(t, d[1..1 + n])] + rest)
  }

  /** Parsing the serialised items gives the items back. */
  lemma {:induction false} ParseSerialize(items: seq<ShortItem>)
    requires WellFormed(items)
    ensures Parse(Serialize(items)) == Some(items)
  {
    if items != [] {
      var it := items[0];
      SerializeHead(items);
      PrefixDecodes(it);
      ParseSerialize(items[1..]);
      assert [ShortItem(it.tag, it.data)] + items[1..] == items;
    }
  }

  /** A prefix byte gives back the data size and the tag it was made from. */
  lemma PrefixDecodes(it: ShortItem)
    requires ValidDataSize(|it.data|)
    ensures DataSize(Prefix(it)) == |it.data|
    ensures TagOf(Prefix(it) - Prefix(it) % 4) == Some(it.tag)
  {
    assert Prefix(it) - Prefix(it) % 4 == TagBits(it.tag);
  }

  /** The bytes of a non-empty list: the first item's prefix and data, then
      the bytes of the rest. */
  lemma SerializeHead(items: seq<ShortItem>)
    requires WellFormed(items) && items != []
    ensures var d, n := Serialize(items), |items[0].data|;
      && |d| >= 1 + n
      && d[0] == Prefix(items[0])
      && d[1..1 + n] == items[0].data
      && d[1 + n..] == Serialize(items[1..])
  {
  }

  lemma {:induction false} SerializeAppend(a: seq<ShortItem>, b: seq<ShortItem>)
    requires WellFormed(a) && WellFormed(b)
    ensures WellFormed(a + b)
    ensures Serialize(a + b) == Serialize(a) + Serialize(b)
  {
    if a != [] {
      assert (a + b)[1..] == a[1..] + b;
      SerializeAppend(a[1..], b);
    } else {
      assert a + b == b;
    }
  }

  /** Where item k starts in the serialised list. */
  function ItemOffset(items: seq<ShortItem>, k: nat): nat
    requires k <= |items| && WellFormed(items)
  {
    |Serialize(items[..k])|
  }

  /** The bytes of item k sit between those of the items before it and
      those of the items after it. */
  lemma {:induction false} SerializeAround(items: seq<ShortItem>, k: nat)
    requires WellFormed(items) && k < |items|
    ensures WellFormed(items[..k]) && WellFormed(items[k + 1..])
    ensures Serialize(items)
         == Serialize(items[..k]) + ([Prefix(items[k])] + items[k].data) + Serialize(items[k + 1..])
  {
    if k > 0 {
      var tail := items[1..];
      SerializeAround(tail, k - 1);
      assert tail[..k - 1] == items[1..k] == items[..k][1..];
      assert tail[k - 1 + 1..] == items[k + 1..];
      assert tail[k - 1] == items[k];
    } else {
      assert items[..k] == [];
    }
  }

  /** Data byte j of item k sits at ItemOffset + 1 + j, and overwriting that
      byte is the same as serialising the items with that data byte changed:
      nothing else in the map moves or changes. */
  lemma PatchDataByte(items: seq<ShortItem>, k: nat, j: nat, v: byte)
    requires WellFormed(items)
    requires k < |items| && j < |items[k].data|
    ensures ItemOffset(items, k) + 1 + j < |Serialize(items)|
    ensures Serialize(items)[ItemOffset(items, k) + 1 + j] == items[k].data[j]
    ensures WellFormed(items[k := ShortItem(items[k].tag, items[k].data[j := v])])
    ensures Serialize(items)[ItemOffset(items, k) + 1 + j := v]
         == Serialize(items[k := ShortItem(items[k].tag, items[k].data[j := v])])
  {
    var it := items[k];
    var it' := ShortItem(it.tag, it.data[j := v]);
    SerializeAround(items, k);
    SerializeReplace(items, k, it');
    assert Prefix(it') == Prefix(it);
    UpdateInMiddle(Serialize(items[..k]), Prefix(it), it.data, Serialize(items[k + 1..]), j, v);
  }

  /** Replacing item k by an item with a valid data size keeps the list well
      formed and changes only the bytes of item k. */
  lemma SerializeReplace(items: seq<ShortItem>, k: nat, it: ShortItem)
    requires WellFormed(items) && k < |items| && ValidDataSize(|it.data|)
    ensures WellFormed(items[k := it])
    ensures Serialize(items[k := it])
         == Serialize(items[..k]) + ([Prefix(it)] + it.data) + Serialize(items[k + 1..])
  {
    var items' := items[k := it];
    assert forall i | 0 <= i < |items'| :: ValidDataSize(|items'[i].data|);
    SerializeAround(items', k);
    assert items'[..k] == items[..k];
    assert items'[k + 1..] == items[k + 1..];
  }

  /** Updating data byte j of the middle part of a + ([p] + d) + b. */
  lemma UpdateInMiddle(a: seq<byte>, p: byte, d: seq<byte>, b: seq<byte>, j: nat, v: byte)
    requires j < |d|
    ensures (a + ([p] + d) + b)[|a| + 1 + j] == d[j]
    ensures (a + ([p] + d) + b)[|a| + 1 + j := v] == a + ([p] + d[j := v]) + b
  {
  }

  /** Little-endian value of an item's data (HID 1.11 section 5.8). */
  function LittleEndian(data: seq<byte>): nat
  {
    if data == [] then 0 else data[0] + 0x100 * LittleEndian(data[1..])
  }

  // The constant template, block by block as the firmware lays it out.

  /** Generic Desktop / Gamepad, an Application collection holding a Physical
      collection, report ID 1. */
  const Header: seq<ShortItem> := [
    ShortItem(UsagePage, [0x01]),
    ShortItem(Usage, [0x05]),
    ShortItem(Collection, [0x01]),
    ShortItem(Collection, [0x00]),
    ShortItem(ReportId, [0x01])]

  /** X, Y, X rotation, Y rotation ... */
  const AxisUsages: seq<ShortItem> := [
    ShortItem(Usage, [0x30]),
    ShortItem(Usage, [0x31]),
    ShortItem(Usage, [0x33]),
    ShortItem(Usage, [0x34])]

  /** ... with logical and physical range 0 .. 1000 ... */
  const AxisRanges: seq<ShortItem> := [
    ShortItem(LogicalMinimum, [0x00, 0x00]),
    ShortItem(LogicalMaximum, [0xE8, 0x03]),
    ShortItem(PhysicalMinimum, [0x00, 0x00]),
    ShortItem(PhysicalMaximum, [0xE8, 0x03])]

  /** ... as four 16-bit input fields. */
  const AxisInput: seq<ShortItem> := [
    ShortItem(ReportSize, [0x10]),
    ShortItem(ReportCount, [0x04]),
    ShortItem(Input, [0x02])]

  /** Buttons 1 .. 8 ... */
  const ButtonUsages: seq<ShortItem> := [
    ShortItem(UsagePage, [0x09]),
    ShortItem(UsageMinimum, [0x01]),
    ShortItem(UsageMaximum, [0x08])]

  /** ... each 0 or 1 ... */
  const ButtonRange: seq<ShortItem> := [
    ShortItem(LogicalMinimum, [0x00]),
    ShortItem(LogicalMaximum, [0x01])]

  /** ... as eight 1-bit input fields. */
  const ButtonInput: seq<ShortItem> := [
    ShortItem(ReportSize, [0x01]),
    ShortItem(ReportCount, [0x08]),
    ShortItem(Input, [0x02])]

  const Trailer: seq<ShortItem> := [
    ShortItem(EndCollection, []),
    ShortItem(EndCollection, [])]

  const JoystickItems: seq<ShortItem> :=
    Header + AxisUsages + AxisRanges + AxisInput + ButtonUsages + ButtonRange + ButtonInput + Trailer

  /** The bytes of each block, exactly the firmware's constant array. */
  lemma HeaderBytes()
    ensures WellFormed(Header)
    ensures Serialize(Header) == [0x05, 0x01, 0x09, 0x05, 0xA1, 0x01, 0xA1, 0x00, 0x85, 0x01]
  {
  }

  lemma AxisUsagesBytes()
    ensures WellFormed(AxisUsages)
    ensures Serialize(AxisUsages) == [0x09, 0x30, 0x09, 0x31, 0x09, 0x33, 0x09, 0x34]
  {
  }

  lemma AxisRangesBytes()
    ensures WellFormed(AxisRanges)
    ensures Serialize(AxisRanges) == [0x16, 0x00, 0x00, 0x26, 0xE8, 0x03, 0x36, 0x00, 0x00, 0x46, 0xE8, 0x03]
  {
  }

  lemma AxisInputBytes()
    ensures WellFormed(AxisInput)
    ensures Serialize(AxisInput) == [0x75, 0x10, 0x95, 0x04, 0x81, 0x02]
  {
  }

  lemma ButtonBytes()
    ensures WellFormed(ButtonUsages) && WellFormed(ButtonRange) && WellFormed(ButtonInput)
    ensures Serialize(ButtonUsages) == [0x05, 0x09, 0x19, 0x01, 0x29, 0x08]
    ensures Serialize(ButtonRange) == [0x15, 0x00, 0x25, 0x01]
    ensures Serialize(ButtonInput) == [0x75, 0x01, 0x95, 0x08, 0x81, 0x02]
  {
  }

  lemma TrailerBytes()
    ensures WellFormed(Trailer)
    ensures Serialize(Trailer) == [0xC0, 0xC0]
  {
  }

  /** reportMapJoystick[]: the constant array the start-up code copies, block
      by block. */
  const ReportMapJoystick: seq<byte> :=
      [0x05, 0x01, 0x09, 0x05, 0xA1, 0x01, 0xA1, 0x00, 0x85, 0x01]
    + [0x09, 0x30, 0x09, 0x31, 0x09, 0x33, 0x09, 0x34]
    + [0x16, 0x00, 0x00, 0x26, 0xE8, 0x03, 0x36, 0x00, 0x00, 0x46, 0xE8, 0x03]
    + [0x75, 0x10, 0x95, 0x04, 0x81, 0x02]
    + [0x05, 0x09, 0x19, 0x01, 0x29, 0x08]
    + [0x15, 0x00, 0x25, 0x01]
    + [0x75, 0x01, 0x95, 0x08, 0x81, 0x02]
    + [0xC0, 0xC0]

  /** The template's blocks are laid out one after the other. */
  lemma JoystickItemsSerialize()
    ensures WellFormed(JoystickItems)
    ensures Serialize(JoystickItems)
         == Serialize(Header) + Serialize(AxisUsages) + Serialize(AxisRanges) + Serialize(AxisInput)
          + Serialize(ButtonUsages) + Serialize(ButtonRange) + Serialize(ButtonInput) + Serialize(Trailer)
  {
    HeaderBytes();
    AxisUsagesBytes();
    AxisRangesBytes();
    AxisInputBytes();
    ButtonBytes();
    TrailerBytes();
    var a := Header;
    var b := a + AxisUsages;
    var c := b + AxisRanges;
    var d := c + AxisInput;
    var e := d + ButtonUsages;
    var f := e + ButtonRange;
    var g := f + ButtonInput;
    SerializeAppend(a, AxisUsages);
    SerializeAppend(b, AxisRanges);
    SerializeAppend(c, AxisInput);
    SerializeAppend(d, ButtonUsages);
    SerializeAppend(e, ButtonRange);
    SerializeAppend(f, ButtonInput);
    SerializeAppend(g, Trailer);
  }

  /** The constant array is exactly the items the firmware spells out with its
      item macros, and it parses back into them: 26 well-formed short items in
      54 bytes. */
  lemma TemplateItems()
    ensures WellFormed(JoystickItems)
    ensures Serialize(JoystickItems) == ReportMapJoystick
    ensures Parse(ReportMapJoystick) == Some(JoystickItems)
    ensures |ReportMapJoystick| == 54 && |JoystickItems| == 26
  {
    JoystickItemsSerialize();
    HeaderBytes();
    AxisUsagesBytes();
    AxisRangesBytes();
    AxisInputBytes();
    ButtonBytes();
    TrailerBytes();
    ParseSerialize(JoystickItems);
  }

  /** For a command in the documented range every axis field the encoder
      writes lies within the Logical Minimum .. Logical Maximum the map
      declares for the axes (0 .. 1000). */
  lemma AxisFieldsWithinLogicalRange(cmd: JoystickCommand, i: nat)
    requires InDocumentedRange(cmd) && i < AxisCount
    ensures AxisRanges[0].tag == LogicalMinimum && AxisRanges[1].tag == LogicalMaximum
    ensures LittleEndian(AxisRanges[0].data) <= ReportEncoder.Field(ReportEncoder.EncodeReport(cmd), i)
    ensures ReportEncoder.Field(ReportEncoder.EncodeReport(cmd), i) <= LittleEndian(AxisRanges[1].data)
  {
    ReportEncoder.InRangeFields(cmd, i);
    assert LittleEndian(AxisRanges[1].data) == 1000;
  }

  // Building the report map at start-up.

  /** reportID in the start-up code. */
  const ReportIdValue: byte := 1
  /** The index the start-up code overwrites with the report ID. */
  const PatchIndex: nat := 7

  /** Item 3 is the Physical collection, whose data byte is at index 7; item 4
      is the Report ID item, whose data byte is at index 9. */
  lemma PatchTargets()
    ensures WellFormed(JoystickItems) && |JoystickItems| == 26
    ensures JoystickItems[3] == ShortItem(Collection, [0x00])
    ensures JoystickItems[4] == ShortItem(ReportId, [0x01])
    ensures ItemOffset(JoystickItems, 3) + 1 == PatchIndex
    ensures ItemOffset(JoystickItems, 4) + 1 == 9
  {
    TemplateItems();
    HeaderOffsets();
    var a := Header;
    var b := a + AxisUsages;
    var c := b + AxisRanges;
    var d := c + AxisInput;
    var e := d + ButtonUsages;
    var f := e + ButtonRange;
    var g := f + ButtonInput;
    SlicePrefix(a, AxisUsages);
    SlicePrefix(b, AxisRanges);
    SlicePrefix(c, AxisInput);
    SlicePrefix(d, ButtonUsages);
    SlicePrefix(e, ButtonRange);
    SlicePrefix(f, ButtonInput);
    SlicePrefix(g, Trailer);
  }

  /** The first four items of a list of at least five are unchanged by
      appending. */
  lemma SlicePrefix(a: seq<ShortItem>, b: seq<ShortItem>)
    requires |a| >= 5
    ensures (a + b)[..3] == a[..3] && (a + b)[..4] == a[..4]
    ensures (a + b)[3] == a[3] && (a + b)[4] == a[4]
  {
  }

  /** Where items 3 and 4 of the header start. */
  lemma HeaderOffsets()
    ensures WellFormed(Header[..3]) && |Serialize(Header[..3])| == 6
    ensures WellFormed(Header[..4]) && |Serialize(Header[..4])| == 8
  {
    var first3 := [ShortItem(UsagePage, [0x01]), ShortItem(Usage, [0x05]), ShortItem(Collection, [0x01])];
    assert Header[..3] == first3;
    assert Header[..4] == first3 + [ShortItem(Collection, [0x00])];
    assert Serialize(first3) == [0x05, 0x01, 0x09, 0x05, 0xA1, 0x01];
    SerializeAppend(first3, [ShortItem(Collection, [0x00])]);
    assert Serialize([ShortItem(Collection, [0x00])]) == [0xA1, 0x00];
  }

  /** The template's Report ID item holds 1, at index 9. */
  lemma TemplateReportIdByte()
    ensures ReportMapJoystick[9] == 0x01
  {
    PatchTargets();
    TemplateItems();
    PatchDataByte(JoystickItems, 4, 0, 0x01);
  }

  /** The map the start-up code hands to the HID service: the template with
      index 7 overwritten by the report ID. */
  function AsWrittenReportMap(reportId: byte): (m: seq<byte>)
    ensures |m| == |ReportMapJoystick| && m[PatchIndex] == reportId
    ensures forall i | 0 <= i < |m| && i != PatchIndex :: m[i] == ReportMapJoystick[i]
  {
    ReportMapJoystick[PatchIndex := reportId]
  }

  /** Overwriting the one data byte of item k and parsing the result gives
      the items with item k's data replaced. */
  lemma PatchAndParse(items: seq<ShortItem>, k: nat, v: byte)
    requires WellFormed(items)
    requires k < |items| && |items[k].data| == 1
    ensures ItemOffset(items, k) + 1 < |Serialize(items)|
    ensures Parse(Serialize(items)[ItemOffset(items, k) + 1 := v])
         == Some(items[k := ShortItem(items[k].tag, [v])])
  {
    var patched := items[k := ShortItem(items[k].tag, [v])];
    assert items[k].data[0 := v] == [v];
    PatchDataByte(items, k, 0, v);
    ParseSerialize(patched);
  }

  /** What the patch at index 7 does to the map: it rewrites the kind of the
      inner collection (0x00 Physical) with the report ID, and the Report ID
      item keeps the template's value whatever the report ID is. */
  lemma AsWrittenPatchRewritesCollection(reportId: byte)
    ensures Parse(AsWrittenReportMap(reportId)) == Some(JoystickItems[3 := ShortItem(Collection, [reportId])])
    ensures AsWrittenReportMap(reportId)[9] == 0x01
  {
    PatchTargets();
    TemplateItems();
    PatchAndParse(JoystickItems, 3, reportId);
    TemplateReportIdByte();
  }

  /** With the firmware's report ID 1 the inner collection becomes a second
      Application collection (0x01) instead of Physical; a report ID of 2
      would never reach the map. */
  lemma AsWrittenCounterexample()
    ensures JoystickItems[3] == ShortItem(Collection, [0x00])
    ensures var p := Parse(AsWrittenReportMap(ReportIdValue));
      p.Some? && |p.value| == 26 && p.value[3] == ShortItem(Collection, [0x01])
    ensures var p := Parse(AsWrittenReportMap(2));
      p.Some? && |p.value| == 26 && p.value[4] == ShortItem(ReportId, [0x01])
  {
    AsWrittenPatchRewritesCollection(ReportIdValue);
    AsWrittenPatchRewritesCollection(2);
    PatchTargets();
  }

  /** The map with the report ID written where the Report ID item keeps its
      data, the index being computed from the items rather than fixed. */
  function IntendedReportMap(reportId: byte): (m: seq<byte>)
    ensures |m| == |ReportMapJoystick|
  {
    PatchTargets();
    TemplateItems();
    ReportMapJoystick[ItemOffset(JoystickItems, 4) + 1 := reportId]
  }

  /** The intended patch sets the Report ID item to the report ID and changes
      no other item; with report ID 1 the template is already right. */
  lemma IntendedPatchSetsReportId(reportId: byte)
    ensures Parse(IntendedReportMap(reportId)) == Some(JoystickItems[4 := ShortItem(ReportId, [reportId])])
    ensures IntendedReportMap(ReportIdValue) == ReportMapJoystick
  {
    PatchTargets();
    TemplateItems();
    PatchAndParse(JoystickItems, 4, reportId);
    TemplateReportIdByte();
  }

  /** The report-map part of the start-up task: allocate a buffer the size of
      the template (an allocation that can fail), copy the template in, put the
      report ID at index 7 and advance the write position past the copy.
      `used` is `reportMapCurrent - reportMap`. */
  method BuildReportMap(allocSucceeds: bool) returns (reportMap: array?<byte>, used: nat)
    ensures (reportMap != null) == allocSucceeds
    ensures reportMap != null ==> fresh(reportMap)
    ensures reportMap != null ==> reportMap[..] == AsWrittenReportMap(ReportIdValue)
    ensures reportMap != null ==> used == reportMap.Length == |ReportMapJoystick|
    ensures reportMap == null ==> used == 0
  {
    var reportMapSize := |ReportMapJoystick|;
    var reportID := ReportIdValue;
    used := 0;
    if !allocSucceeds {
      reportMap := null;
      return;
    }
    reportMap := new byte[reportMapSize];
    var i := 0;
    while i < reportMapSize
      invariant 0 <= i <= reportMapSize && used == 0
      invariant reportMap[..i] == ReportMapJoystick[..i]
    {
      reportMap[used + i] := ReportMapJoystick[i];
      i := i + 1;
    }
    assert reportMap[..] == ReportMapJoystick;
    reportMap[PatchIndex] := reportID;
    assert reportMap[..] == ReportMapJoystick[PatchIndex := reportID];
    used := used + reportMapSize;
  }
}
