/** How a host's report-descriptor parser reads the joystick's report map:
    walking the items in order, it keeps the global items in force and the
    local usages queued for the next main item, and every Input item declares
    Report Count fields of Report Size bits, one after the other, each with
    its usage (sections 6.2.2.4 to 6.2.2.8 of the USB HID Device Class
    Definition 1.11). */
module ReportWalk {
  import opened HidTypes
  import opened ReportDescriptor
  import ReportEncoder

  /** What a host's report-descriptor parser keeps while walking the items:
      the global items in force (Usage Page, Report Size, Report Count), the
      local usages queued for the next main item (Usage, Usage Minimum, Usage
      Maximum), and the bit position where the next input field starts. */
  datatype WalkState = WalkState(
    usagePage: nat, reportSize: nat, reportCount: nat,
    usages: seq<nat>, usageMinimum: nat, usageMaximum: nat,
    bitOffset: nat)

  /** One input field the map declares: its usage, the bit of the report
      where it starts and its width in bits. */
  datatype DeclaredField = DeclaredField(usagePage: nat, usage: nat, bitOffset: nat, bitSize: nat)

  /** Local items describe only the next main item (HID 1.11 section
      6.2.2.8): every main item drops them. */
  function ClearLocals(st: WalkState): WalkState
  {
    st.(usages := [], usageMinimum := 0, usageMaximum := 0)
  }

  /** The state after one item. An Input item moves the bit position past
      its Report Count fields of Report Size bits. */
  function Step(st: WalkState, it: ShortItem): WalkState
  {
    var v := LittleEndian(it.data);
    match it.tag
    case UsagePage => st.(usagePage := v)
    case ReportSize => st.(reportSize := v)
    case ReportCount => st.(reportCount := v)
    case Usage => st.(usages := st.usages + [v])
    case UsageMinimum => st.(usageMinimum := v)
    case UsageMaximum => st.(usageMaximum := v)
    case Input => ClearLocals(st).(bitOffset := st.bitOffset + st.reportSize * st.reportCount)
    case Collection => ClearLocals(st)
    case EndCollection => ClearLocals(st)
    case _ => st
  }

  /** The usage of field k of a variable Input item: the k-th queued Usage
      (the last one repeating when there are fewer), or else the k-th usage
      of the Usage Minimum .. Usage Maximum range (its maximum repeating). */
  function UsageOf(st: WalkState, k: nat): nat
  {
    if k < |st.usages| then st.usages[k]
    else if st.usages != [] then st.usages[|st.usages| - 1]
    else if st.usageMinimum + k <= st.usageMaximum then st.usageMinimum + k
    else st.usageMaximum
  }

  /** The fields one item declares: Report Count fields for an Input item
      (both Input items of the map are Data, Variable, Absolute), one after
      the other from the current bit position; none for any other item. */
  function Emitted(st: WalkState, it: ShortItem): seq<DeclaredField>
  {
    if it.tag == Input then
      seq(st.reportCount, k requires 0 <= k => DeclaredField(st.usagePage, UsageOf(st, k), st.bitOffset + k * st.reportSize, st.reportSize))
    else []
  }

  /** Every input field items[i..] declares, in report order, walking from
      state st. */
  function FieldsFrom(items: seq<ShortItem>, i: nat, st: WalkState): seq<DeclaredField>
    requires i <= |items|
    decreases |items| - i
  {
    if i == |items| then [] else Emitted(st, items[i]) + FieldsFrom(items, i + 1, Step(st, items[i]))
  }

  /** The state after walking items[i..] from st. */
  function AfterFrom(items: seq<ShortItem>, i: nat, st: WalkState): WalkState
    requires i <= |items|
    decreases |items| - i
  {
    if i == |items| then st else AfterFrom(items, i + 1, Step(st, items[i]))
  }

  /** Every input field a list of items declares, in report order. */
  function Fields(items: seq<ShortItem>, st: WalkState): seq<DeclaredField>
  {
    FieldsFrom(items, 0, st)
  }

  function After(items: seq<ShortItem>, st: WalkState): WalkState
  {
    AfterFrom(items, 0, st)
  }

  /** Walking two lists one after the other is walking the first, then the
      second from the state the first leaves. */
  lemma FieldsAppend(a: seq<ShortItem>, b: seq<ShortItem>, st: WalkState)
    ensures Fields(a + b, st) == Fields(a, st) + Fields(b, After(a, st))
    ensures After(a + b, st) == After(b, After(a, st))
  {
    WalkAppendFirst(a, b, 0, st);
    WalkAppendSecond(a, b, 0, After(a, st));
  }

  /** Up to the end of a, walking a + b is walking a. */
  lemma {:induction false} WalkAppendFirst(a: seq<ShortItem>, b: seq<ShortItem>, i: nat, st: WalkState)
    requires i <= |a|
    ensures FieldsFrom(a + b, i, st) == FieldsFrom(a, i, st) + FieldsFrom(a + b, |a|, AfterFrom(a, i, st))
    ensures AfterFrom(a + b, i, st) == AfterFrom(a + b, |a|, AfterFrom(a, i, st))
    decreases |a| - i
  {
    if i < |a| {
      assert (a + b)[i] == a[i];
      WalkAppendFirst(a, b, i + 1, Step(st, a[i]));
    }
  }

  /** From the end of a on, walking a + b is walking b. */
  lemma {:induction false} WalkAppendSecond(a: seq<ShortItem>, b: seq<ShortItem>, j: nat, st: WalkState)
    requires j <= |b|
    ensures FieldsFrom(a + b, |a| + j, st) == FieldsFrom(b, j, st)
    ensures AfterFrom(a + b, |a| + j, st) == AfterFrom(b, j, st)
    decreases |b| - j
  {
    if j < |b| {
      assert (a + b)[|a| + j] == b[j];
      WalkAppendSecond(a, b, j + 1, Step(st, b[j]));
    }
  }

  /** The parser's state before the first item. */
  const StartState := WalkState(0, 0, 0, [], 0, 0, 0)

  /** Usage pages and usages of the HID Usage Tables the map refers to. */
  const GenericDesktopPage: nat := 0x01
  const ButtonPage: nat := 0x09
  /** X, Y, Rx, Ry: the usages of the axes, in the order of the command. */
  const AxisUsageIds: seq<nat> := [0x30, 0x31, 0x33, 0x34]

  /** The four 16-bit axis fields, at bits 0, 16, 32 and 48. */
  const AxisFields: seq<DeclaredField> := [
    DeclaredField(GenericDesktopPage, 0x30, 0, 16),
    DeclaredField(GenericDesktopPage, 0x31, 16, 16),
    DeclaredField(GenericDesktopPage, 0x33, 32, 16),
    DeclaredField(GenericDesktopPage, 0x34, 48, 16)]

  /** The eight 1-bit button fields, button k + 1 at bit 64 + k. */
  function ButtonFields(): (fs: seq<DeclaredField>)
    ensures |fs| == ButtonCount
    ensures forall k | 0 <= k < |fs| :: fs[k] == DeclaredField(ButtonPage, k + 1, 64 + k, 1)
  {
    seq(ButtonCount, k requires 0 <= k => DeclaredField(ButtonPage, k + 1, 64 + k, 1))
  }

  /** The header selects Generic Desktop and opens the collections, whose
      main items consume the Gamepad usage. */
  lemma HeaderWalk()
    ensures Fields(Header, StartState) == []
    ensures After(Header, StartState) == WalkState(1, 0, 0, [], 0, 0, 0)
  {
    var s0, s1, s2 := WalkState(0, 0, 0, [], 0, 0, 0), WalkState(1, 0, 0, [], 0, 0, 0), WalkState(1, 0, 0, [0x05], 0, 0, 0);
    HeaderWalkTail();
    assert Step(s1, Header[1]) == s2;
    assert FieldsFrom(Header, 1, s1) == [] && AfterFrom(Header, 1, s1) == s1;
    assert Step(s0, Header[0]) == s1;
  }

  /** The walk of Header from item 2 on. */
  lemma HeaderWalkTail()
    ensures FieldsFrom(Header, 2, WalkState(1, 0, 0, [0x05], 0, 0, 0)) == []
    ensures AfterFrom(Header, 2, WalkState(1, 0, 0, [0x05], 0, 0, 0)) == WalkState(1, 0, 0, [], 0, 0, 0)
  {
    var s1, s2 := WalkState(1, 0, 0, [], 0, 0, 0), WalkState(1, 0, 0, [0x05], 0, 0, 0);
    assert FieldsFrom(Header, 5, s1) == [] && AfterFrom(Header, 5, s1) == s1;
    assert Step(s1, Header[4]) == s1;
    assert FieldsFrom(Header, 4, s1) == [] && AfterFrom(Header, 4, s1) == s1;
    assert Step(s1, Header[3]) == s1;
    assert FieldsFrom(Header, 3, s1) == [] && AfterFrom(Header, 3, s1) == s1;
    assert Step(s2, Header[2]) == s1;
  }

  /** The axis usages are queued for the next main item. */
  lemma AxisUsagesWalk()
    ensures Fields(AxisUsages, WalkState(1, 0, 0, [], 0, 0, 0)) == []
    ensures After(AxisUsages, WalkState(1, 0, 0, [], 0, 0, 0)) == WalkState(1, 0, 0, AxisUsageIds, 0, 0, 0)
  {
    var s0, s1, s2, s4 := WalkState(1, 0, 0, [], 0, 0, 0), WalkState(1, 0, 0, [0x30], 0, 0, 0), WalkState(1, 0, 0, [0x30, 0x31], 0, 0, 0), WalkState(1, 0, 0, AxisUsageIds, 0, 0, 0);
    AxisUsagesWalkTail();
    assert Step(s1, AxisUsages[1]) == s2;
    assert FieldsFrom(AxisUsages, 1, s1) == [] && AfterFrom(AxisUsages, 1, s1) == s4;
    assert Step(s0, AxisUsages[0]) == s1;
  }

  /** The walk of AxisUsages from item 2 on. */
  lemma AxisUsagesWalkTail()
    ensures FieldsFrom(AxisUsages, 2, WalkState(1, 0, 0, [0x30, 0x31], 0, 0, 0)) == []
    ensures AfterFrom(AxisUsages, 2, WalkState(1, 0, 0, [0x30, 0x31], 0, 0, 0)) == WalkState(1, 0, 0, AxisUsageIds, 0, 0, 0)
  {
    var s2, s3, s4 := WalkState(1, 0, 0, [0x30, 0x31], 0, 0, 0), WalkState(1, 0, 0, [0x30, 0x31, 0x33], 0, 0, 0), WalkState(1, 0, 0, AxisUsageIds, 0, 0, 0);
    assert FieldsFrom(AxisUsages, 4, s4) == [] && AfterFrom(AxisUsages, 4, s4) == s4;
    assert Step(s3, AxisUsages[3]) == s4;
    assert FieldsFrom(AxisUsages, 3, s3) == [] && AfterFrom(AxisUsages, 3, s3) == s4;
    assert Step(s2, AxisUsages[2]) == s3;
  }

  /** Logical and physical ranges change neither the layout nor the usages. */
  lemma AxisRangesWalk()
    ensures Fields(AxisRanges, WalkState(1, 0, 0, AxisUsageIds, 0, 0, 0)) == []
    ensures After(AxisRanges, WalkState(1, 0, 0, AxisUsageIds, 0, 0, 0)) == WalkState(1, 0, 0, AxisUsageIds, 0, 0, 0)
  {
    var s0 := WalkState(1, 0, 0, AxisUsageIds, 0, 0, 0);
    AxisRangesWalkTail();
    assert Step(s0, AxisRanges[1]) == s0;
    assert FieldsFrom(AxisRanges, 1, s0) == [] && AfterFrom(AxisRanges, 1, s0) == s0;
    assert Step(s0, AxisRanges[0]) == s0;
  }

  /** The walk of AxisRanges from item 2 on. */
  lemma AxisRangesWalkTail()
    ensures FieldsFrom(AxisRanges, 2, WalkState(1, 0, 0, AxisUsageIds, 0, 0, 0)) == []
    ensures AfterFrom(AxisRanges, 2, WalkState(1, 0, 0, AxisUsageIds, 0, 0, 0)) == WalkState(1, 0, 0, AxisUsageIds, 0, 0, 0)
  {
    var s0 := WalkState(1, 0, 0, AxisUsageIds, 0, 0, 0);
    assert FieldsFrom(AxisRanges, 4, s0) == [] && AfterFrom(AxisRanges, 4, s0) == s0;
    assert Step(s0, AxisRanges[3]) == s0;
    assert FieldsFrom(AxisRanges, 3, s0) == [] && AfterFrom(AxisRanges, 3, s0) == s0;
    assert Step(s0, AxisRanges[2]) == s0;
  }

  /** The axis Input item declares one 16-bit field per queued usage. */
  lemma AxisInputWalk()
    ensures Fields(AxisInput, WalkState(1, 0, 0, AxisUsageIds, 0, 0, 0)) == AxisFields
    ensures After(AxisInput, WalkState(1, 0, 0, AxisUsageIds, 0, 0, 0)) == WalkState(1, 16, 4, [], 0, 0, 64)
  {
    var s0, s1, s2, s3 := WalkState(1, 0, 0, AxisUsageIds, 0, 0, 0), WalkState(1, 16, 0, AxisUsageIds, 0, 0, 0), WalkState(1, 16, 4, AxisUsageIds, 0, 0, 0), WalkState(1, 16, 4, [], 0, 0, 64);
    AxisInputWalkTail();
    assert Step(s1, AxisInput[1]) == s2;
    assert FieldsFrom(AxisInput, 1, s1) == AxisFields && AfterFrom(AxisInput, 1, s1) == s3;
    assert Step(s0, AxisInput[0]) == s1;
  }

  /** The walk of AxisInput from item 2 on. */
  lemma AxisInputWalkTail()
    ensures FieldsFrom(AxisInput, 2, WalkState(1, 16, 4, AxisUsageIds, 0, 0, 0)) == AxisFields
    ensures AfterFrom(AxisInput, 2, WalkState(1, 16, 4, AxisUsageIds, 0, 0, 0)) == WalkState(1, 16, 4, [], 0, 0, 64)
  {
    var s2, s3 := WalkState(1, 16, 4, AxisUsageIds, 0, 0, 0), WalkState(1, 16, 4, [], 0, 0, 64);
    assert FieldsFrom(AxisInput, 3, s3) == [] && AfterFrom(AxisInput, 3, s3) == s3;
    assert Step(s2, AxisInput[2]) == s3;
    assert Emitted(s2, AxisInput[2]) == AxisFields;
  }

  /** The button page and the usage range 1 .. 8. */
  lemma ButtonUsagesWalk()
    ensures Fields(ButtonUsages, WalkState(1, 16, 4, [], 0, 0, 64)) == []
    ensures After(ButtonUsages, WalkState(1, 16, 4, [], 0, 0, 64)) == WalkState(9, 16, 4, [], 1, 8, 64)
  {
    var s0, s1 := WalkState(1, 16, 4, [], 0, 0, 64), WalkState(9, 16, 4, [], 0, 0, 64);
    ButtonUsagesWalkTail();
    assert Step(s0, ButtonUsages[0]) == s1;
  }

  /** The walk of ButtonUsages from item 1 on. */
  lemma ButtonUsagesWalkTail()
    ensures FieldsFrom(ButtonUsages, 1, WalkState(9, 16, 4, [], 0, 0, 64)) == []
    ensures AfterFrom(ButtonUsages, 1, WalkState(9, 16, 4, [], 0, 0, 64)) == WalkState(9, 16, 4, [], 1, 8, 64)
  {
    var s1, s2, s3 := WalkState(9, 16, 4, [], 0, 0, 64), WalkState(9, 16, 4, [], 1, 0, 64), WalkState(9, 16, 4, [], 1, 8, 64);
    assert FieldsFrom(ButtonUsages, 3, s3) == [] && AfterFrom(ButtonUsages, 3, s3) == s3;
    assert Step(s2, ButtonUsages[2]) == s3;
    assert FieldsFrom(ButtonUsages, 2, s2) == [] && AfterFrom(ButtonUsages, 2, s2) == s3;
    assert Step(s1, ButtonUsages[1]) == s2;
  }

  lemma ButtonRangeWalk()
    ensures Fields(ButtonRange, WalkState(9, 16, 4, [], 1, 8, 64)) == []
    ensures After(ButtonRange, WalkState(9, 16, 4, [], 1, 8, 64)) == WalkState(9, 16, 4, [], 1, 8, 64)
  {
    var s0 := WalkState(9, 16, 4, [], 1, 8, 64);
    assert FieldsFrom(ButtonRange, 2, s0) == [] && AfterFrom(ButtonRange, 2, s0) == s0;
    assert Step(s0, ButtonRange[1]) == s0;
    assert FieldsFrom(ButtonRange, 1, s0) == [] && AfterFrom(ButtonRange, 1, s0) == s0;
    assert Step(s0, ButtonRange[0]) == s0;
  }

  /** The button Input item declares one 1-bit field per usage of the range. */
  lemma ButtonInputWalk()
    ensures Fields(ButtonInput, WalkState(9, 16, 4, [], 1, 8, 64)) == ButtonFields()
    ensures After(ButtonInput, WalkState(9, 16, 4, [], 1, 8, 64)) == WalkState(9, 1, 8, [], 0, 0, 72)
  {
    var s0, s1, s2, s3 := WalkState(9, 16, 4, [], 1, 8, 64), WalkState(9, 1, 4, [], 1, 8, 64), WalkState(9, 1, 8, [], 1, 8, 64), WalkState(9, 1, 8, [], 0, 0, 72);
    ButtonInputWalkTail();
    assert Step(s1, ButtonInput[1]) == s2;
    assert FieldsFrom(ButtonInput, 1, s1) == ButtonFields() && AfterFrom(ButtonInput, 1, s1) == s3;
    assert Step(s0, ButtonInput[0]) == s1;
  }

  /** The walk of ButtonInput from item 2 on. */
  lemma ButtonInputWalkTail()
    ensures FieldsFrom(ButtonInput, 2, WalkState(9, 1, 8, [], 1, 8, 64)) == ButtonFields()
    ensures AfterFrom(ButtonInput, 2, WalkState(9, 1, 8, [], 1, 8, 64)) == WalkState(9, 1, 8, [], 0, 0, 72)
  {
    var s2, s3 := WalkState(9, 1, 8, [], 1, 8, 64), WalkState(9, 1, 8, [], 0, 0, 72);
    assert FieldsFrom(ButtonInput, 3, s3) == [] && AfterFrom(ButtonInput, 3, s3) == s3;
    assert Step(s2, ButtonInput[2]) == s3;
    assert Emitted(s2, ButtonInput[2]) == ButtonFields();
  }

  lemma TrailerWalk()
    ensures Fields(Trailer, WalkState(9, 1, 8, [], 0, 0, 72)) == []
    ensures After(Trailer, WalkState(9, 1, 8, [], 0, 0, 72)) == WalkState(9, 1, 8, [], 0, 0, 72)
  {
    var s0 := WalkState(9, 1, 8, [], 0, 0, 72);
    assert FieldsFrom(Trailer, 2, s0) == [] && AfterFrom(Trailer, 2, s0) == s0;
    assert Step(s0, Trailer[1]) == s0;
    assert FieldsFrom(Trailer, 1, s0) == [] && AfterFrom(Trailer, 1, s0) == s0;
    assert Step(s0, Trailer[0]) == s0;
  }

  /** The fields of a map made of eight blocks, from those of the blocks. */
  lemma FieldsOfBlocks(
    a: seq<ShortItem>, b: seq<ShortItem>, c: seq<ShortItem>, d: seq<ShortItem>,
    e: seq<ShortItem>, f: seq<ShortItem>, g: seq<ShortItem>, h: seq<ShortItem>,
    s0: WalkState, s1: WalkState, s2: WalkState, s3: WalkState, s4: WalkState, s5: WalkState,
    axes: seq<DeclaredField>, buttons: seq<DeclaredField>)
    requires Fields(a, s0) == [] && After(a, s0) == s1
    requires Fields(b, s1) == [] && After(b, s1) == s2
    requires Fields(c, s2) == [] && After(c, s2) == s2
    requires Fields(d, s2) == axes && After(d, s2) == s3
    requires Fields(e, s3) == [] && After(e, s3) == s4
    requires Fields(f, s4) == [] && After(f, s4) == s4
    requires Fields(g, s4) == buttons && After(g, s4) == s5
    requires Fields(h, s5) == [] && After(h, s5) == s5
    ensures Fields(a + b + c + d + e + f + g + h, s0) == axes + buttons
    ensures After(a + b + c + d + e + f + g + h, s0) == s5
  {
    FieldsAppend(a, b, s0);
    var p := a + b;
    assert Fields(p, s0) == [] && After(p, s0) == s2;
    FieldsAppend(p, c, s0);
    p := p + c;
    assert Fields(p, s0) == [] && After(p, s0) == s2;
    FieldsAppend(p, d, s0);
    p := p + d;
    assert Fields(p, s0) == axes && After(p, s0) == s3;
    FieldsAppend(p, e, s0);
    p := p + e;
    assert Fields(p, s0) == axes && After(p, s0) == s4;
    FieldsAppend(p, f, s0);
    p := p + f;
    assert Fields(p, s0) == axes && After(p, s0) == s4;
    FieldsAppend(p, g, s0);
    p := p + g;
    assert Fields(p, s0) == axes + buttons && After(p, s0) == s5;
    FieldsAppend(p, h, s0);
  }

  /** The input report the map declares: X, Y, Rx and Ry of Generic Desktop
      as 16-bit fields at bits 0, 16, 32 and 48, then buttons 1 .. 8 as 1-bit
      fields at bits 64 .. 71; 72 bits in all, exactly the nine bytes the
      encoder produces. */
  lemma DeclaredInputReport()
    ensures Fields(JoystickItems, StartState) == AxisFields + ButtonFields()
    ensures After(JoystickItems, StartState).bitOffset == 8 * ReportEncoder.ReportLength
  {
    HeaderWalk();
    AxisUsagesWalk();
    AxisRangesWalk();
    AxisInputWalk();
    ButtonUsagesWalk();
    ButtonRangeWalk();
    ButtonInputWalk();
    TrailerWalk();
    FieldsOfBlocks(Header, AxisUsages, AxisRanges, AxisInput, ButtonUsages, ButtonRange, ButtonInput, Trailer,
      StartState, WalkState(1, 0, 0, [], 0, 0, 0), WalkState(1, 0, 0, AxisUsageIds, 0, 0, 0),
      WalkState(1, 16, 4, [], 0, 0, 64), WalkState(9, 16, 4, [], 1, 8, 64), WalkState(9, 1, 8, [], 0, 0, 72),
      AxisFields, ButtonFields());
  }
}
