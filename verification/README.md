# Joystick HID-over-GATT bridge: a Dafny model

This project models the joystick side of an ESP32 firmware. The firmware receives
joystick commands on a FreeRTOS queue. It presents them to a Bluetooth LE host
as HID input reports, using the HID-over-GATT profile.

The model covers:

- **`joystick_command_t`** (`HidTypes`). It is a button mask followed by four
  16-bit axes, each documented to lie in 1000 to 2000. The mask is one bit per
  button, for buttons 1 to 8.
- **The report encoder** (`ReportEncoder`). It turns a command into the 9-byte
  input report. Each axis field is `axis - 1000`, 16-bit little-endian, in the
  order X, Y, X rotation, Y rotation. The button mask is the last byte.
  - The C arithmetic is written out: `& 0xff`, an arithmetic `>> 8`, and
    truncation to `uint8_t`.
  - As a result, every field is `(axis - 1000) mod 65536`. There is no clamping.
- **The HID report map** (`ReportDescriptor`). The constant 54-byte template is
  a list of short items in the sense of section 6.2.2.2 of the USB HID Device
  Class Definition 1.11.
  - The template parses back into exactly those items.
  - Walking the items as a host's parser does (`ReportWalk`) (global Usage Page, Report
    Size and Report Count; local Usage, Usage Minimum and Usage Maximum, which
    each main item consumes) gives the input fields the map declares, each
    with its usage and bit position: X, Y, Rx and Ry of the Generic Desktop
    page as 16-bit fields at bits 0, 16, 32 and 48, then buttons 1 to 8 as
    1-bit fields at bits 64 to 71. That is 72 bits, the nine bytes the encoder
    produces.
- **The report as a host reads it** (`ReportLayout`). Fields are packed least
  significant bit first. The field declared for axis usage i holds
  `(axis_i - 1000) mod 65536`, which is `axis_i - 1000`, within the declared
  logical range 0 to 1000, when the command is in the documented range. The
  field declared for button k + 1 is 1 exactly when bit k of the mask is set.
  A host reads the field values: it does not add 1000 back, so an axis below
  1000 or above 2000 reaches it as a value outside the declared range (axis 0
  reads as 64536).
  - The start-up copy-and-patch is the method `BuildReportMap`. It allocates a
    buffer, copies the template, overwrites index 7 with the report ID and
    advances the write position by 54.
- **The joystick task** (`ReportSender`). Each received command causes one
  `setValue(a, 9)` and then one `notify()` on the input-report characteristic.
  A receive timeout causes nothing. The notified payloads are the reports of
  the received commands, in the order they were received, and the inverse of
  the encoder turns them back into those commands.
- **The connection flag** (`Connection`). `isConnected` starts at 0.
  - A connect sets it to 1 and starts the joystick task.
  - A disconnect sets it to 0, stops the task and restarts advertising.
  - `HID_joystick_isConnected` returns the flag, which is always 0 or 1.
- **The pass key** (`Security`). It starts at 1307. Every `onPassKeyNotify`
  replaces it, and `onPassKeyRequest` returns the stored key.
- **`HID_joystick_init` and the start-up task** (`HidJoystick`).
  - Init creates a 32-entry queue, `strncpy`s at most 39 characters of the name
    into the zero-initialised 40-byte `btname`, starts the start-up task and
    returns `ESP_OK`. Because `btname[39]` is never written, the buffer always
    holds the name cut to 39 characters.
  - The start-up task creates the joystick task and the callbacks, and builds
    the report map.
  - Only when the allocation succeeds does it create input report 1, hand the
    map to the HID service and start the services.
  - It starts advertising in either case.

The firmware's globals and callback objects become classes whose methods carry
`modifies` clauses:

- `JoystickTask` holds the task state and the calls made on the characteristic.
- `ServerCallbacks` holds `isConnected`.
- `SecurityCallbacks` holds `passKey`.
- `Device` holds `btname`, the queue and what the start-up task sets up. It
  answers `HID_joystick_isConnected` from the flag the callbacks keep, or 0
  before they exist.

The pure parts are functions with lemmas: the encoder, the item layout of the
report map and the C-string helpers.

Things the model takes as parameters:

- Whether `malloc` succeeds is the parameter `allocSucceeds`.
- What the queue delivers is a sequence of receive outcomes, where `None` is a
  timeout.

## Model

| member | source | states |
|---|---|---|
| HidTypes.ButtonStates | HID_joystick.h:69-70 | a mask gives eight pressed flags, button k+1 at bit k, and the flags' binary value is the mask |
| HidTypes.ButtonMask | HID_joystick.h:69-70 | for any eight pressed flags, there is a mask whose button states are exactly those flags (inverse of ButtonStates) |
| HidTypes.FromBitsBits | HID_joystick.h:69-70 | reading back the low n bits of a value below 2^n gives the value |
| ReportEncoder.EncodeReport | HID_joystick.cpp:121-130 | the report has 9 bytes; byte 8 is the button mask unchanged; field i (bytes 2i and 2i+1, little-endian) is (axis_i - 1000) mod 65536, axes in the order X, Y, X rotation, Y rotation |
| ReportEncoder.BytesOfOffset | HID_joystick.cpp:122-129 | `v & 0xff` plus 256 times `(uint8_t)(v >> 8)` is v mod 65536 for every int v, negative ones included |
| ReportEncoder.DecodeReport | HID_joystick.cpp:121-130 | the inverse of the encoder: a buffer decodes exactly when it has 9 bytes, and the decoded buttons are byte 8 |
| ReportEncoder.DecodeEncode | HID_joystick.cpp:121-130 | decoding the report of any command gives that command back |
| ReportEncoder.EncodeDecode | HID_joystick.cpp:121-130 | every 9-byte buffer is the report of the command it decodes to, so the encoder is a bijection onto 9-byte reports |
| ReportEncoder.FieldRoundTrip | HID_joystick.cpp:122-129 | adding 1000 to a 16-bit field and subtracting it again, mod 65536, gives the field |
| ReportEncoder.InRangeFields | HID_joystick.h:71-78 | for axes in 1000..2000, field i is exactly axis_i - 1000, lies in 0..1000, and field + 1000 is the axis |
| ReportEncoder.CentredAxisExample | HID_joystick.cpp:122-123 | axis 1500 is sent as F4 01 |
| ReportEncoder.RangeEndsExample | HID_joystick.cpp:122-130 | axis 1000 is sent as 00 00 and 2000 as E8 03; the mask is the last byte |
| ReportEncoder.UnclampedExample | HID_joystick.cpp:122-123 | axis 0 is not clamped and is sent as 18 FC, that is -1000 in 16 bits |
| ReportDescriptor.TagOf | HID_joystick.cpp:72-107 | recovers the only item tag with the given prefix bits, or none |
| ReportDescriptor.ParseSerialize | HID_joystick.cpp:71-108 | parsing the bytes of well-formed short items gives the items back |
| ReportDescriptor.SerializeAppend | HID_joystick.cpp:71-108 | the bytes of two item lists laid end to end are the two byte strings concatenated |
| ReportDescriptor.TemplateItems | HID_joystick.cpp:71-108 | the 54-byte template is the serialisation of the 26 items the firmware writes with item macros, and parses back into them |
| ReportWalk.FieldsAppend | HID_joystick.cpp:71-108 | the fields of two item lists walked one after the other are those of the first, then those of the second from the state the first leaves |
| ReportWalk.HeaderWalk | HID_joystick.cpp:72-76 | the header declares no field and leaves the Generic Desktop page selected with no usage pending (the collections consume the Gamepad usage) |
| ReportWalk.AxisUsagesWalk | HID_joystick.cpp:81-84 | the four Usage items queue X, Y, Rx, Ry for the next main item |
| ReportWalk.AxisRangesWalk | HID_joystick.cpp:89-92 | the logical and physical ranges declare no field and change neither the layout nor the usages |
| ReportWalk.AxisInputWalk | HID_joystick.cpp:93-95 | Report Size 16 and Report Count 4 make the Input item declare X, Y, Rx, Ry as 16-bit fields at bits 0, 16, 32, 48, and move the bit position to 64 |
| ReportWalk.ButtonUsagesWalk | HID_joystick.cpp:97-99 | the Button page with Usage Minimum 1 and Usage Maximum 8 is selected for the next main item |
| ReportWalk.ButtonRangeWalk | HID_joystick.cpp:100-101 | the 0..1 logical range declares no field and changes nothing the layout depends on |
| ReportWalk.ButtonInputWalk | HID_joystick.cpp:102-104 | Report Size 1 and Report Count 8 make the Input item declare buttons 1..8 as 1-bit fields at bits 64..71, ending at bit 72 |
| ReportWalk.TrailerWalk | HID_joystick.cpp:106-107 | closing the collections declares no field |
| ReportWalk.DeclaredInputReport | HID_joystick.cpp:71-108 | the whole map declares exactly X, Y, Rx, Ry (16 bits at 0, 16, 32, 48) and buttons 1..8 (1 bit at 64..71); the report ends at bit 72, the encoder's 9 bytes |
| ReportLayout.ReportBitsOfByte | HID_joystick.cpp:121-130 | byte j of the report occupies bits 8j..8j+7, least significant first |
| ReportLayout.FromBitsAppend | HID_joystick.cpp:121-130 | the value of two bit strings side by side is the first plus 2^len times the second |
| ReportLayout.SixteenBitField | HID_joystick.cpp:121-130 | the 16 bits from bit 16i hold bytes 2i and 2i+1, low byte first |
| ReportLayout.AxisFieldCarriesAxis | HID_joystick.cpp:81-95 | the field the map declares at position i is usage X, Y, Rx, Ry of Generic Desktop, 16 bits at bit 16i, and a host reads there (axis_i - 1000) mod 65536, which is axis_i - 1000 for an in-range command |
| ReportLayout.ButtonFieldCarriesButton | HID_joystick.cpp:97-104 | the field the map declares at position 4+k is button k+1, 1 bit at bit 64+k, and a host reads 1 there exactly when button k+1 is pressed in the command's mask |
| ReportDescriptor.AxisFieldsWithinLogicalRange | HID_joystick.cpp:89-90 | for in-range commands, every axis field lies within the declared Logical Minimum..Maximum (0..1000) |
| ReportDescriptor.PatchTargets | HID_joystick.cpp:75-76 | item 3 is the Physical collection, with its data byte at index 7; item 4 is the Report ID item, with its data byte at index 9 |
| ReportDescriptor.TemplateReportIdByte | HID_joystick.cpp:76 | the template's Report ID data byte, at index 9, is 1 |
| ReportDescriptor.PatchDataByte | HID_joystick.cpp:301 | overwriting a data byte of the serialised map is the same as changing that byte in that one item; nothing else moves |
| ReportDescriptor.AsWrittenReportMap | HID_joystick.cpp:300-301 | the map handed to the service has the template's length; index 7 holds the report ID and every other byte equals the template |
| ReportDescriptor.AsWrittenPatchRewritesCollection | HID_joystick.cpp:301 | after the patch, the map parses to the template items with the Physical collection's kind replaced by the report ID; index 9 keeps 0x01 |
| ReportDescriptor.AsWrittenCounterexample | HID_joystick.cpp:301 | with report ID 1 the inner collection becomes Application (0x01); with report ID 2 the Report ID item would still say 1 |
| ReportDescriptor.IntendedReportMap | HID_joystick.cpp:69 | the corrected patch keeps the template's length |
| ReportDescriptor.IntendedPatchSetsReportId | HID_joystick.cpp:69-76 | patching the Report ID item's data byte sets that item to the report ID and changes no other item; with ID 1 the template is unchanged |
| ReportDescriptor.BuildReportMap | HID_joystick.cpp:286-302 | allocation failure gives no buffer and copies nothing; otherwise the buffer is fresh, equals the as-written map, and the write position ends 54 bytes past its start |
| ReportSender.CallsForAppend | HID_joystick.cpp:115-134 | the calls for one more receive outcome are appended after the earlier ones; a timeout appends none |
| ReportSender.CallsForLength | HID_joystick.cpp:118-134 | two calls per delivered command and none per timeout |
| ReportSender.CallsForShape | HID_joystick.cpp:118-134 | the k-th delivered command causes calls 2k and 2k+1: a SetValue of its 9-byte report, then a Notify; so the calls come in receive order with nothing in between |
| ReportSender.NotifiedReports | HID_joystick.cpp:132-133 | the host is notified once per delivered command, with that command's report, in receive order |
| ReportSender.NotifiedReportsDecodeInOrder | HID_joystick.cpp:115-134 | the notified payloads, run through the encoder's inverse, are exactly the delivered commands, first in first out |
| ReportSender.JoystickTask.constructor | HID_joystick.cpp:243 | a new task is not running and has made no calls |
| ReportSender.JoystickTask.Start | HID_joystick.cpp:150 | the task runs and no call is made |
| ReportSender.JoystickTask.Stop | HID_joystick.cpp:163 | the task stops and no call is made |
| ReportSender.JoystickTask.Run | HID_joystick.cpp:112-136 | running over a sequence of receive outcomes appends exactly CallsFor of them to the calls made |
| Connection.FlagAfter | HID_joystick.cpp:146-159 | the flag is 0 or 1, and it is 1 exactly when the last link event was a connect |
| Connection.ServerCallbacks.constructor | HID_joystick.cpp:51 | the flag starts at 0, with no events, no restarts and the sender stopped |
| Connection.ServerCallbacks.OnConnect | HID_joystick.cpp:142-153 | the flag becomes 1 and the sender is started; no report is sent; the invariant is kept |
| Connection.ServerCallbacks.OnDisconnect | HID_joystick.cpp:155-169 | the flag becomes 0, the sender is stopped and advertising is restarted once; the invariant is kept |
| Connection.ServerCallbacks.IsConnected | HID_joystick.cpp:370-373 | returns 0 or 1; 1 exactly when the last link event was a connect, and exactly when the sender runs |
| Security.PassKeyAfter | HID_joystick.cpp:172-195 | the key is 1307 before any notify, and otherwise one of the notified keys |
| Security.LatestNotifyWins | HID_joystick.cpp:191-195 | after any history, the stored key is the last key notified |
| Security.SecurityCallbacks.constructor | HID_joystick.cpp:172 | the key starts at 1307 |
| Security.SecurityCallbacks.OnPassKeyNotify | HID_joystick.cpp:191-195 | the notified key replaces the stored one |
| Security.SecurityCallbacks.OnPassKeyRequest | HID_joystick.cpp:182-187 | returns the last notified key, or 1307 when none was notified |
| HidJoystick.Strncpy | HID_joystick.cpp:384 | strncpy writes exactly n characters |
| HidJoystick.CStr | HID_joystick.cpp:54 | the C string in a buffer is a NUL-free prefix of it, ended by a NUL when shorter than the buffer |
| HidJoystick.ReadableStop | HID_joystick.cpp:384 | where the copy stops short of 39 characters, the name holds a NUL there |
| HidJoystick.CStrTake | HID_joystick.cpp:384 | the string in the first n characters is the string cut to n characters |
| HidJoystick.CopiedName | HID_joystick.cpp:384 | the copied characters followed by the untouched NUL hold the name cut to 39 characters |
| HidJoystick.Device.constructor | HID_joystick.cpp:48-62 | all 40 characters of btname are NUL, there is no queue, and nothing is set up |
| HidJoystick.Device.Init | HID_joystick.cpp:378-391 | creates a 32-entry queue and returns ESP_OK; btname's first 39 characters are strncpy of the name; btname[39] stays NUL, so btname holds the name cut to 39 characters; nothing else changes |
| HidJoystick.Device.IsConnected | HID_joystick.cpp:370-373 | returns 0 or 1: 0 before the callbacks exist, then the flag the callbacks keep, which is 1 exactly when the sender runs |
| HidJoystick.Device.CopyName | HID_joystick.cpp:384 | btname becomes strncpy of the name over 39 characters, followed by the untouched NUL at index 39 |
| HidJoystick.Device.RunHog | HID_joystick.cpp:243-334 | creates a stopped sender and callbacks with the flag at 0; takes the device name from btname; on successful allocation, hands the as-written map to the service, creates input report 1 and starts the services; on failure, sets none of these up; advertising is started in both cases |
| HidJoystick.StartUp | HID_joystick.cpp:378-391 | after init and the start-up task, the device name is the given name cut to 39 characters, the queue holds 32, advertising is on, and services and input report 1 exist exactly when allocation succeeded |

## Left out

- BLE stack calls are not modelled; their code is not part of this model. This covers `BLEDevice::init`, server creation, `BLEHIDDevice` (manufacturer, PnP ID, HID information, `reportMap`, `startServices`) and advertising (`setAppearance`, intervals, `addServiceUUID`). The model records only that they were reached.
- `HID_joystick_activatePairing` and `HID_joystick_deactivatePairing` are not modelled. They only start or stop advertising through the BLE stack and return `ESP_OK`.
- The 0x2902 Client Characteristic Configuration descriptor is not modelled: `onConnect` and `onDisconnect` toggle its notifications flag through the stack. The code keeps no notify-enabled state of its own, and neither does the model.
- The FreeRTOS queue is not modelled as an implementation. Its internals, `xQueueCreate` failure and the 10000-tick receive timeout are abstracted: the task sees a sequence of receive outcomes.
- Task creation, stack sizes, `vTaskDelay` in `onPassKeyRequest` and the idle loop at the end of the start-up task are left out.
- ReportSender.JoystickTask.Run: models a finite prefix of the task's endless loop.
- Concurrency between the callbacks and the joystick task is not modelled; each operation is one atomic step.
- Logging is left out everywhere.
- The constant-true security callbacks (`onSecurityRequest`, `onConfirmPIN`) and the authentication-complete logging are left out.
- `BLESecurity` capability and key-mask configuration is left out.
- HidJoystick.Device.RunHog: does not model the null `inputJoystick` that `onConnect` and the joystick task would dereference when the report-map allocation failed; the model records that no input report exists.
- HidJoystick.Device.Init: requires the name to hold a NUL within its first 39 characters or to have at least 39 characters, which is what `strncpy` needs to read it.
- C `char` is one byte; the model's `char` stands for one such byte, so `strncpy`'s limit of 39 counts characters one to one. Multi-byte encodings of the name are not modelled.
- The report-map walk handles Variable input items and the item kinds the map uses; Array inputs, Output and Feature items, Push and Pop, delimiters and extended (32-bit) usages are not modelled, since the map has none.
- The header's `keyboard_action` enum is unused and left out; so is `config.h`.

## Findings

| source | as written | input that shows it | evidently intended | confidence | as-written member | corrected member |
|---|---|---|---|---|---|---|
| HID_joystick.cpp:301 | `reportMap[7] = reportID` writes the data byte of the second `COLLECTION` item, turning Physical (0x00) into Application (0x01); the comment at line 69 places the report ID at offset 7, but the `REPORT_ID` data byte is at index 9 | report ID 1: the map's inner collection becomes Application; report ID 2: the Report ID item still says 1 | write the report ID into the `REPORT_ID` item's data byte (index 9) | not executed | ReportDescriptor.AsWrittenCounterexample | ReportDescriptor.IntendedPatchSetsReportId |

`BuildReportMap` and `RunHog` keep the firmware's index-7 patch, since that is
the map the device hands to the host. With the firmware's report ID 1, the
corrected map is the template itself, as `IntendedPatchSetsReportId` shows.
