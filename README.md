# arduino-touch HID report handling, modelled in Dafny

This project models the part of arduino-touch that turns raw USB HID
boot-protocol reports into edge-triggered input events. It has five modules:

- `Bytes` (`bytes.dfy`) holds the machine-width values the other modules share:
  - unsigned bytes as `bv8`, with single-bit masks and bit tests;
  - 16-bit ids and timestamps as integers in `0..65535`;
  - the `(int8_t)` and `(int16_t)` conversions.
- `Keyboard` (`keyboard.dfy`) is the boot keyboard decoder `KeyboardDevice`:
  - it stores the previous and current 8-byte report (USB HID 1.11, Appendix B.1);
  - it emits a modifier event for each modifier bit that changed (found by XOR);
  - it emits key presses and key releases as two-way set differences of the scancode slots;
  - it includes the scancode-name table and the modifier-string builder.
- `Mouse` (`mouse.dfy`) is the boot mouse decoder `MouseDevice` (USB HID 1.11, Appendix B.2, plus a wheel byte):
  - it emits button events from an XOR of the button bytes;
  - it keeps an `int16_t` position that is summed, truncated to 16 bits and then clamped;
  - it emits a wheel event for every nonzero wheel byte.
- `Hid` (`hid_manager.dfy`) is `HIDManager`:
  - a one-slot device table with first-free allocation and lookup by vendor and product id;
  - a type guess from report length alone;
  - per-byte change detection against an 8-byte stored copy, with a change bitmask;
  - eviction of silent devices using wraparound-safe 16-bit time differences;
  - the poll-interval rule;
  - dispatch of changed payloads to the decoder that matches the slot's type.
- `KeyboardSets` (`keyboard_sets.dfy`) is the alternate three-keyboard tracker `KBSET`:
  - an identity table that appends an identity the first time it is seen;
  - change detection by `memcmp` over 64-byte rows.

Printed output is modelled as returned sequences of event values. The
millisecond clock and the vendor and product id of the reporting device are
parameters.

Two places where the code's own comments promise more than its statements do; the model follows the statements:

- **Mouse position.** The clamp at MouseDevice.cpp:77-81 is commented 防止坐标溢出 ("prevent coordinate overflow"), but the code adds the motion into an `int16_t`, so the sum wraps before the clamp: 32767 + 1 becomes -32768 and is then clamped to -32767. `Mouse.NextCoordinateSaturatesIff` pins down exactly when the two readings agree.
- **Eviction threshold.** HIDManager.h:17 gives `DEVICE_TIMEOUT` as 5000 ms, and HIDManager.cpp:193 comments the shift as dividing by 64 to convert to relative time units ("1 second" at line 223). But `getRelativeTime` (HIDManager.h:84-86) is `millis() & 0xFFFF` with no division, so `DEVICE_TIMEOUT >> 6` (78) and `1000 >> 6` (15) are compared with differences of millisecond timestamps, not of 64 ms units. A device is therefore evicted after 79 ms of silence, not after 5 seconds (`Hid.EvictedLongBeforeDeviceTimeout`).

## Model

| member | source | states |
|---|---|---|
| Bytes.Signed8 | MouseDevice.cpp:33-37 | the `(int8_t)` cast gives a value in -128..127, congruent to the byte modulo 256, and zero only for the zero byte |
| Bytes.Wrap16 | MouseDevice.h:65-66 | storing into an `int16_t` gives a value in -32768..32767, congruent to the stored value modulo 65536 |
| Keyboard.ModifierMasksLayout | KeyboardDevice.h:14-21 | the eight `MOD_*` masks are the single bits 0..7, their union is 0xFF, and each right-hand mask is its left-hand counterpart shifted left by 4 |
| Keyboard.ReportFromBytes | KeyboardDevice.cpp:27-31 | the parsed report has modifiers `data[0]`, reserved `data[1]` and `keys[i] == data[i+2]` for the six slots |
| Keyboard.ModifierEventsExact | KeyboardDevice.cpp:82-117 | an event is emitted for modifier bit `i` exactly when that bit differs between the two bytes; it carries the current bit; events come in increasing bit order |
| Keyboard.ModifierEventsEmptyIff | KeyboardDevice.cpp:39-41 | no modifier event is emitted exactly when the modifier byte is unchanged |
| Keyboard.KeyPressIff | KeyboardDevice.cpp:44-60 | a press of `k` is reported exactly when `k` is a nonzero scancode of the current report absent from the previous one, and it carries the current modifiers |
| Keyboard.KeyReleaseIff | KeyboardDevice.cpp:63-79 | a release of `k` is reported exactly when `k` is a nonzero scancode of the previous report absent from the current one, and it carries the previous modifiers |
| Keyboard.NoKeyEventsIffSameKeySet | KeyboardDevice.cpp:44-79 | no press and no release is emitted exactly when both reports hold the same set of nonzero scancodes |
| Keyboard.RepeatedKeysNoEvents | KeyboardDevice.cpp:37-79 | an identical report, or one whose scancodes are a permutation of the previous ones, emits no event at all |
| Keyboard.DuplicateScancodePressedTwice | KeyboardDevice.cpp:44-60 | a new scancode held in two slots is pressed twice |
| Keyboard.PressThenReleaseA | KeyboardDevice.cpp:37-79 | pressing A and then releasing it emits exactly one press and then exactly one release |
| Keyboard.KeyboardDevice.constructor | KeyboardDevice.cpp:3-7 | the new decoder is disarmed and both reports are all zero |
| Keyboard.KeyboardDevice.Init | KeyboardDevice.cpp:9-12 | arms the decoder and keeps both reports |
| Keyboard.KeyboardDevice.Reset | KeyboardDevice.cpp:14-18 | disarms the decoder and zeroes both reports |
| Keyboard.KeyboardDevice.ParseKeyboardReport | KeyboardDevice.cpp:20-35 | a disarmed decoder or a report shorter than 8 bytes changes nothing and emits nothing; otherwise the old current report becomes the previous one, the new report is read from `data`, and the events are the key changes between the two |
| Keyboard.KeyboardDevice.DetectKeyChanges | KeyboardDevice.cpp:37-80 | the nested `wasPressed`/`stillPressed` loops emit the modifier events, then the presses in slot order, then the releases in slot order, as characterised by the lemmas above |
| Keyboard.HexName | KeyboardDevice.cpp:206-209 | `"0x%02X"` gives four characters starting with "0x" |
| Keyboard.HexNameRoundTrip | KeyboardDevice.cpp:206-209 | the two uppercase hex digits read back give the code |
| Keyboard.KeyNameLetters | KeyboardDevice.cpp:137-162 | scancodes 0x04..0x1D are named "A".."Z" |
| Keyboard.KeyNameDigits | KeyboardDevice.cpp:163-172 | scancodes 0x1E..0x26 are named "1".."9" and 0x27 is "0" |
| Keyboard.KeyNameHexIff | KeyboardDevice.cpp:136-210 | a scancode is printed in hex exactly when it is outside 0x04..0x31, 0x33..0x45 and 0x4F..0x52, so 0x32 is printed in hex |
| Keyboard.ModifierStringIsJoin | KeyboardDevice.cpp:213-250 | the modifier string joins the names of the set bits with "+" in the order LCtrl, RCtrl, LShift, RShift, LAlt, RAlt, LWin, RWin, and is empty exactly when no bit is set |
| Mouse.ButtonMasksLayout | MouseDevice.h:15-17 | the button masks are the single bits 0, 1 and 2 |
| Mouse.ReportFromBytes | MouseDevice.cpp:32-40 | buttons is `data[0]`; x and y are `data[1]` and `data[2]` read as signed bytes; the wheel is `data[3]` read as a signed byte when present, else 0 |
| Mouse.ButtonEventsExact | MouseDevice.cpp:48-68 | a button event is emitted exactly for each of left, right and middle whose bit differs, with the new bit; bits 3..7 never produce one |
| Mouse.ButtonEventsOrder | MouseDevice.cpp:48-68 | button events come in the order left, right, middle |
| Mouse.ButtonEventsEmptyIff | MouseDevice.cpp:49-67 | no button event is emitted exactly when the low three button bits agree |
| Mouse.ButtonName | MouseDevice.cpp:120-131 | the name is "Unknown" exactly when the mask is none of the three button masks |
| Mouse.NextCoordinate | MouseDevice.cpp:74-81 | every update leaves the coordinate in -32767..32767 |
| Mouse.NextCoordinateAccumulates | MouseDevice.cpp:74-75 | away from the edges the coordinate is the old coordinate plus the motion |
| Mouse.NextCoordinateWrapsPastMax | MouseDevice.cpp:74-81 | running past 32767 wraps to a negative coordinate (32768 becomes -32767) |
| Mouse.NextCoordinateWrapsPastMin | MouseDevice.cpp:74-81 | reaching -32768 is clamped to -32767, and running further past the edge wraps to a positive coordinate |
| Mouse.NextCoordinateSaturatesIff | MouseDevice.cpp:74-81 | the update equals a saturating accumulator exactly when the exact sum fits into an `int16_t` |
| Mouse.RepeatedReportEvents | MouseDevice.cpp:43-45 | a report delivered again emits no button event but repeats its move and wheel events |
| Mouse.MoveThenClick | MouseDevice.cpp:25-46 | a move by (5, -3) from the origin emits one move to (5, -3); a following left click without motion emits one left press |
| Mouse.MouseDevice.constructor | MouseDevice.cpp:3-9 | the new decoder is disarmed, both reports are zero and the position is (0, 0) |
| Mouse.MouseDevice.Init | MouseDevice.cpp:11-15 | arms the decoder and recentres the position, keeping both reports |
| Mouse.MouseDevice.Reset | MouseDevice.cpp:17-23 | disarms the decoder, zeroes both reports and recentres the position |
| Mouse.MouseDevice.ParseMouseReport | MouseDevice.cpp:25-46 | a disarmed decoder or a report shorter than 3 bytes changes nothing and emits nothing; otherwise the old current report becomes the previous one, the new report is read from `data`, the position moves only for nonzero motion, and the events are buttons, then the move, then the wheel |
| Mouse.MouseDevice.DetectButtonChanges | MouseDevice.cpp:48-68 | emits the button events of the XOR of the two button bytes |
| Mouse.MouseDevice.DetectMovement | MouseDevice.cpp:70-85 | with zero motion the position and the output are unchanged; otherwise each coordinate takes its wrapped-then-clamped update and one move event carries the new position |
| Mouse.MouseDevice.DetectWheelMovement | MouseDevice.cpp:87-92 | emits one wheel event exactly when the wheel value is nonzero |
| Mouse.MouseDevice.GetCurrentPosition | MouseDevice.cpp:133-136 | returns the position, which lies in -32767..32767 |
| Hid.ThresholdValues | HIDManager.cpp:193-223 | the eviction threshold `DEVICE_TIMEOUT >> 6` is 78 and the activity window `1000 >> 6` is 15 |
| Hid.IdentifyDeviceTypeByLength | HIDManager.cpp:130-147 | lengths 8 and 6 give Keyboard, 3 and 4 give Mouse, every other length gives Unknown, and the contents are ignored |
| Hid.ElapsedIsModular | HIDManager.h:84-86 | the 16-bit difference of two relative times is the elapsed milliseconds modulo 65536, across clock wraps |
| Hid.RecentDeviceKept | HIDManager.cpp:192-193 | a device heard from at most 78 ms ago is never evicted, even across a clock wrap |
| Hid.SilentDeviceEvicted | HIDManager.cpp:192-193 | a device silent for more than 78 ms, and for less than one clock period, is evicted, even across a clock wrap |
| Hid.EvictedLongBeforeDeviceTimeout | HIDManager.cpp:193 | a device silent for 100 ms, far less than `DEVICE_TIMEOUT`, is already evicted |
| Hid.ElapsedAcrossWrap | HIDManager.cpp:192 | with last activity at 60000 and the clock at 500, the difference is 6036 |
| Hid.ChangeMaskUpToBits | HIDManager.cpp:291-296 | bit `i` of the change mask is set exactly when compared byte `i` differs |
| Hid.ChangeMaskNonzeroIff | HIDManager.cpp:277-284 | the change mask is nonzero exactly when some byte below `min(len, 8)` differs |
| Hid.RecordReportSpec | HIDManager.cpp:287-302 | after recording, the compared bytes equal the report and later bytes are untouched; bit `i` of `changeFlags` is set exactly when byte `i` differed; `changed` is `changeFlags != 0` and holds exactly when some byte differed; the activity time moves only on a change; no other field changes |
| Hid.RecordReportTwice | HIDManager.cpp:287-302 | once a report is recorded it no longer differs from the stored copy, and recording it again leaves the buffer as it is |
| Hid.HidManager.constructor | HIDManager.cpp:3-28 | every slot is empty, no device is counted, the current device is -1 and neither type is connected; both decoders are disarmed with all-zero reports and the mouse at (0, 0) |
| Hid.HidManager.Init | HIDManager.cpp:34-45 | resets both decoders |
| Hid.HidManager.HasDevicesIffActiveSlot | HIDManager.h:60-62 | `hasDevices` holds exactly when some slot is active |
| Hid.HidManager.FindDeviceSlot | HIDManager.cpp:107-114 | returns the first active slot with this identity, or -1 when none has it; it changes nothing |
| Hid.HidManager.CreateDeviceSlot | HIDManager.cpp:116-128 | claims the first inactive slot with the identity and the current time and counts it; with every slot active it returns -1 and changes nothing |
| Hid.HidManager.HasDataChanged | HIDManager.cpp:273-285 | true exactly when the index is in range and some byte below `min(len, 8)` differs from the stored copy; it changes nothing |
| Hid.HidManager.UpdateChangeFlags | HIDManager.cpp:287-302 | the slot becomes `RecordReport` of the old slot (see `Hid.RecordReportSpec`); other slots and the device count are unchanged |
| Hid.HidManager.ProcessDeviceData | HIDManager.cpp:149-183 | an out-of-range index or an unchanged payload changes nothing and emits nothing. Otherwise the slot records the report. A Keyboard slot reaches only the keyboard decoder, and only while a keyboard is connected; a Mouse slot likewise. An Unknown slot reaches no decoder. The decoder that is reached moves its old current report to the previous one and reads the new one (the mouse also moves its position) exactly when it is armed and the report is long enough, and is otherwise unchanged; the other decoder is unchanged. Afterwards the stored copy matches the report |
| Hid.HidManager.CheckDeviceStatus | HIDManager.cpp:185-210 | deactivates exactly the active slots whose 16-bit elapsed time exceeds 78. It clears the connected flag of each evicted slot's type and keeps the device count equal to the number of active slots. Both decoders are left as they are |
| Hid.HidManager.GetPollInterval | HIDManager.cpp:213-230 | 100 with no device; 1 when some active slot's elapsed time is below 15; 10 otherwise |
| Hid.HidManager.ParseHidData | HIDManager.cpp:56-105 | an empty report changes nothing. With no device tracked, slot 0 is claimed with the report's identity. Its type is guessed from the length and `bufferSize` stores the length modulo 64. The matching connected flag is set and that decoder is armed. Otherwise slot 0 keeps its identity, type and flags, whatever the report's identity. Slot 0 then records the report (change mask, `changed`, activity time) exactly when the payload differs. A changed payload gives the events of the connected decoder of the slot's type, computed from that decoder as armed (and, for a newly armed mouse, recentred). The ensures also give both decoders' new reports and position. An unchanged payload or an Unknown slot emits nothing |
| Hid.HidManager.SelectDevice | HIDManager.cpp:70-98 | with no device tracked, slot 0 becomes `ClaimSlot` of itself and is counted. The connected flag of its type is set, and the decoder of that type is armed, a mouse also being recentred when it was not armed before. With a device tracked, slot 0 is reused unchanged. In both cases slot 0 is active afterwards and both decoders keep their reports |
| Hid.SixByteKeyboardSilent | HIDManager.cpp:139-141 | a 6-byte report is classified Keyboard, yet the keyboard decoder drops it and emits nothing |
| Hid.RepeatedReportIgnored | HIDManager.cpp:149-155 | the same report delivered twice in a row emits nothing the second time |
| Hid.KeyboardPressThenRelease | HIDManager.cpp:56-105 | on a new manager, an 8-byte "A pressed" report emits exactly one press of 0x04, and the following "A released" report exactly one release |
| Hid.MouseMoveThenClick | HIDManager.cpp:56-105 | on a new manager, a 4-byte "move by (5, -3)" report emits exactly that move, and the following "left button down" report exactly one left press; the pointer is then at (5, -3) |
| KeyboardSets.LastMatchUpToSpec | KeyboardSets.cpp:15-21 | the lookup yields 0xFF exactly when no entry matches, and otherwise the highest matching entry |
| KeyboardSets.AppendedIdentityFound | KeyboardSets.cpp:23-29 | after an unseen identity is written at entry `t`, the lookup finds it at `t` |
| KeyboardSets.KbSet.constructor | KeyboardSets.h:15-31 | every table entry, flag, size and row starts at zero, and the count is zero |
| KeyboardSets.KbSet.OnInitSuccessful | KeyboardSets.h:32-40 | the count becomes 0 and every stored-copy byte becomes 0xFF. Identities, buffers, sizes and flags are kept |
| KeyboardSets.KbSet.Lookup | KeyboardSets.cpp:15-21 | scans all three entries and returns the last index whose PID and VID match, or 0xFF |
| KeyboardSets.KbSet.ParseHidData | KeyboardSets.cpp:3-50 | the report goes to the last matching entry. An unseen identity is appended at the count with its identity and length, and the count grows by one. The change flag of that entry is false exactly when the report's bytes equal its stored copy. On a change, the first `len` bytes of both rows become the report; later bytes and every other entry are untouched |
| KeyboardSets.RepeatedReport | KeyboardSets.cpp:32-39 | the same report delivered twice in a row is not a change the second time |
| KeyboardSets.FirstReportAfterInit | KeyboardSets.h:34-38 | after an enumeration, the first report counts as a change exactly when one of its bytes is not 0xFF |

## Left out

- Printing:
  - `printKeyEvent`, `printButtonEvent`, `printMoveEvent`, `printWheelEvent`, `debugPrint`, `debugPrintHex`, `printConnectedDevices`, `printMemoryUsage` and the hex dumps of both report callbacks are not modelled.
  - Each printed line is an event value instead. Key events carry the scancode and the modifier byte, and `Keyboard.KeyName` and `Keyboard.ModifierString` give the text the line would contain.
- The USB Host Shield library:
  - `HIDUniversal`, `isReady`, `isConnected` and `connected` are not visible here.
  - `HIDManager::OnInitSuccessful` only prints.
  - The device's VID and PID are parameters of the report callbacks.
- The clock:
  - `millis()` is replaced by a parameter.
  - `Hid.RelativeTime` models `getRelativeTime` on a natural millisecond count.
  - One report callback takes a single 16-bit time. The source reads the clock once when it claims a slot and again when it records a change.
- Statistics and configuration: `lastPollTime`, `pollCount`, `USE_INTERRUPT` and `DEBUG_MODE` are not modelled.
- Null pointers: the `data == nullptr` and `buf == nullptr` guards are not modelled, because a report is a sequence here. The `uint8_t len` argument is the sequence length, and the callbacks require fewer than 256 bytes.
- Bit-field packing and the size of the structures are not modelled, except the 6-bit truncation of `bufferSize`.
- `BufferSizeOld` of `KBSET` is declared but never read or written, so it has no counterpart.
- Initial state: `KBSET`'s constructor (KeyboardSets.h:10-11) initialises none of its arrays. The model starts them at zero, as for an object in static storage.
- The commented-out hex dump in `KBSET::ParseHIDData` is not modelled.
- Concurrency: reports are delivered one at a time by a single callback.
- KeyboardSets.KbSet.ParseHidData: requires a report of at most 64 bytes, and a free entry when the identity is unseen. Outside these the source writes past its arrays, and the model does not describe that.

