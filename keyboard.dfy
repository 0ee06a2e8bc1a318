/**
  The boot-protocol keyboard decoder (USB HID 1.11, Appendix B.1).

  The decoder keeps the previous and the current 8-byte report. Each accepted
  report moves the current report into the previous one, and the decoder then
  emits modifier events (an XOR of the modifier bytes, bit 0 to bit 7) followed
  by key presses and key releases, which come from a two-way set difference
  over the six scancode slots. The printed events are returned as a sequence
  of `KeyEvent`s.
 */
module Keyboard {
  import opened Bytes

  /** Bytes in a boot keyboard report: modifiers, reserved, six scancodes. */
  const REPORT_SIZE: nat := 8
  /** Scancode slots in a boot keyboard report. */
  const KEY_SLOTS: nat := 6

  const MOD_LEFT_CTRL: byte := 0x01
  const MOD_LEFT_SHIFT: byte := 0x02
  const MOD_LEFT_ALT: byte := 0x04
  const MOD_LEFT_WIN: byte := 0x08
  const MOD_RIGHT_CTRL: byte := 0x10
  const MOD_RIGHT_SHIFT: byte := 0x20
  const MOD_RIGHT_ALT: byte := 0x40
  const MOD_RIGHT_WIN: byte := 0x80

  /** The eight modifier masks are distinct single bits covering the whole
      byte, and each right-hand mask is its left-hand counterpart shifted by 4. */
  lemma ModifierMasksLayout()
    ensures MOD_LEFT_CTRL == Mask(0) && MOD_LEFT_SHIFT == Mask(1)
    ensures MOD_LEFT_ALT == Mask(2) && MOD_LEFT_WIN == Mask(3)
    ensures MOD_RIGHT_CTRL == Mask(4) && MOD_RIGHT_SHIFT == Mask(5)
    ensures MOD_RIGHT_ALT == Mask(6) && MOD_RIGHT_WIN == Mask(7)
    ensures MOD_LEFT_CTRL | MOD_LEFT_SHIFT | MOD_LEFT_ALT | MOD_LEFT_WIN
          | MOD_RIGHT_CTRL | MOD_RIGHT_SHIFT | MOD_RIGHT_ALT | MOD_RIGHT_WIN == 0xFF
    ensures MOD_RIGHT_CTRL == MOD_LEFT_CTRL << 4 && MOD_RIGHT_SHIFT == MOD_LEFT_SHIFT << 4
    ensures MOD_RIGHT_ALT == MOD_LEFT_ALT << 4 && MOD_RIGHT_WIN == MOD_LEFT_WIN << 4
  {
  }

  /** `struct KeyboardReport`: modifier byte, reserved byte, six scancodes
      (0 marks an empty slot). */
  datatype KeyboardReport = KeyboardReport(modifiers: byte, reserved: byte, keys: seq<byte>)
  {
    predicate WellFormed()
    {
      |keys| == KEY_SLOTS
    }
  }

  /** The all-zero report that `memset` leaves in the constructor and `reset`. */
  const ZERO_REPORT: KeyboardReport := KeyboardReport(0, 0, [0, 0, 0, 0, 0, 0])

  /** What the decoder prints, one value per printed line. */
  datatype KeyEvent =
    | ModifierChanged(bit: nat, pressed: bool)
    | KeyChanged(code: byte, pressed: bool, modifiers: byte)

  /** The report laid out over the first eight bytes of `data`. */
  function ReportFromBytes(data: seq<byte>): (r: KeyboardReport)
    requires |data| >= REPORT_SIZE
    ensures r.WellFormed()
    ensures r.modifiers == data[0] && r.reserved == data[1]
    ensures forall i :: 0 <= i < KEY_SLOTS ==> r.keys[i] == data[i + 2]
  {
    KeyboardReport(data[0], data[1], data[2..8])
  }

  // ---------------------------------------------------------------------------
  // Modifier events (parseModifiers)
  // ---------------------------------------------------------------------------

  /** The modifier events for bits `b..7`, in bit order: one event per bit set
      in `current ^ previous`, carrying the bit's current state. */
  function ModifierEventsFrom(current: byte, previous: byte, b: nat): seq<KeyEvent>
    requires b <= 8
    decreases 8 - b
  {
    if b == 8 then []
    else
      (if Bit(current ^ previous, b) then [ModifierChanged(b, Bit(current, b))] else [])
      + ModifierEventsFrom(current, previous, b + 1)
  }

  function ModifierEvents(current: byte, previous: byte): seq<KeyEvent>
  {
    ModifierEventsFrom(current, previous, 0)
  }

  /** Every event is a modifier event and the bits strictly increase. */
  predicate InBitOrder(s: seq<KeyEvent>)
  {
    (forall x :: 0 <= x < |s| ==> s[x].ModifierChanged?)
    && (forall x, y :: 0 <= x < y < |s| && s[x].ModifierChanged? && s[y].ModifierChanged? ==> s[x].bit < s[y].bit)
  }

  lemma {:induction false} ModifierEventsFromMembers(current: byte, previous: byte, b: nat, e: KeyEvent)
    requires b <= 8
    ensures e in ModifierEventsFrom(current, previous, b) <==>
      exists i :: b <= i < 8 && Bit(current ^ previous, i) && e == ModifierChanged(i, Bit(current, i))
    decreases 8 - b
  {
    if b < 8 {
      ModifierEventsFromMembers(current, previous, b + 1, e);
      if exists i :: b <= i < 8 && Bit(current ^ previous, i) && e == ModifierChanged(i, Bit(current, i)) {
        var i :| b <= i < 8 && Bit(current ^ previous, i) && e == ModifierChanged(i, Bit(current, i));
        if i == b {
          assert e == ModifierEventsFrom(current, previous, b)[0];
        }
      }
    }
  }

  lemma {:induction false} ModifierEventsFromOrder(current: byte, previous: byte, b: nat)
    requires b <= 8
    ensures InBitOrder(ModifierEventsFrom(current, previous, b))
    ensures forall x :: 0 <= x < |ModifierEventsFrom(current, previous, b)| ==>
      ModifierEventsFrom(current, previous, b)[x].bit >= b
    decreases 8 - b
  {
    if b < 8 {
      ModifierEventsFromOrder(current, previous, b + 1);
      var rest := ModifierEventsFrom(current, previous, b + 1);
      if Bit(current ^ previous, b) {
        var s := ModifierEventsFrom(current, previous, b);
        assert s == [ModifierChanged(b, Bit(current, b))] + rest;
        forall x | 0 < x < |s| ensures s[x] == rest[x - 1] {}
      }
    }
  }

  /** parseModifiers emits, in bit order, exactly one event per modifier bit
      that differs between the two bytes, with that bit's new state. */
  lemma ModifierEventsExact(current: byte, previous: byte, e: KeyEvent)
    ensures e in ModifierEvents(current, previous) <==>
      exists i :: 0 <= i < 8 && Bit(current, i) != Bit(previous, i) && e == ModifierChanged(i, Bit(current, i))
    ensures InBitOrder(ModifierEvents(current, previous))
  {
    ModifierEventsFromMembers(current, previous, 0, e);
    ModifierEventsFromOrder(current, previous, 0);
    forall i | 0 <= i < 8 ensures Bit(current ^ previous, i) <==> Bit(current, i) != Bit(previous, i) {
      XorBit(current, previous, i);
    }
  }

  /** No modifier event is emitted exactly when the modifier byte is unchanged. */
  lemma ModifierEventsEmptyIff(current: byte, previous: byte)
    ensures ModifierEvents(current, previous) == [] <==> current == previous
  {
    EqualIffSameBits(current, previous);
    if current != previous {
      var i :| 0 <= i < 8 && Bit(current, i) != Bit(previous, i);
      ModifierEventsExact(current, previous, ModifierChanged(i, Bit(current, i)));
    } else {
      if ModifierEvents(current, previous) != [] {
        var e := ModifierEvents(current, previous)[0];
        ModifierEventsExact(current, previous, e);
      }
    }
  }

  // ---------------------------------------------------------------------------
  // Key events (detectKeyChanges)
  // ---------------------------------------------------------------------------

  /** Slot `i` of the current report holds a key that the previous report lacks. */
  predicate PressedAt(previous: KeyboardReport, current: KeyboardReport, i: nat)
    requires current.WellFormed() && i < KEY_SLOTS
  {
    current.keys[i] != 0 && current.keys[i] !in previous.keys
  }

  /** Slot `i` of the previous report holds a key that the current report lacks. */
  predicate ReleasedAt(previous: KeyboardReport, current: KeyboardReport, i: nat)
    requires previous.WellFormed() && i < KEY_SLOTS
  {
    previous.keys[i] != 0 && previous.keys[i] !in current.keys
  }

  /** The press events of slots `0..n-1`, in slot order. */
  function PressesUpTo(previous: KeyboardReport, current: KeyboardReport, n: nat): seq<KeyEvent>
    requires current.WellFormed() && n <= KEY_SLOTS
  {
    if n == 0 then []
    else
      PressesUpTo(previous, current, n - 1)
      + (if PressedAt(previous, current, n - 1) then [KeyChanged(current.keys[n - 1], true, current.modifiers)] else [])
  }

  /** The release events of slots `0..n-1`, in slot order, tagged with the
      previous report's modifiers. */
  function ReleasesUpTo(previous: KeyboardReport, current: KeyboardReport, n: nat): seq<KeyEvent>
    requires previous.WellFormed() && n <= KEY_SLOTS
  {
    if n == 0 then []
    else
      ReleasesUpTo(previous, current, n - 1)
      + (if ReleasedAt(previous, current, n - 1) then [KeyChanged(previous.keys[n - 1], false, previous.modifiers)] else [])
  }

  function ModifierPart(previous: KeyboardReport, current: KeyboardReport): seq<KeyEvent>
  {
    if current.modifiers != previous.modifiers then ModifierEvents(current.modifiers, previous.modifiers) else []
  }

  /** Everything detectKeyChanges emits: modifier events, then presses, then releases. */
  function KeyChanges(previous: KeyboardReport, current: KeyboardReport): seq<KeyEvent>
    requires previous.WellFormed() && current.WellFormed()
  {
    ModifierPart(previous, current)
    + PressesUpTo(previous, current, KEY_SLOTS)
    + ReleasesUpTo(previous, current, KEY_SLOTS)
  }

  /** What parseKeyboardReport emits for `data` when the decoder's current
      report is `last`: nothing when disarmed or when the report is short. */
  function ReportEvents(initialized: bool, last: KeyboardReport, data: seq<byte>): seq<KeyEvent>
    requires last.WellFormed()
  {
    if initialized && |data| >= REPORT_SIZE then KeyChanges(last, ReportFromBytes(data)) else []
  }

  lemma {:induction false} PressesUpToMembers(previous: KeyboardReport, current: KeyboardReport, n: nat, e: KeyEvent)
    requires current.WellFormed() && n <= KEY_SLOTS
    ensures e in PressesUpTo(previous, current, n) <==>
      exists i :: 0 <= i < n && PressedAt(previous, current, i) && e == KeyChanged(current.keys[i], true, current.modifiers)
  {
    if n > 0 {
      PressesUpToMembers(previous, current, n - 1, e);
    }
  }

  lemma {:induction false} ReleasesUpToMembers(previous: KeyboardReport, current: KeyboardReport, n: nat, e: KeyEvent)
    requires previous.WellFormed() && n <= KEY_SLOTS
    ensures e in ReleasesUpTo(previous, current, n) <==>
      exists i :: 0 <= i < n && ReleasedAt(previous, current, i) && e == KeyChanged(previous.keys[i], false, previous.modifiers)
  {
    if n > 0 {
      ReleasesUpToMembers(previous, current, n - 1, e);
    }
  }

  /** A press of `k` is reported exactly when `k` is a nonzero scancode of the
      current report that the previous report does not hold, and it carries
      the current modifiers. */
  lemma KeyPressIff(previous: KeyboardReport, current: KeyboardReport, k: byte, m: byte)
    requires previous.WellFormed() && current.WellFormed()
    ensures KeyChanged(k, true, m) in PressesUpTo(previous, current, KEY_SLOTS) <==>
      k != 0 && k in current.keys && k !in previous.keys && m == current.modifiers
  {
    PressesUpToMembers(previous, current, KEY_SLOTS, KeyChanged(k, true, m));
    if k != 0 && k in current.keys && k !in previous.keys && m == current.modifiers {
      var i :| 0 <= i < KEY_SLOTS && current.keys[i] == k;
      assert PressedAt(previous, current, i);
    }
  }

  /** A release of `k` is reported exactly when `k` is a nonzero scancode of the
      previous report that the current report does not hold, and it carries
      the previous modifiers. */
  lemma KeyReleaseIff(previous: KeyboardReport, current: KeyboardReport, k: byte, m: byte)
    requires previous.WellFormed() && current.WellFormed()
    ensures KeyChanged(k, false, m) in ReleasesUpTo(previous, current, KEY_SLOTS) <==>
      k != 0 && k in previous.keys && k !in current.keys && m == previous.modifiers
  {
    ReleasesUpToMembers(previous, current, KEY_SLOTS, KeyChanged(k, false, m));
    if k != 0 && k in previous.keys && k !in current.keys && m == previous.modifiers {
      var i :| 0 <= i < KEY_SLOTS && previous.keys[i] == k;
      assert ReleasedAt(previous, current, i);
    }
  }

  /** The two reports hold the same set of nonzero scancodes. */
  ghost predicate SameKeySet(previous: KeyboardReport, current: KeyboardReport)
  {
    forall k :: k != 0 ==> (k in previous.keys <==> k in current.keys)
  }

  /** No press and no release is reported exactly when both reports hold the
      same set of nonzero scancodes, whatever slots they sit in. */
  lemma NoKeyEventsIffSameKeySet(previous: KeyboardReport, current: KeyboardReport)
    requires previous.WellFormed() && current.WellFormed()
    ensures PressesUpTo(previous, current, KEY_SLOTS) == [] && ReleasesUpTo(previous, current, KEY_SLOTS) == []
      <==> SameKeySet(previous, current)
  {
    var presses := PressesUpTo(previous, current, KEY_SLOTS);
    var releases := ReleasesUpTo(previous, current, KEY_SLOTS);
    if SameKeySet(previous, current) {
      if presses != [] {
        PressesUpToMembers(previous, current, KEY_SLOTS, presses[0]);
      }
      if releases != [] {
        ReleasesUpToMembers(previous, current, KEY_SLOTS, releases[0]);
      }
    } else {
      var k :| k != 0 && !(k in previous.keys <==> k in current.keys);
      if k in current.keys {
        KeyPressIff(previous, current, k, current.modifiers);
      } else {
        KeyReleaseIff(previous, current, k, previous.modifiers);
      }
    }
  }

  /** An identical report, or one whose scancodes are a permutation of the
      previous ones, yields no events at all. */
  lemma RepeatedKeysNoEvents(previous: KeyboardReport, current: KeyboardReport)
    requires previous.WellFormed() && current.WellFormed()
    requires current.modifiers == previous.modifiers
    requires multiset(current.keys) == multiset(previous.keys)
    ensures KeyChanges(previous, current) == []
  {
    forall k ensures k in previous.keys <==> k in current.keys {
      assert k in previous.keys <==> k in multiset(previous.keys);
      assert k in current.keys <==> k in multiset(current.keys);
    }
    NoKeyEventsIffSameKeySet(previous, current);
  }

  /** A new scancode present in two slots is pressed twice, once per slot. */
  lemma DuplicateScancodePressedTwice()
    ensures var current := KeyboardReport(0, 0, [0x04, 0x04, 0, 0, 0, 0]);
      KeyChanges(ZERO_REPORT, current) == [KeyChanged(0x04, true, 0), KeyChanged(0x04, true, 0)]
  {
  }

  /** Pressing A and then releasing it: one press, then one release, and no
      modifier events. */
  lemma PressThenReleaseA()
    ensures var pressed := ReportFromBytes([0x00, 0x00, 0x04, 0, 0, 0, 0, 0]);
      var released := ReportFromBytes([0x00, 0x00, 0x00, 0, 0, 0, 0, 0]);
      KeyChanges(ZERO_REPORT, pressed) == [KeyChanged(0x04, true, 0)]
      && KeyChanges(pressed, released) == [KeyChanged(0x04, false, 0)]
  {
    var pressed := ReportFromBytes([0x00, 0x00, 0x04, 0, 0, 0, 0, 0]);
    assert pressed.keys == [0x04, 0, 0, 0, 0, 0];
  }

  // ---------------------------------------------------------------------------
  // The decoder object
  // ---------------------------------------------------------------------------

  class KeyboardDevice {
    var initialized: bool
    var currentReport: KeyboardReport
    var previousReport: KeyboardReport

    ghost predicate Valid()
      reads this
    {
      currentReport.WellFormed() && previousReport.WellFormed()
    }

    constructor ()
      ensures Valid()
      ensures !initialized && currentReport == ZERO_REPORT && previousReport == ZERO_REPORT
    {
      initialized := false;
      currentReport := ZERO_REPORT;
      previousReport := ZERO_REPORT;
    }

    /** Arms the decoder; the stored reports are kept. */
    method Init()
      requires Valid()
      modifies this
      ensures Valid()
      ensures initialized
      ensures currentReport == old(currentReport) && previousReport == old(previousReport)
    {
      initialized := true;
    }

    /** Disarms the decoder and clears both reports. */
    method Reset()
      requires Valid()
      modifies this
      ensures Valid()
      ensures !initialized && currentReport == ZERO_REPORT && previousReport == ZERO_REPORT
    {
      initialized := false;
      currentReport := ZERO_REPORT;
      previousReport := ZERO_REPORT;
    }

    /** Accepts one report of `|data|` bytes. A disarmed decoder or a report
        shorter than 8 bytes changes nothing and emits nothing. */
    method ParseKeyboardReport(data: seq<byte>) returns (events: seq<KeyEvent>)
      requires Valid()
      requires |data| < 256
      modifies this
      ensures Valid()
      ensures initialized == old(initialized)
      ensures events == ReportEvents(old(initialized), old(currentReport), data)
      ensures if old(initialized) && |data| >= REPORT_SIZE
        then previousReport == old(currentReport) && currentReport == ReportFromBytes(data)
        else unchanged(this)
    {
      if !initialized || |data| < REPORT_SIZE {
        return [];
      }
      previousReport := currentReport;
      currentReport := KeyboardReport(data[0], data[1], []);
      var keys := [];
      for i := 0 to KEY_SLOTS
        invariant keys == data[2..i + 2]
      {
        keys := keys + [data[i + 2]];
      }
      currentReport := currentReport.(keys := keys);
      events := DetectKeyChanges();
    }

    /** The modifier events, then a press for every slot of the current report
        whose nonzero scancode is absent from the previous report, then a
        release for every slot of the previous report whose nonzero scancode
        is absent from the current report. */
    method DetectKeyChanges() returns (events: seq<KeyEvent>)
      requires Valid()
      ensures events == KeyChanges(previousReport, currentReport)
    {
      events := [];
      if currentReport.modifiers != previousReport.modifiers {
        events := ModifierEvents(currentReport.modifiers, previousReport.modifiers);
      }
      ghost var modifierEvents := events;

      for i := 0 to KEY_SLOTS
        invariant events == modifierEvents + PressesUpTo(previousReport, currentReport, i)
      {
        var currentKey := currentReport.keys[i];
        if currentKey != 0 {
          var wasPressed := false;
          for j := 0 to KEY_SLOTS
            invariant wasPressed <==> currentKey in previousReport.keys[..j]
          {
            if previousReport.keys[j] == currentKey {
              wasPressed := true;
              break;
            }
          }
          assert previousReport.keys[..KEY_SLOTS] == previousReport.keys;
          if !wasPressed {
            events := events + [KeyChanged(currentKey, true, currentReport.modifiers)];
          }
        }
      }
      ghost var pressEvents := events;

      for i := 0 to KEY_SLOTS
        invariant events == pressEvents + ReleasesUpTo(previousReport, currentReport, i)
      {
        var previousKey := previousReport.keys[i];
        if previousKey != 0 {
          var stillPressed := false;
          for j := 0 to KEY_SLOTS
            invariant stillPressed <==> previousKey in currentReport.keys[..j]
          {
            if currentReport.keys[j] == previousKey {
              stillPressed := true;
              break;
            }
          }
          assert currentReport.keys[..KEY_SLOTS] == currentReport.keys;
          if !stillPressed {
            events := events + [KeyChanged(previousKey, false, previousReport.modifiers)];
          }
        }
      }
    }
  }

  // ---------------------------------------------------------------------------
  // Key names (getKeyName) and modifier strings (getModifierString)
  // ---------------------------------------------------------------------------

  /** An uppercase hexadecimal digit. */
  function HexDigit(n: int): (ch: char)
    requires 0 <= n < 16
    ensures '0' <= ch <= '9' || 'A' <= ch <= 'F'
  {
    if n < 10 then ('0' as int + n) as char else ('A' as int + n - 10) as char
  }

  function HexDigitValue(ch: char): int
  {
    if '0' <= ch <= '9' then ch as int - '0' as int else ch as int - 'A' as int + 10
  }

  /** `sprintf("0x%02X", code)` */
  function HexName(code: byte): (s: string)
    ensures |s| == 4 && s[0] == '0' && s[1] == 'x'
  {
    "0x" + [HexDigit(code as int / 16), HexDigit(code as int % 16)]
  }

  /** Reading back the two hex digits of a formatted code gives the code. */
  lemma HexNameRoundTrip(code: byte)
    ensures 16 * HexDigitValue(HexName(code)[2]) + HexDigitValue(HexName(code)[3]) == code as int
  {
  }

  /** The scancodes that `getKeyName` has a name for. */
  predicate IsNamedKey(code: byte)
  {
    (0x04 <= code <= 0x31) || (0x33 <= code <= 0x45) || (0x4F <= code <= 0x52)
  }

  /** The printable name of a scancode (HID Usage Tables 1.12, section 10). */
  function KeyName(code: byte): string
  {
    match code
    case 0x04 => "A"
    case 0x05 => "B"
    case 0x06 => "C"
    case 0x07 => "D"
    case 0x08 => "E"
    case 0x09 => "F"
    case 0x0A => "G"
    case 0x0B => "H"
    case 0x0C => "I"
    case 0x0D => "J"
    case 0x0E => "K"
    case 0x0F => "L"
    case 0x10 => "M"
    case 0x11 => "N"
    case 0x12 => "O"
    case 0x13 => "P"
    case 0x14 => "Q"
    case 0x15 => "R"
    case 0x16 => "S"
    case 0x17 => "T"
    case 0x18 => "U"
    case 0x19 => "V"
    case 0x1A => "W"
    case 0x1B => "X"
    case 0x1C => "Y"
    case 0x1D => "Z"
    case 0x1E => "1"
    case 0x1F => "2"
    case 0x20 => "3"
    case 0x21 => "4"
    case 0x22 => "5"
    case 0x23 => "6"
    case 0x24 => "7"
    case 0x25 => "8"
    case 0x26 => "9"
    case 0x27 => "0"
    case 0x28 => "ENTER"
    case 0x29 => "ESC"
    case 0x2A => "BACKSPACE"
    case 0x2B => "TAB"
    case 0x2C => "SPACE"
    case 0x2D => "-"
    case 0x2E => "="
    case 0x2F => "["
    case 0x30 => "]"
    case 0x31 => "\\"
    case 0x33 => ";"
    case 0x34 => "'"
    case 0x35 => "`"
    case 0x36 => ","
    case 0x37 => "."
    case 0x38 => "/"
    case 0x39 => "CAPS"
    case 0x3A => "F1"
    case 0x3B => "F2"
    case 0x3C => "F3"
    case 0x3D => "F4"
    case 0x3E => "F5"
    case 0x3F => "F6"
    case 0x40 => "F7"
    case 0x41 => "F8"
    case 0x42 => "F9"
    case 0x43 => "F10"
    case 0x44 => "F11"
    case 0x45 => "F12"
    case 0x4F => "RIGHT"
    case 0x50 => "LEFT"
    case 0x51 => "DOWN"
    case 0x52 => "UP"
    case _ => HexName(code)
  }

  /** Scancodes 0x04..0x1D are the letters A..Z. */
  lemma KeyNameLetters(code: byte)
    requires 0x04 <= code <= 0x1D
    ensures KeyName(code) == [('A' as int + (code as int - 0x04)) as char]
  {
  }

  /** Scancodes 0x1E..0x26 are the digits 1..9 and 0x27 is 0. */
  lemma KeyNameDigits(code: byte)
    requires 0x1E <= code <= 0x27
    ensures KeyName(code) == [('0' as int + (code as int - 0x1D) % 10) as char]
  {
  }

  /** A scancode is printed in hexadecimal exactly when it has no name;
      0x32 (the non-US hash key) is one of them. */
  lemma KeyNameHexIff(code: byte)
    ensures KeyName(code) == HexName(code) <==> !IsNamedKey(code)
  {
    if IsNamedKey(code) {
      assert !HexShaped(KeyName(code));
    }
  }

  /** The shape of every `HexName` result. */
  predicate HexShaped(s: string)
  {
    |s| == 4 && s[0] == '0' && s[1] == 'x'
  }

  /** The modifier names in the order getModifierString tests them. */
  const MODIFIER_DISPLAY: seq<(byte, string)> := [
    (MOD_LEFT_CTRL, "LCtrl"), (MOD_RIGHT_CTRL, "RCtrl"),
    (MOD_LEFT_SHIFT, "LShift"), (MOD_RIGHT_SHIFT, "RShift"),
    (MOD_LEFT_ALT, "LAlt"), (MOD_RIGHT_ALT, "RAlt"),
    (MOD_LEFT_WIN, "LWin"), (MOD_RIGHT_WIN, "RWin")]

  /** Appends to `result` the name of every entry of `names` whose mask is set
      in `modifiers`, writing "+" before a name when `result` is not empty. */
  function AppendModifierNames(modifiers: byte, names: seq<(byte, string)>, result: string): string
    decreases |names|
  {
    if names == [] then result
    else
      var next :=
        if modifiers & names[0].0 != 0 then (if |result| > 0 then result + "+" else result) + names[0].1
        else result;
      AppendModifierNames(modifiers, names[1..], next)
  }

  function ModifierString(modifiers: byte): string
  {
    AppendModifierNames(modifiers, MODIFIER_DISPLAY, "")
  }

  /** The names of the entries whose mask is set, in table order. */
  function SetNames(modifiers: byte, names: seq<(byte, string)>): seq<string>
    decreases |names|
  {
    if names == [] then []
    else (if modifiers & names[0].0 != 0 then [names[0].1] else []) + SetNames(modifiers, names[1..])
  }

  lemma {:induction false} SetNamesEmptyIff(modifiers: byte, names: seq<(byte, string)>)
    ensures SetNames(modifiers, names) == [] <==> forall i :: 0 <= i < |names| ==> modifiers & names[i].0 == 0
    decreases |names|
  {
    if names != [] {
      SetNamesEmptyIff(modifiers, names[1..]);
      assert forall i :: 1 <= i < |names| ==> names[i] == names[1..][i - 1];
    }
  }

  /** `parts` joined with "+" between neighbours. */
  function Join(parts: seq<string>): string
    decreases |parts|
  {
    if parts == [] then ""
    else if |parts| == 1 then parts[0]
    else parts[0] + "+" + Join(parts[1..])
  }

  /** `result` followed by the joined `parts`, with "+" between when both are nonempty. */
  function JoinAfter(result: string, parts: seq<string>): string
  {
    if result == "" then Join(parts)
    else if parts == [] then result
    else result + "+" + Join(parts)
  }

  predicate NamesNonEmpty(names: seq<(byte, string)>)
  {
    forall i :: 0 <= i < |names| ==> names[i].1 != ""
  }

  lemma {:induction false} JoinNonEmpty(parts: seq<string>)
    requires forall i :: 0 <= i < |parts| ==> parts[i] != ""
    ensures Join(parts) == "" <==> parts == []
    decreases |parts|
  {
    if |parts| > 1 {
      JoinNonEmpty(parts[1..]);
    }
  }

  lemma {:induction false} AppendModifierNamesJoins(modifiers: byte, names: seq<(byte, string)>, result: string)
    requires NamesNonEmpty(names)
    ensures AppendModifierNames(modifiers, names, result) == JoinAfter(result, SetNames(modifiers, names))
    ensures forall i :: 0 <= i < |SetNames(modifiers, names)| ==> SetNames(modifiers, names)[i] != ""
    decreases |names|
  {
    if names != [] {
      var next :=
        if modifiers & names[0].0 != 0 then (if |result| > 0 then result + "+" else result) + names[0].1
        else result;
      var rest := SetNames(modifiers, names[1..]);
      AppendModifierNamesJoins(modifiers, names[1..], next);
      JoinNonEmpty(rest);
      if modifiers & names[0].0 != 0 {
        assert SetNames(modifiers, names) == [names[0].1] + rest;
        if rest != [] {
          assert ([names[0].1] + rest)[1..] == rest;
        }
      } else {
        assert SetNames(modifiers, names) == rest;
      }
    }
  }

  /** getModifierString joins the names of the set bits with "+" in the order
      LCtrl, RCtrl, LShift, RShift, LAlt, RAlt, LWin, RWin, and is empty
      exactly when no modifier is held. */
  lemma ModifierStringIsJoin(modifiers: byte)
    ensures ModifierString(modifiers) == Join(SetNames(modifiers, MODIFIER_DISPLAY))
    ensures ModifierString(modifiers) == "" <==> modifiers == 0
  {
    AppendModifierNamesJoins(modifiers, MODIFIER_DISPLAY, "");
    var parts := SetNames(modifiers, MODIFIER_DISPLAY);
    JoinNonEmpty(parts);
    SetNamesEmptyIff(modifiers, MODIFIER_DISPLAY);
    var d := MODIFIER_DISPLAY;
    if modifiers != 0 {
      assert modifiers & d[0].0 != 0 || modifiers & d[1].0 != 0 || modifiers & d[2].0 != 0
          || modifiers & d[3].0 != 0 || modifiers & d[4].0 != 0 || modifiers & d[5].0 != 0
          || modifiers & d[6].0 != 0 || modifiers & d[7].0 != 0;
    }
  }
}
