/**
  The device table and the session glue of the HID manager.

  The manager owns a fixed table of `MAX_DEVICES` device slots, one keyboard
  decoder and one mouse decoder. For each inbound report it classifies the
  device by report length on its first sighting, detects whether the first
  eight payload bytes changed since the last report, records the change
  mask, and passes changed payloads to the decoder that matches the slot's
  type. A separate sweep evicts slots whose last activity is too old, using
  wraparound-safe 16-bit timestamp subtraction.

  The vendor and product id of the current device and the 16-bit relative
  time are parameters here; the USB library and the clock supply them in the
  running system.
 */
module Hid {
  import opened Bytes
  import Keyboard
  import Mouse

  /** Slots in the device table. */
  const MAX_DEVICES: nat := 1
  /** Payload bytes kept per slot. */
  const BUFFER_SIZE: nat := 8
  /** Poll intervals in milliseconds: a recently active device, a quiet
      device, no device. */
  const POLL_ACTIVE: int := 1
  const POLL_IDLE: int := 10
  const POLL_NONE: int := 100
  /** The timeout in milliseconds that the eviction threshold is derived from. */
  const DEVICE_TIMEOUT: nat := 5000
  /** `DEVICE_TIMEOUT >> 6`: the eviction threshold. */
  const TIMEOUT_UNITS: u16 := DEVICE_TIMEOUT / 64
  /** `1000 >> 6`: the activity window of the poll-interval rule. */
  const ACTIVITY_UNITS: u16 := 1000 / 64

  /** The two thresholds, written out. */
  lemma ThresholdValues()
    ensures TIMEOUT_UNITS == 78 && ACTIVITY_UNITS == 15
  {
  }

  datatype DeviceType = DeviceUnknown | DeviceKeyboard | DeviceMouse

  /** `struct DeviceSlot`. `bufferSize` is a 6-bit field. */
  datatype DeviceSlot = DeviceSlot(
    vid: u16,
    pid: u16,
    deviceType: DeviceType,
    active: bool,
    changed: bool,
    bufferSize: nat,
    buffer: seq<byte>,
    lastActivity: u16,
    changeFlags: byte)
  {
    predicate WellFormed()
    {
      bufferSize < 64 && |buffer| == BUFFER_SIZE
    }
  }

  /** The slot the constructor leaves behind: everything zero, inactive. */
  const EMPTY_SLOT: DeviceSlot := DeviceSlot(0, 0, DeviceUnknown, false, false, 0, [0, 0, 0, 0, 0, 0, 0, 0], 0, 0)

  /** An event printed by either decoder. */
  datatype HidEvent =
    | KeyboardEvent(key: Keyboard.KeyEvent)
    | MouseEvent(mouse: Mouse.MouseEvent)

  function KeyboardEvents(s: seq<Keyboard.KeyEvent>): (r: seq<HidEvent>)
    ensures |r| == |s| && forall i :: 0 <= i < |s| ==> r[i] == KeyboardEvent(s[i])
  {
    if s == [] then [] else [KeyboardEvent(s[0])] + KeyboardEvents(s[1..])
  }

  function MouseEvents(s: seq<Mouse.MouseEvent>): (r: seq<HidEvent>)
    ensures |r| == |s| && forall i :: 0 <= i < |s| ==> r[i] == MouseEvent(s[i])
  {
    if s == [] then [] else [MouseEvent(s[0])] + MouseEvents(s[1..])
  }

  // ---------------------------------------------------------------------------
  // Classification (identifyDeviceType)
  // ---------------------------------------------------------------------------

  /** The device type guessed from a report's length alone. */
  function IdentifyDeviceType(len: nat, buf: seq<byte>): DeviceType
  {
    if len == 8 then DeviceKeyboard
    else if 3 <= len <= 4 then DeviceMouse
    else if len == 6 then DeviceKeyboard
    else DeviceUnknown
  }

  /** Lengths 8 and 6 are keyboards, 3 and 4 are mice, every other length is
      unknown, and the payload's contents play no part. */
  lemma IdentifyDeviceTypeByLength(len: nat, buf: seq<byte>, other: seq<byte>)
    ensures IdentifyDeviceType(len, buf) == IdentifyDeviceType(len, other)
    ensures IdentifyDeviceType(len, buf) == DeviceKeyboard <==> len == 8 || len == 6
    ensures IdentifyDeviceType(len, buf) == DeviceMouse <==> len == 3 || len == 4
    ensures IdentifyDeviceType(len, buf) == DeviceUnknown <==> len !in {3, 4, 6, 8}
  {
  }

  // ---------------------------------------------------------------------------
  // Relative time (getRelativeTime) and the two time rules
  // ---------------------------------------------------------------------------

  /** `millis() & 0xFFFF` */
  function RelativeTime(millis: nat): u16
  {
    millis % 0x1_0000
  }

  /** `(uint16_t)(now - since)` */
  function Elapsed(now: u16, since: u16): u16
  {
    (now - since) % 0x1_0000
  }

  /** The eviction rule of checkDeviceStatus. */
  predicate TimedOut(now: u16, since: u16)
  {
    Elapsed(now, since) > TIMEOUT_UNITS
  }

  /** The activity rule of getPollInterval. */
  predicate RecentlyActive(now: u16, since: u16)
  {
    Elapsed(now, since) < ACTIVITY_UNITS
  }

  /** The 16-bit difference of two relative times is the elapsed time modulo
      65536, whether or not the clock wrapped in between. */
  lemma ElapsedIsModular(earlier: nat, later: nat)
    requires earlier <= later
    ensures Elapsed(RelativeTime(later), RelativeTime(earlier)) == (later - earlier) % 65536
  {
  }

  /** A device heard from at most 78 ms ago is never evicted, even across a
      wrap of the 16-bit clock. */
  lemma RecentDeviceKept(earlier: nat, later: nat)
    requires earlier <= later <= earlier + TIMEOUT_UNITS
    ensures !TimedOut(RelativeTime(later), RelativeTime(earlier))
  {
    ElapsedIsModular(earlier, later);
  }

  /** A device silent for more than 78 ms (and less than one clock period) is
      evicted, even across a wrap of the 16-bit clock. */
  lemma SilentDeviceEvicted(earlier: nat, later: nat)
    requires earlier + TIMEOUT_UNITS < later < earlier + 65536
    ensures TimedOut(RelativeTime(later), RelativeTime(earlier))
  {
    ElapsedIsModular(earlier, later);
  }

  /** The threshold is compared with millisecond timestamps, so a device that
      has been silent for 100 ms, far less than `DEVICE_TIMEOUT`, is already
      evicted. */
  lemma EvictedLongBeforeDeviceTimeout()
    ensures 100 < DEVICE_TIMEOUT && TimedOut(RelativeTime(100), RelativeTime(0))
  {
  }

  /** Last activity at 60000, now 500 after the wrap: 6036 ms have elapsed. */
  lemma ElapsedAcrossWrap()
    ensures Elapsed(500, 60000) == 6036
  {
  }

  // ---------------------------------------------------------------------------
  // Change detection (hasDataChanged, updateChangeFlags)
  // ---------------------------------------------------------------------------

  /** The number of payload bytes compared: `i < len && i < BUFFER_SIZE`. */
  function Compared(buf: seq<byte>): nat
  {
    Min(|buf|, BUFFER_SIZE)
  }

  /** Some compared byte of the payload differs from the stored byte. */
  predicate Differs(stored: seq<byte>, buf: seq<byte>)
    requires |stored| == BUFFER_SIZE
  {
    exists i :: 0 <= i < Compared(buf) && stored[i] != buf[i]
  }

  /** The change mask over bytes `0..n-1`: bit `i` for each differing byte. */
  function ChangeMaskUpTo(stored: seq<byte>, buf: seq<byte>, n: nat): byte
    requires n <= |stored| && n <= |buf| && n <= 8
  {
    if n == 0 then 0
    else ChangeMaskUpTo(stored, buf, n - 1) | (if stored[n - 1] != buf[n - 1] then Mask(n - 1) else 0)
  }

  lemma {:induction false} ChangeMaskUpToBits(stored: seq<byte>, buf: seq<byte>, n: nat, i: nat)
    requires n <= |stored| && n <= |buf| && n <= 8 && i < 8
    ensures Bit(ChangeMaskUpTo(stored, buf, n), i) <==> i < n && stored[i] != buf[i]
  {
    if n > 0 {
      ChangeMaskUpToBits(stored, buf, n - 1, i);
      var rest := ChangeMaskUpTo(stored, buf, n - 1);
      var last: byte := if stored[n - 1] != buf[n - 1] then Mask(n - 1) else 0;
      OrBit(rest, last, i);
      if stored[n - 1] != buf[n - 1] {
        MaskBit(i, n - 1);
      }
    }
  }

  /** The mask is nonzero exactly when some compared byte differs. */
  lemma ChangeMaskNonzeroIff(stored: seq<byte>, buf: seq<byte>)
    requires |stored| == BUFFER_SIZE
    ensures ChangeMaskUpTo(stored, buf, Compared(buf)) != 0 <==> Differs(stored, buf)
  {
    var n := Compared(buf);
    var m := ChangeMaskUpTo(stored, buf, n);
    ZeroIffNoBit(m);
    if m != 0 {
      var i :| 0 <= i < 8 && Bit(m, i);
      ChangeMaskUpToBits(stored, buf, n, i);
    }
    if Differs(stored, buf) {
      var i :| 0 <= i < n && stored[i] != buf[i];
      ChangeMaskUpToBits(stored, buf, n, i);
    }
  }

  /** A slot after updateChangeFlags has recorded `buf` at time `now`. */
  function RecordReport(slot: DeviceSlot, buf: seq<byte>, now: u16): DeviceSlot
    requires slot.WellFormed()
  {
    var n := Compared(buf);
    var flags := ChangeMaskUpTo(slot.buffer, buf, n);
    slot.(
      buffer := buf[..n] + slot.buffer[n..],
      changeFlags := flags,
      changed := flags != 0,
      lastActivity := if flags != 0 then now else slot.lastActivity)
  }

  /** updateChangeFlags stores the compared bytes and keeps the rest, sets bit
      `i` of the change mask exactly when byte `i` differed, sets `changed`
      exactly when some byte differed, stamps the activity time only then,
      and touches no other field. */
  lemma RecordReportSpec(slot: DeviceSlot, buf: seq<byte>, now: u16)
    requires slot.WellFormed()
    ensures var r := RecordReport(slot, buf, now);
      && r.WellFormed()
      && (forall i :: 0 <= i < Compared(buf) ==> r.buffer[i] == buf[i])
      && (forall i :: Compared(buf) <= i < BUFFER_SIZE ==> r.buffer[i] == slot.buffer[i])
      && (forall i :: 0 <= i < 8 ==> (Bit(r.changeFlags, i) <==> i < Compared(buf) && slot.buffer[i] != buf[i]))
      && (r.changed <==> r.changeFlags != 0)
      && (r.changed <==> Differs(slot.buffer, buf))
      && r.lastActivity == (if r.changed then now else slot.lastActivity)
      && r.(buffer := slot.buffer, changeFlags := slot.changeFlags, changed := slot.changed, lastActivity := slot.lastActivity) == slot
  {
    var n := Compared(buf);
    forall i | 0 <= i < 8
      ensures Bit(ChangeMaskUpTo(slot.buffer, buf, n), i) <==> i < n && slot.buffer[i] != buf[i]
    {
      ChangeMaskUpToBits(slot.buffer, buf, n, i);
    }
    ChangeMaskNonzeroIff(slot.buffer, buf);
  }

  /** Recording the same payload twice: the second time nothing changes. */
  lemma RecordReportTwice(slot: DeviceSlot, buf: seq<byte>, now: u16, later: u16)
    requires slot.WellFormed()
    ensures var once := RecordReport(slot, buf, now);
      !Differs(once.buffer, buf) && RecordReport(once, buf, later).buffer == once.buffer
  {
    var once := RecordReport(slot, buf, now);
    RecordReportSpec(slot, buf, now);
    RecordReportSpec(once, buf, later);
  }

  // ---------------------------------------------------------------------------
  // Slot counting
  // ---------------------------------------------------------------------------

  /** The number of active slots. */
  function ActiveCount(slots: seq<DeviceSlot>): nat
  {
    if slots == [] then 0
    else (if slots[0].active then 1 else 0) + ActiveCount(slots[1..])
  }

  lemma {:induction false} ActiveCountUpdate(slots: seq<DeviceSlot>, i: nat, slot: DeviceSlot)
    requires i < |slots|
    ensures ActiveCount(slots[i := slot]) + (if slots[i].active then 1 else 0)
         == ActiveCount(slots) + (if slot.active then 1 else 0)
  {
    if i > 0 {
      ActiveCountUpdate(slots[1..], i - 1, slot);
      assert slots[i := slot][1..] == slots[1..][i - 1 := slot];
    }
  }

  /** No slot is active exactly when the count is zero. */
  lemma {:induction false} ActiveCountZeroIff(slots: seq<DeviceSlot>)
    ensures ActiveCount(slots) == 0 <==> forall i :: 0 <= i < |slots| ==> !slots[i].active
  {
    if slots != [] {
      ActiveCountZeroIff(slots[1..]);
      assert forall i :: 1 <= i < |slots| ==> slots[i] == slots[1..][i - 1];
    }
  }

  /** The slot with this identity is live. */
  predicate Matches(slot: DeviceSlot, vid: u16, pid: u16)
  {
    slot.active && slot.vid == vid && slot.pid == pid
  }

  /** The slot as parseHIDData leaves it after claiming it for a new device:
      the identity and time written by createDeviceSlot, then the type guessed
      from the length and the length cut to its 6-bit field. Buffer, flags and
      change mask are those of the slot before. */
  function ClaimSlot(slot: DeviceSlot, vid: u16, pid: u16, buf: seq<byte>, now: u16): DeviceSlot
  {
    slot.(vid := vid, pid := pid, active := true, lastActivity := now,
          deviceType := IdentifyDeviceType(|buf|, buf), bufferSize := |buf| % 64)
  }

  /** The slot at `i` is swept by checkDeviceStatus at time `now`. */
  predicate Evicted(slot: DeviceSlot, now: u16)
  {
    slot.active && TimedOut(now, slot.lastActivity)
  }

  // ---------------------------------------------------------------------------
  // The manager
  // ---------------------------------------------------------------------------

  class HidManager {
    const devices: array<DeviceSlot>
    var totalDevices: nat
    var currentDevice: int
    var keyboardConnected: bool
    var mouseConnected: bool
    const keyboard: Keyboard.KeyboardDevice
    const mouse: Mouse.MouseDevice

    ghost predicate Valid()
      reads this, devices, keyboard, mouse
    {
      && devices.Length == MAX_DEVICES
      && (forall i :: 0 <= i < devices.Length ==> devices[i].WellFormed())
      && totalDevices == ActiveCount(devices[..])
      && keyboard.Valid()
      && mouse.Valid()
    }

    constructor ()
      ensures Valid()
      ensures fresh(devices) && fresh(keyboard) && fresh(mouse)
      ensures forall i :: 0 <= i < devices.Length ==> devices[i] == EMPTY_SLOT
      ensures totalDevices == 0 && currentDevice == -1
      ensures !keyboardConnected && !mouseConnected
      ensures !keyboard.initialized && keyboard.currentReport == Keyboard.ZERO_REPORT
        && keyboard.previousReport == Keyboard.ZERO_REPORT
      ensures !mouse.initialized && mouse.currentReport == Mouse.ZERO_REPORT
        && mouse.previousReport == Mouse.ZERO_REPORT && mouse.absoluteX == 0 && mouse.absoluteY == 0
    {
      var slots := new DeviceSlot[MAX_DEVICES];
      for i := 0 to MAX_DEVICES
        invariant forall j :: 0 <= j < i ==> slots[j] == EMPTY_SLOT
      {
        slots[i] := EMPTY_SLOT;
      }
      devices := slots;
      keyboard := new Keyboard.KeyboardDevice();
      mouse := new Mouse.MouseDevice();
      totalDevices := 0;
      currentDevice := -1;
      keyboardConnected := false;
      mouseConnected := false;
      new;
      ActiveCountZeroIff(devices[..]);
    }

    /** Resets both decoders. */
    method Init()
      requires Valid()
      modifies keyboard, mouse
      ensures Valid()
      ensures !keyboard.initialized && keyboard.currentReport == Keyboard.ZERO_REPORT
        && keyboard.previousReport == Keyboard.ZERO_REPORT
      ensures !mouse.initialized && mouse.currentReport == Mouse.ZERO_REPORT
        && mouse.previousReport == Mouse.ZERO_REPORT && mouse.absoluteX == 0 && mouse.absoluteY == 0
    {
      keyboard.Reset();
      mouse.Reset();
    }

    /** Some device is tracked. */
    predicate HasDevices()
      reads this
    {
      totalDevices > 0
    }

    /** The manager reports devices exactly when some slot is active. */
    lemma HasDevicesIffActiveSlot()
      requires Valid()
      ensures HasDevices() <==> exists i :: 0 <= i < devices.Length && devices[i].active
    {
      ActiveCountZeroIff(devices[..]);
    }

    /** The first active slot with this identity, or -1 when there is none. */
    method FindDeviceSlot(vid: u16, pid: u16) returns (index: int)
      requires Valid()
      ensures -1 <= index < devices.Length
      ensures index == -1 <==> forall i :: 0 <= i < devices.Length ==> !Matches(devices[i], vid, pid)
      ensures index != -1 ==> Matches(devices[index], vid, pid)
      ensures forall i :: 0 <= i < devices.Length && Matches(devices[i], vid, pid) ==> 0 <= index <= i
    {
      for i := 0 to MAX_DEVICES
        invariant forall j :: 0 <= j < i ==> !Matches(devices[j], vid, pid)
      {
        if devices[i].active && devices[i].vid == vid && devices[i].pid == pid {
          return i;
        }
      }
      return -1;
    }

    /** Claims the first inactive slot for this identity at time `now`, or
        returns -1 and changes nothing when every slot is active. */
    method CreateDeviceSlot(vid: u16, pid: u16, now: u16) returns (index: int)
      requires Valid()
      modifies this`totalDevices, devices
      ensures Valid()
      ensures -1 <= index < devices.Length
      ensures index == -1 <==> forall i :: 0 <= i < devices.Length ==> old(devices[i]).active
      ensures index == -1 ==> devices[..] == old(devices[..]) && totalDevices == old(totalDevices)
      ensures forall i :: 0 <= i < devices.Length && !old(devices[i]).active ==> 0 <= index <= i
      ensures index != -1 ==>
        && !old(devices[index]).active
        && devices[..] == old(devices[..])[index := old(devices[index]).(vid := vid, pid := pid, active := true, lastActivity := now)]
        && totalDevices == old(totalDevices) + 1
    {
      for i := 0 to MAX_DEVICES
        invariant forall j :: 0 <= j < i ==> devices[j].active
      {
        if !devices[i].active {
          ActiveCountUpdate(devices[..], i, devices[i].(vid := vid, pid := pid, active := true, lastActivity := now));
          devices[i] := devices[i].(vid := vid, pid := pid, active := true, lastActivity := now);
          totalDevices := totalDevices + 1;
          return i;
        }
      }
      return -1;
    }

    /** Whether some compared byte of `buf` differs from the slot's stored
        payload; an index outside the table gives false. */
    method HasDataChanged(deviceIndex: int, buf: seq<byte>) returns (changed: bool)
      requires Valid()
      requires |buf| < 256
      ensures changed <==> 0 <= deviceIndex < devices.Length && Differs(devices[deviceIndex].buffer, buf)
    {
      if deviceIndex < 0 || deviceIndex >= MAX_DEVICES {
        return false;
      }
      var stored := devices[deviceIndex].buffer;
      var newFlags: byte := 0;
      var i := 0;
      while i < |buf| && i < BUFFER_SIZE
        invariant 0 <= i <= Compared(buf)
        invariant newFlags == ChangeMaskUpTo(stored, buf, i)
      {
        if stored[i] != buf[i] {
          newFlags := newFlags | Mask(i);
        }
        i := i + 1;
      }
      ChangeMaskNonzeroIff(stored, buf);
      return newFlags != 0;
    }

    /** Records `buf` into the slot: see `RecordReport` and `RecordReportSpec`. */
    method UpdateChangeFlags(deviceIndex: int, buf: seq<byte>, now: u16)
      requires Valid()
      requires |buf| < 256
      modifies devices
      ensures Valid()
      ensures if 0 <= deviceIndex < devices.Length
        then devices[..] == old(devices[..])[deviceIndex := RecordReport(old(devices[deviceIndex]), buf, now)]
        else devices[..] == old(devices[..])
    {
      if deviceIndex < 0 || deviceIndex >= MAX_DEVICES {
        return;
      }
      var slot := devices[deviceIndex];
      var buffer := slot.buffer;
      var flags: byte := 0;
      var i := 0;
      while i < |buf| && i < BUFFER_SIZE
        invariant 0 <= i <= Compared(buf)
        invariant |buffer| == BUFFER_SIZE
        invariant forall j :: 0 <= j < i ==> buffer[j] == buf[j]
        invariant forall j :: i <= j < BUFFER_SIZE ==> buffer[j] == slot.buffer[j]
        invariant flags == ChangeMaskUpTo(slot.buffer, buf, i)
      {
        if buffer[i] != buf[i] {
          flags := flags | Mask(i);
          buffer := buffer[i := buf[i]];
        }
        i := i + 1;
      }
      assert buffer == buf[..i] + slot.buffer[i..];
      var changed := flags != 0;
      var updated := slot.(buffer := buffer, changeFlags := flags, changed := changed,
                           lastActivity := if changed then now else slot.lastActivity);
      ActiveCountUpdate(devices[..], deviceIndex, updated);
      devices[deviceIndex] := updated;
    }

    /** Passes a changed payload to the decoder of the slot's type. An index
        outside the table or an unchanged payload does nothing; an unknown
        type or a decoder whose device is not connected receives nothing. */
    method ProcessDeviceData(deviceIndex: int, buf: seq<byte>, now: u16) returns (events: seq<HidEvent>)
      requires Valid()
      requires |buf| < 256
      modifies devices, keyboard, mouse
      ensures Valid()
      ensures keyboard.initialized == old(keyboard.initialized) && mouse.initialized == old(mouse.initialized)
      ensures 0 <= deviceIndex < devices.Length ==> !Differs(devices[deviceIndex].buffer, buf)
      ensures !(0 <= deviceIndex < devices.Length && Differs(old(devices[deviceIndex]).buffer, buf)) ==>
        events == [] && devices[..] == old(devices[..]) && unchanged(keyboard, mouse)
      ensures 0 <= deviceIndex < devices.Length && Differs(old(devices[deviceIndex]).buffer, buf) ==>
        devices[..] == old(devices[..])[deviceIndex := RecordReport(old(devices[deviceIndex]), buf, now)]
      ensures 0 <= deviceIndex < devices.Length && Differs(old(devices[deviceIndex]).buffer, buf) ==>
        var deviceType := old(devices[deviceIndex]).deviceType;
        if deviceType == DeviceKeyboard && keyboardConnected then
          && events == KeyboardEvents(Keyboard.ReportEvents(old(keyboard.initialized), old(keyboard.currentReport), buf))
          && (if old(keyboard.initialized) && |buf| >= Keyboard.REPORT_SIZE
              then keyboard.previousReport == old(keyboard.currentReport)
                && keyboard.currentReport == Keyboard.ReportFromBytes(buf)
              else unchanged(keyboard))
          && unchanged(mouse)
        else if deviceType == DeviceMouse && mouseConnected then
          && events == MouseEvents(Mouse.ReportEvents(old(mouse.initialized), old(mouse.currentReport),
                                                      old(mouse.absoluteX), old(mouse.absoluteY), buf))
          && (if old(mouse.initialized) && |buf| >= Mouse.MIN_REPORT_SIZE
              then var r := Mouse.ReportFromBytes(buf);
                && mouse.previousReport == old(mouse.currentReport) && mouse.currentReport == r
                && mouse.absoluteX == (if Mouse.Moves(r) then Mouse.NextCoordinate(old(mouse.absoluteX), r.x) else old(mouse.absoluteX))
                && mouse.absoluteY == (if Mouse.Moves(r) then Mouse.NextCoordinate(old(mouse.absoluteY), r.y) else old(mouse.absoluteY))
              else unchanged(mouse))
          && unchanged(keyboard)
        else
          events == [] && unchanged(keyboard, mouse)
    {
      if deviceIndex < 0 || deviceIndex >= MAX_DEVICES {
        return [];
      }
      var changed := HasDataChanged(deviceIndex, buf);
      if !changed {
        return [];
      }
      RecordReportSpec(devices[deviceIndex], buf, now);
      UpdateChangeFlags(deviceIndex, buf, now);
      var device := devices[deviceIndex];
      events := [];
      if device.deviceType == DeviceKeyboard && keyboardConnected {
        var keyEvents := keyboard.ParseKeyboardReport(buf);
        events := KeyboardEvents(keyEvents);
      } else if device.deviceType == DeviceMouse && mouseConnected {
        var mouseEvents := mouse.ParseMouseReport(buf);
        events := MouseEvents(mouseEvents);
      }
    }

    /** Deactivates every active slot whose last activity is more than 78
        units old, keeps the device count and the connected flags in step,
        and leaves the decoders as they are. */
    method CheckDeviceStatus(now: u16)
      requires Valid()
      modifies this`totalDevices, this`keyboardConnected, this`mouseConnected, devices
      ensures Valid()
      ensures forall i :: 0 <= i < devices.Length ==>
        devices[i] == if Evicted(old(devices[i]), now) then old(devices[i]).(active := false) else old(devices[i])
      ensures keyboardConnected == (old(keyboardConnected) &&
        !exists i :: 0 <= i < devices.Length && Evicted(old(devices[i]), now) && old(devices[i]).deviceType == DeviceKeyboard)
      ensures mouseConnected == (old(mouseConnected) &&
        !exists i :: 0 <= i < devices.Length && Evicted(old(devices[i]), now) && old(devices[i]).deviceType == DeviceMouse)
      ensures unchanged(keyboard, mouse)
    {
      ghost var before := devices[..];
      for i := 0 to MAX_DEVICES
        invariant totalDevices == ActiveCount(devices[..])
        invariant forall j :: 0 <= j < i ==>
          devices[j] == if Evicted(before[j], now) then before[j].(active := false) else before[j]
        invariant forall j :: i <= j < devices.Length ==> devices[j] == before[j]
        invariant keyboardConnected == (old(keyboardConnected) &&
          !exists j :: 0 <= j < i && Evicted(before[j], now) && before[j].deviceType == DeviceKeyboard)
        invariant mouseConnected == (old(mouseConnected) &&
          !exists j :: 0 <= j < i && Evicted(before[j], now) && before[j].deviceType == DeviceMouse)
      {
        if devices[i].active {
          var timeDiff := Elapsed(now, devices[i].lastActivity);
          if timeDiff > TIMEOUT_UNITS {
            ActiveCountUpdate(devices[..], i, devices[i].(active := false));
            devices[i] := devices[i].(active := false);
            totalDevices := totalDevices - 1;
            if devices[i].deviceType == DeviceKeyboard {
              keyboardConnected := false;
            } else if devices[i].deviceType == DeviceMouse {
              mouseConnected := false;
            }
          }
        }
      }
    }

    /** 100 with no device, 1 when some active slot was active within the last
        15 units, 10 otherwise. */
    method GetPollInterval(now: u16) returns (interval: int)
      requires Valid()
      ensures totalDevices == 0 ==> interval == POLL_NONE
      ensures totalDevices != 0 ==>
        interval == if exists i :: 0 <= i < devices.Length && devices[i].active && RecentlyActive(now, devices[i].lastActivity)
                    then POLL_ACTIVE else POLL_IDLE
    {
      if totalDevices == 0 {
        return POLL_NONE;
      }
      for i := 0 to MAX_DEVICES
        invariant forall j :: 0 <= j < i ==> !(devices[j].active && RecentlyActive(now, devices[j].lastActivity))
      {
        if devices[i].active {
          var timeDiff := Elapsed(now, devices[i].lastActivity);
          if timeDiff < ACTIVITY_UNITS {
            return POLL_ACTIVE;
          }
        }
      }
      return POLL_IDLE;
    }

    /** The report callback for a report of `|buf|` bytes from the device with
        this identity at time `now`. An empty report changes nothing. With no
        device tracked, a slot is claimed, the type is guessed from the length
        and the matching decoder is armed; otherwise slot 0 is reused with its
        cached identity and type. The payload then goes through
        ProcessDeviceData. */
    method ParseHidData(vid: u16, pid: u16, buf: seq<byte>, now: u16) returns (events: seq<HidEvent>)
      requires Valid()
      requires |buf| < 256
      modifies this, devices, keyboard, mouse
      ensures Valid()
      ensures |buf| == 0 ==> events == [] && unchanged(this, devices, keyboard, mouse)
      ensures |buf| > 0 ==> currentDevice == 0
      ensures |buf| > 0 && old(totalDevices) == 0 ==>
        && totalDevices == 1
        && devices[0].active && devices[0].vid == vid && devices[0].pid == pid
        && devices[0].deviceType == IdentifyDeviceType(|buf|, buf)
        && devices[0].bufferSize == |buf| % 64
        && keyboardConnected == (old(keyboardConnected) || devices[0].deviceType == DeviceKeyboard)
        && mouseConnected == (old(mouseConnected) || devices[0].deviceType == DeviceMouse)
        && (devices[0].deviceType == DeviceKeyboard ==> keyboard.initialized)
        && (devices[0].deviceType == DeviceMouse ==> mouse.initialized)
      ensures |buf| > 0 && old(totalDevices) > 0 ==>
        && totalDevices == old(totalDevices)
        && devices[0].active
        && devices[0].vid == old(devices[0].vid) && devices[0].pid == old(devices[0].pid)
        && devices[0].deviceType == old(devices[0].deviceType)
        && devices[0].bufferSize == old(devices[0].bufferSize)
        && keyboardConnected == old(keyboardConnected) && mouseConnected == old(mouseConnected)
      ensures |buf| > 0 && !Differs(old(devices[0].buffer), buf) ==> events == []
      ensures |buf| > 0 ==> !Differs(devices[0].buffer, buf)
      ensures devices[0].deviceType == DeviceUnknown ==> events == []
      ensures |buf| > 0 ==>
        var slot := if old(totalDevices) == 0 then ClaimSlot(old(devices[0]), vid, pid, buf, now) else old(devices[0]);
        devices[0] == if Differs(slot.buffer, buf) then RecordReport(slot, buf, now) else slot
      ensures |buf| > 0 ==>
        var claimed := old(totalDevices) == 0;
        var t := devices[0].deviceType;
        var dispatched := Differs(old(devices[0].buffer), buf);
        var keyboardArmed := old(keyboard.initialized) || (claimed && t == DeviceKeyboard);
        var mouseRecentred := claimed && t == DeviceMouse && !old(mouse.initialized);
        var mouseArmed := old(mouse.initialized) || mouseRecentred;
        var x0 := if mouseRecentred then 0 else old(mouse.absoluteX);
        var y0 := if mouseRecentred then 0 else old(mouse.absoluteY);
        var toKeyboard := dispatched && t == DeviceKeyboard && keyboardConnected;
        var toMouse := dispatched && t == DeviceMouse && mouseConnected;
        && keyboard.initialized == keyboardArmed && mouse.initialized == mouseArmed
        && events == (if toKeyboard then KeyboardEvents(Keyboard.ReportEvents(keyboardArmed, old(keyboard.currentReport), buf))
                      else if toMouse then MouseEvents(Mouse.ReportEvents(mouseArmed, old(mouse.currentReport), x0, y0, buf))
                      else [])
        && (if toKeyboard && keyboardArmed && |buf| >= Keyboard.REPORT_SIZE
            then keyboard.previousReport == old(keyboard.currentReport)
              && keyboard.currentReport == Keyboard.ReportFromBytes(buf)
            else (keyboard.previousReport == old(keyboard.previousReport)
              && keyboard.currentReport == old(keyboard.currentReport)))
        && (if toMouse && mouseArmed && |buf| >= Mouse.MIN_REPORT_SIZE
            then var r := Mouse.ReportFromBytes(buf);
              && mouse.previousReport == old(mouse.currentReport) && mouse.currentReport == r
              && mouse.absoluteX == (if Mouse.Moves(r) then Mouse.NextCoordinate(x0, r.x) else x0)
              && mouse.absoluteY == (if Mouse.Moves(r) then Mouse.NextCoordinate(y0, r.y) else y0)
            else (mouse.previousReport == old(mouse.previousReport) && mouse.currentReport == old(mouse.currentReport)
              && mouse.absoluteX == x0 && mouse.absoluteY == y0))
    {
      if |buf| == 0 {
        return [];
      }
      SelectDevice(vid, pid, buf, now);
      events := [];
      if currentDevice != -1 {
        events := ProcessDeviceData(currentDevice, buf, now);
      }
    }

    /** The device-selection step of the report callback. With no device
        tracked, slot 0 is claimed for this identity, typed by the report's
        length, and the matching decoder is marked connected and armed (a
        newly armed mouse is recentred); otherwise slot 0 is reused as it is.
        Both decoders keep their reports. */
    method SelectDevice(vid: u16, pid: u16, buf: seq<byte>, now: u16)
      requires Valid()
      modifies this`currentDevice, this`totalDevices, this`keyboardConnected, this`mouseConnected,
        devices, keyboard, mouse
      ensures Valid()
      ensures currentDevice == 0 && devices[0].active
      ensures devices[0] == if old(totalDevices) == 0 then ClaimSlot(old(devices[0]), vid, pid, buf, now) else old(devices[0])
      ensures totalDevices == if old(totalDevices) == 0 then 1 else old(totalDevices)
      ensures var claimed := old(totalDevices) == 0;
        var t := devices[0].deviceType;
        && keyboardConnected == (old(keyboardConnected) || (claimed && t == DeviceKeyboard))
        && mouseConnected == (old(mouseConnected) || (claimed && t == DeviceMouse))
        && keyboard.initialized == (old(keyboard.initialized) || (claimed && t == DeviceKeyboard))
        && mouse.initialized == (old(mouse.initialized) || (claimed && t == DeviceMouse))
        && (if claimed && t == DeviceMouse && !old(mouse.initialized)
            then mouse.absoluteX == 0 && mouse.absoluteY == 0
            else mouse.absoluteX == old(mouse.absoluteX) && mouse.absoluteY == old(mouse.absoluteY))
      ensures keyboard.currentReport == old(keyboard.currentReport) && keyboard.previousReport == old(keyboard.previousReport)
      ensures mouse.currentReport == old(mouse.currentReport) && mouse.previousReport == old(mouse.previousReport)
    {
      if totalDevices == 0 {
        var detectedType := IdentifyDeviceType(|buf|, buf);
        ActiveCountZeroIff(devices[..]);
        currentDevice := CreateDeviceSlot(vid, pid, now);
        if currentDevice != -1 {
          ActiveCountUpdate(devices[..], currentDevice,
            devices[currentDevice].(deviceType := detectedType, bufferSize := |buf| % 64));
          devices[currentDevice] := devices[currentDevice].(deviceType := detectedType, bufferSize := |buf| % 64);
          if detectedType == DeviceKeyboard {
            keyboardConnected := true;
            if !keyboard.initialized {
              keyboard.Init();
            }
          } else if detectedType == DeviceMouse {
            mouseConnected := true;
            if !mouse.initialized {
              mouse.Init();
            }
          }
        }
      } else {
        currentDevice := 0;
        ActiveCountZeroIff(devices[..]);
      }
    }
  }

  /** A 6-byte report makes the device a keyboard, but the keyboard decoder
      drops every report shorter than 8 bytes, so such a keyboard never
      produces an event. */
  lemma SixByteKeyboardSilent(buf: seq<byte>, initialized: bool, last: Keyboard.KeyboardReport)
    requires |buf| == 6 && last.WellFormed()
    ensures IdentifyDeviceType(|buf|, buf) == DeviceKeyboard
    ensures Keyboard.ReportEvents(initialized, last, buf) == []
  {
  }

  /** The same report delivered twice in a row reaches a decoder at most once:
      the second delivery finds the stored payload equal and emits nothing. */
  method RepeatedReportIgnored(manager: HidManager, vid: u16, pid: u16, buf: seq<byte>, now: u16, later: u16)
    returns (first: seq<HidEvent>, second: seq<HidEvent>)
    requires manager.Valid()
    requires 0 < |buf| < 256
    modifies manager, manager.devices, manager.keyboard, manager.mouse
    ensures manager.Valid()
    ensures second == []
  {
    first := manager.ParseHidData(vid, pid, buf, now);
    second := manager.ParseHidData(vid, pid, buf, later);
  }

  /** A new manager receives "A pressed" and then "A released" from one
      keyboard: the first report claims the slot as a keyboard, arms the
      decoder and emits the press; the second emits the release. */
  method KeyboardPressThenRelease(vid: u16, pid: u16, pressedAt: u16, releasedAt: u16)
    returns (first: seq<HidEvent>, second: seq<HidEvent>)
    ensures first == [KeyboardEvent(Keyboard.KeyChanged(0x04, true, 0))]
    ensures second == [KeyboardEvent(Keyboard.KeyChanged(0x04, false, 0))]
  {
    var manager := new HidManager();
    var pressed: seq<byte> := [0x00, 0x00, 0x04, 0, 0, 0, 0, 0];
    var released: seq<byte> := [0x00, 0x00, 0x00, 0, 0, 0, 0, 0];
    Keyboard.PressThenReleaseA();
    assert pressed[2] != EMPTY_SLOT.buffer[2];
    first := manager.ParseHidData(vid, pid, pressed, pressedAt);
    assert released[2] != manager.devices[0].buffer[2];
    second := manager.ParseHidData(vid, pid, released, releasedAt);
  }

  /** A new manager receives a 4-byte "move by (5, -3)" report and then a
      "left button down" report from one mouse: the first claims the slot as a
      mouse, arms and recentres the decoder and emits the move; the second
      emits the press and leaves the pointer at (5, -3). */
  method MouseMoveThenClick(vid: u16, pid: u16, movedAt: u16, clickedAt: u16)
    returns (first: seq<HidEvent>, second: seq<HidEvent>, x: int, y: int)
    ensures first == [MouseEvent(Mouse.Moved(5, -3))]
    ensures second == [MouseEvent(Mouse.ButtonChanged(Mouse.MOUSE_LEFT_BUTTON, true))]
    ensures x == 5 && y == -3
  {
    var manager := new HidManager();
    var moved: seq<byte> := [0x00, 0x05, 0xFD, 0x00];
    var clicked: seq<byte> := [0x01, 0x00, 0x00, 0x00];
    Mouse.MoveThenClick();
    assert moved[1] != EMPTY_SLOT.buffer[1];
    first := manager.ParseHidData(vid, pid, moved, movedAt);
    assert clicked[0] != manager.devices[0].buffer[0];
    second := manager.ParseHidData(vid, pid, clicked, clickedAt);
    x, y := manager.mouse.GetCurrentPosition();
  }
}
