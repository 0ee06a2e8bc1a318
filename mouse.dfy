/**
  The boot-protocol mouse decoder (USB HID 1.11, Appendix B.2, with an
  optional fourth wheel byte).

  The decoder keeps the previous and the current report and an absolute
  position accumulated from the relative motion. Each accepted report emits
  button events (an XOR of the button bytes, left, right, middle), then at most
  one move event carrying the new position, then a wheel event whenever the
  wheel byte is nonzero.

  The position is an `int16_t`: the sum is truncated to 16 bits before it is
  clamped to [-32767, 32767], so running past an edge wraps to the far side
  rather than sticking at the edge.
 */
module Mouse {
  import opened Bytes

  const MOUSE_LEFT_BUTTON: byte := 0x01
  const MOUSE_RIGHT_BUTTON: byte := 0x02
  const MOUSE_MIDDLE_BUTTON: byte := 0x04

  /** Shortest report the decoder accepts: buttons, x, y. */
  const MIN_REPORT_SIZE: nat := 3
  /** The clamp applied to both coordinates. */
  const POSITION_LIMIT: int := 32767

  /** The button masks are the three lowest single bits. */
  lemma ButtonMasksLayout()
    ensures MOUSE_LEFT_BUTTON == Mask(0) && MOUSE_RIGHT_BUTTON == Mask(1) && MOUSE_MIDDLE_BUTTON == Mask(2)
  {
  }

  /** `struct MouseReport`: unsigned buttons, then signed 8-bit x, y and wheel
      (held here as their integer values). */
  datatype MouseReport = MouseReport(buttons: byte, x: int, y: int, wheel: int)
  {
    predicate WellFormed()
    {
      -128 <= x <= 127 && -128 <= y <= 127 && -128 <= wheel <= 127
    }
  }

  const ZERO_REPORT: MouseReport := MouseReport(0, 0, 0, 0)

  /** What the decoder prints, one value per printed line. */
  datatype MouseEvent =
    | ButtonChanged(button: byte, pressed: bool)
    | Moved(x: int, y: int)
    | WheelMoved(delta: int)

  /** The report read from `data`: the three mandatory bytes, and the wheel
      byte only when the report has one. */
  function ReportFromBytes(data: seq<byte>): (r: MouseReport)
    requires |data| >= MIN_REPORT_SIZE
    ensures r.WellFormed()
    ensures r.buttons == data[0]
    ensures (r.x - data[1] as int) % 256 == 0 && (r.y - data[2] as int) % 256 == 0
    ensures |data| == 3 ==> r.wheel == 0
    ensures |data| >= 4 ==> (r.wheel - data[3] as int) % 256 == 0
  {
    MouseReport(data[0], Signed8(data[1]), Signed8(data[2]), if |data| >= 4 then Signed8(data[3]) else 0)
  }

  /** The position range that every update keeps. */
  predicate InPositionRange(v: int)
  {
    -POSITION_LIMIT <= v <= POSITION_LIMIT
  }

  // ---------------------------------------------------------------------------
  // Button events (detectButtonChanges)
  // ---------------------------------------------------------------------------

  function ButtonEvent(mask: byte, current: byte, previous: byte): seq<MouseEvent>
  {
    if (current ^ previous) & mask != 0 then [ButtonChanged(mask, current & mask != 0)] else []
  }

  function ButtonEvents(current: byte, previous: byte): seq<MouseEvent>
  {
    ButtonEvent(MOUSE_LEFT_BUTTON, current, previous)
    + ButtonEvent(MOUSE_RIGHT_BUTTON, current, previous)
    + ButtonEvent(MOUSE_MIDDLE_BUTTON, current, previous)
  }

  lemma ButtonEventBit(mask: nat, current: byte, previous: byte)
    requires mask < 8
    ensures ButtonEvent(Mask(mask), current, previous)
      == if Bit(current, mask) != Bit(previous, mask) then [ButtonChanged(Mask(mask), Bit(current, mask))] else []
  {
    XorBit(current, previous, mask);
  }

  /** A button event is emitted exactly for each of left, right and middle whose
      bit differs, with the bit's new state; bits 3 to 7 never produce one. */
  lemma ButtonEventsExact(current: byte, previous: byte, e: MouseEvent)
    ensures e in ButtonEvents(current, previous) <==>
      exists i :: 0 <= i < 3 && Bit(current, i) != Bit(previous, i) && e == ButtonChanged(Mask(i), Bit(current, i))
  {
    ButtonEventBit(0, current, previous);
    ButtonEventBit(1, current, previous);
    ButtonEventBit(2, current, previous);
    if exists i :: 0 <= i < 3 && Bit(current, i) != Bit(previous, i) && e == ButtonChanged(Mask(i), Bit(current, i)) {
      var i :| 0 <= i < 3 && Bit(current, i) != Bit(previous, i) && e == ButtonChanged(Mask(i), Bit(current, i));
      assert i == 0 || i == 1 || i == 2;
    }
  }

  /** The button events come in the order left, right, middle. */
  lemma ButtonEventsOrder(current: byte, previous: byte)
    ensures var s := ButtonEvents(current, previous);
      forall x, y :: 0 <= x < y < |s| ==> s[x].ButtonChanged? && s[y].ButtonChanged? && s[x].button < s[y].button
  {
    var l := ButtonEvent(MOUSE_LEFT_BUTTON, current, previous);
    var r := ButtonEvent(MOUSE_RIGHT_BUTTON, current, previous);
    var m := ButtonEvent(MOUSE_MIDDLE_BUTTON, current, previous);
    assert forall x :: 0 <= x < |l| ==> l[x] == ButtonChanged(1, current & 1 != 0);
    assert forall x :: 0 <= x < |r| ==> r[x] == ButtonChanged(2, current & 2 != 0);
    assert forall x :: 0 <= x < |m| ==> m[x] == ButtonChanged(4, current & 4 != 0);
  }

  /** No button event is emitted exactly when the three button bits agree. */
  lemma ButtonEventsEmptyIff(current: byte, previous: byte)
    ensures ButtonEvents(current, previous) == [] <==> current & 0x07 == previous & 0x07
  {
  }

  /** The name getButtonName prints for a button mask. */
  function ButtonName(button: byte): (name: string)
    ensures name == "Unknown" <==> button != MOUSE_LEFT_BUTTON && button != MOUSE_RIGHT_BUTTON && button != MOUSE_MIDDLE_BUTTON
  {
    if button == MOUSE_LEFT_BUTTON then "Left"
    else if button == MOUSE_RIGHT_BUTTON then "Right"
    else if button == MOUSE_MIDDLE_BUTTON then "Middle"
    else "Unknown"
  }

  // ---------------------------------------------------------------------------
  // Position (detectMovement)
  // ---------------------------------------------------------------------------

  /** One axis of detectMovement: the `int16_t` sum, then the two clamps. */
  function NextCoordinate(position: int, delta: int): (r: int)
    ensures InPositionRange(r)
  {
    var wrapped := Wrap16(position + delta);
    if wrapped < -POSITION_LIMIT then -POSITION_LIMIT
    else if wrapped > POSITION_LIMIT then POSITION_LIMIT
    else wrapped
  }

  /** Away from the edges the position simply accumulates the motion. */
  lemma NextCoordinateAccumulates(position: int, delta: int)
    requires InPositionRange(position + delta)
    ensures NextCoordinate(position, delta) == position + delta
  {
    Wrap16Fits(position + delta);
  }

  /** Running past the right or bottom edge lands near the opposite edge:
      32767 + 1 becomes -32768 in 16 bits and is then clamped to -32767. */
  lemma NextCoordinateWrapsPastMax(position: int, delta: int)
    requires InPositionRange(position) && -128 <= delta <= 127
    requires position + delta > POSITION_LIMIT
    ensures NextCoordinate(position, delta) == if position + delta == 32768 then -POSITION_LIMIT else position + delta - 65536
    ensures NextCoordinate(position, delta) < 0
  {
    assert Wrap16(position + delta) == position + delta - 65536;
  }

  /** Running past the left or top edge by more than one lands near the
      opposite edge; reaching exactly -32768 is clamped to -32767. */
  lemma NextCoordinateWrapsPastMin(position: int, delta: int)
    requires InPositionRange(position) && -128 <= delta <= 127
    requires position + delta < -POSITION_LIMIT
    ensures NextCoordinate(position, delta) == if position + delta == -32768 then -POSITION_LIMIT else position + delta + 65536
    ensures position + delta < -32768 ==> NextCoordinate(position, delta) > 0
  {
    if position + delta < -32768 {
      assert Wrap16(position + delta) == position + delta + 65536;
    } else {
      Wrap16Fits(position + delta);
    }
  }

  /** A saturating accumulator: clamp the exact sum to the position range. */
  function Saturate(v: int): (r: int)
    ensures InPositionRange(r)
    ensures InPositionRange(v) ==> r == v
  {
    if v < -POSITION_LIMIT then -POSITION_LIMIT else if v > POSITION_LIMIT then POSITION_LIMIT else v
  }

  /** The decoder agrees with a saturating accumulator exactly while the exact
      sum fits into an `int16_t`. */
  lemma NextCoordinateSaturatesIff(position: int, delta: int)
    requires InPositionRange(position) && -128 <= delta <= 127
    ensures NextCoordinate(position, delta) == Saturate(position + delta) <==> -32768 <= position + delta <= 32767
  {
    var v := position + delta;
    if -32768 <= v <= 32767 {
      Wrap16Fits(v);
    } else if v > 32767 {
      NextCoordinateWrapsPastMax(position, delta);
    } else {
      NextCoordinateWrapsPastMin(position, delta);
    }
  }

  /** A report moves the pointer when either relative axis is nonzero. */
  predicate Moves(r: MouseReport)
  {
    r.x != 0 || r.y != 0
  }

  function MotionEvents(x0: int, y0: int, r: MouseReport): seq<MouseEvent>
  {
    if Moves(r) then [Moved(NextCoordinate(x0, r.x), NextCoordinate(y0, r.y))] else []
  }

  function WheelEvents(r: MouseReport): seq<MouseEvent>
  {
    if r.wheel != 0 then [WheelMoved(r.wheel)] else []
  }

  /** What parseMouseReport emits for `data` when the decoder's current report
      is `last` and its position is (`x0`, `y0`). */
  function ReportEvents(initialized: bool, last: MouseReport, x0: int, y0: int, data: seq<byte>): seq<MouseEvent>
  {
    if initialized && |data| >= MIN_REPORT_SIZE then
      var r := ReportFromBytes(data);
      ButtonEvents(r.buttons, last.buttons) + MotionEvents(x0, y0, r) + WheelEvents(r)
    else []
  }

  /** The same report delivered again emits no button event, but moves the
      pointer again when its motion is nonzero and emits its wheel event again. */
  lemma RepeatedReportEvents(x0: int, y0: int, data: seq<byte>)
    requires |data| >= MIN_REPORT_SIZE
    ensures var r := ReportFromBytes(data);
      ReportEvents(true, r, x0, y0, data) == MotionEvents(x0, y0, r) + WheelEvents(r)
  {
    var r := ReportFromBytes(data);
    assert ButtonEvents(r.buttons, r.buttons) == [];
  }

  /** Moving by (5, -3) from the origin, then pressing the left button without
      moving. */
  lemma MoveThenClick()
    ensures ReportEvents(true, ZERO_REPORT, 0, 0, [0x00, 0x05, 0xFD, 0x00]) == [Moved(5, -3)]
    ensures ReportEvents(true, ReportFromBytes([0x00, 0x05, 0xFD, 0x00]), 5, -3, [0x01, 0x00, 0x00, 0x00])
      == [ButtonChanged(MOUSE_LEFT_BUTTON, true)]
  {
    assert NextCoordinate(0, 5) == 5;
    assert NextCoordinate(0, -3) == -3;
  }

  // ---------------------------------------------------------------------------
  // The decoder object
  // ---------------------------------------------------------------------------

  class MouseDevice {
    var initialized: bool
    var currentReport: MouseReport
    var previousReport: MouseReport
    var absoluteX: int
    var absoluteY: int

    ghost predicate Valid()
      reads this
    {
      currentReport.WellFormed() && previousReport.WellFormed()
      && InPositionRange(absoluteX) && InPositionRange(absoluteY)
    }

    constructor ()
      ensures Valid()
      ensures !initialized && currentReport == ZERO_REPORT && previousReport == ZERO_REPORT
      ensures absoluteX == 0 && absoluteY == 0
    {
      initialized := false;
      currentReport := ZERO_REPORT;
      previousReport := ZERO_REPORT;
      absoluteX := 0;
      absoluteY := 0;
    }

    /** Arms the decoder and recentres the position; the stored reports are kept. */
    method Init()
      requires Valid()
      modifies this
      ensures Valid()
      ensures initialized && absoluteX == 0 && absoluteY == 0
      ensures currentReport == old(currentReport) && previousReport == old(previousReport)
    {
      initialized := true;
      absoluteX := 0;
      absoluteY := 0;
    }

    /** Disarms the decoder, clears both reports and recentres the position. */
    method Reset()
      requires Valid()
      modifies this
      ensures Valid()
      ensures !initialized && currentReport == ZERO_REPORT && previousReport == ZERO_REPORT
      ensures absoluteX == 0 && absoluteY == 0
    {
      initialized := false;
      currentReport := ZERO_REPORT;
      previousReport := ZERO_REPORT;
      absoluteX := 0;
      absoluteY := 0;
    }

    /** Accepts one report of `|data|` bytes. A disarmed decoder or a report
        shorter than 3 bytes changes nothing and emits nothing. */
    method ParseMouseReport(data: seq<byte>) returns (events: seq<MouseEvent>)
      requires Valid()
      requires |data| < 256
      modifies this
      ensures Valid()
      ensures initialized == old(initialized)
      ensures events == ReportEvents(old(initialized), old(currentReport), old(absoluteX), old(absoluteY), data)
      ensures if old(initialized) && |data| >= MIN_REPORT_SIZE then
          var r := ReportFromBytes(data);
          previousReport == old(currentReport) && currentReport == r
          && absoluteX == (if Moves(r) then NextCoordinate(old(absoluteX), r.x) else old(absoluteX))
          && absoluteY == (if Moves(r) then NextCoordinate(old(absoluteY), r.y) else old(absoluteY))
        else
          unchanged(this)
    {
      if !initialized || |data| < MIN_REPORT_SIZE {
        return [];
      }
      previousReport := currentReport;
      var wheel := if |data| >= 4 then Signed8(data[3]) else 0;
      currentReport := MouseReport(data[0], Signed8(data[1]), Signed8(data[2]), wheel);

      var buttonEvents := DetectButtonChanges();
      var moveEvents := DetectMovement();
      var wheelEvents := DetectWheelMovement();
      events := buttonEvents + moveEvents + wheelEvents;
    }

    /** One event for each of left, right and middle whose bit changed. */
    method DetectButtonChanges() returns (events: seq<MouseEvent>)
      ensures events == ButtonEvents(currentReport.buttons, previousReport.buttons)
    {
      var changedButtons := currentReport.buttons ^ previousReport.buttons;
      events := [];
      if changedButtons & MOUSE_LEFT_BUTTON != 0 {
        events := events + [ButtonChanged(MOUSE_LEFT_BUTTON, currentReport.buttons & MOUSE_LEFT_BUTTON != 0)];
      }
      if changedButtons & MOUSE_RIGHT_BUTTON != 0 {
        events := events + [ButtonChanged(MOUSE_RIGHT_BUTTON, currentReport.buttons & MOUSE_RIGHT_BUTTON != 0)];
      }
      if changedButtons & MOUSE_MIDDLE_BUTTON != 0 {
        events := events + [ButtonChanged(MOUSE_MIDDLE_BUTTON, currentReport.buttons & MOUSE_MIDDLE_BUTTON != 0)];
      }
    }

    /** Adds the relative motion to the position when there is any, and then
        reports the new position once. */
    method DetectMovement() returns (events: seq<MouseEvent>)
      requires Valid()
      modifies this`absoluteX, this`absoluteY
      ensures Valid()
      ensures events == MotionEvents(old(absoluteX), old(absoluteY), currentReport)
      ensures absoluteX == (if Moves(currentReport) then NextCoordinate(old(absoluteX), currentReport.x) else old(absoluteX))
      ensures absoluteY == (if Moves(currentReport) then NextCoordinate(old(absoluteY), currentReport.y) else old(absoluteY))
    {
      events := [];
      if currentReport.x != 0 || currentReport.y != 0 {
        var x := Wrap16(absoluteX + currentReport.x);
        var y := Wrap16(absoluteY + currentReport.y);

        if x < -POSITION_LIMIT { x := -POSITION_LIMIT; }
        if x > POSITION_LIMIT { x := POSITION_LIMIT; }
        if y < -POSITION_LIMIT { y := -POSITION_LIMIT; }
        if y > POSITION_LIMIT { y := POSITION_LIMIT; }

        absoluteX, absoluteY := x, y;
        events := [Moved(absoluteX, absoluteY)];
      }
    }

    /** A wheel event for every report with a nonzero wheel byte. */
    method DetectWheelMovement() returns (events: seq<MouseEvent>)
      ensures events == WheelEvents(currentReport)
    {
      events := [];
      if currentReport.wheel != 0 {
        events := [WheelMoved(currentReport.wheel)];
      }
    }

    method GetCurrentPosition() returns (x: int, y: int)
      requires Valid()
      ensures x == absoluteX && y == absoluteY
      ensures InPositionRange(x) && InPositionRange(y)
    {
      x := absoluteX;
      y := absoluteY;
    }
  }
}
