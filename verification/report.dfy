/**
  Analog stick decoding: the three raw bytes at a handedness-dependent
  offset hold two 12-bit readings, which are centred with the calibration
  and the deadzone and scaled by the calibrated range on that side.
 */
module Stick {
  import opened Codec
  import opened Calibration

  /** Raw stick bytes start at byte 6 on a left controller and byte 9 on a right one. */
  function StickOffset(isLeft: bool): (o: nat)
    ensures o + 3 <= ReportLen
  {
    if isLeft then 6 else 9
  }

  /** `stick_precal`: the two uncalibrated 12-bit readings. */
  datatype Precal = Precal(x: nat, y: nat)

  function StickPrecal(report: seq<byte>, isLeft: bool): (p: Precal)
    requires |report| == ReportLen
    ensures p.x <= 0xFFF && p.y <= 0xFFF
    ensures Pack12(p.x, p.y) == report[StickOffset(isLeft)..StickOffset(isLeft) + 3]
  {
    var o := StickOffset(isLeft);
    Pack12OfUnpack12(report[o], report[o + 1], report[o + 2]);
    assert report[o..o + 3] == [report[o], report[o + 1], report[o + 2]];
    Precal(Lo12(report[o], report[o + 1]), Hi12(report[o + 1], report[o + 2]))
  }

  /**
    One normalised stick axis. The driver divides floats; the model keeps the
    quotient as a numerator and denominator (a zero denominator is a float
    division by zero in the driver).
   */
  datatype Axis = Centred | Scaled(num: int, den: int)

  /** The real value of an axis whose quotient is defined. */
  function AxisValue(a: Axis): real
    requires a.Centred? || a.den != 0
  {
    if a.Centred? then 0.0 else a.num as real / a.den as real
  }

  /**
    One iteration of `CenterSticks`: inside the deadzone the axis reads 0;
    above the centre the offset is divided by the range above, otherwise by
    the range below.
   */
  function CenterAxis(value: int, centre: int, deadzone: int, above: int, below: int): (a: Axis)
    ensures a.Centred? <==> Abs(value - centre) < deadzone
    ensures a.Scaled? ==> a.num == value - centre
    ensures a.Scaled? && value > centre ==> a.den == above
    ensures a.Scaled? && value <= centre ==> a.den == below
  {
    var diff := value - centre;
    if Abs(diff) < deadzone then Centred
    else if diff > 0 then Scaled(diff, above)
    else Scaled(diff, below)
  }

  /** `CenterSticks`: axis `i` is centred on slot `2 + i`, scaled by slot `i` above and slot `4 + i` below. */
  function CenterSticks(p: Precal, cal: Calibration): (s: (Axis, Axis))
    requires |cal.stick| == 6
    ensures s.0 == CenterAxis(p.x, cal.stick[2], cal.deadzone, cal.stick[0], cal.stick[4])
    ensures s.1 == CenterAxis(p.y, cal.stick[3], cal.deadzone, cal.stick[1], cal.stick[5])
  {
    (CenterAxis(p.x, cal.stick[2], cal.deadzone, cal.stick[0], cal.stick[4]),
     CenterAxis(p.y, cal.stick[3], cal.deadzone, cal.stick[1], cal.stick[5]))
  }

  /**
    The nine bytes of a stick calibration region, built from its meaning: the
    range above the centre, the centre and the range below, each an x/y pair
    of 12-bit values. A left controller stores them in that order; a right
    controller stores the centre first, then the range below, then the range above.
   */
  function StickRegion(isLeft: bool, above: Precal, centre: Precal, below: Precal): (buf: seq<byte>)
    requires above.x <= 0xFFF && above.y <= 0xFFF && centre.x <= 0xFFF && centre.y <= 0xFFF
    requires below.x <= 0xFFF && below.y <= 0xFFF
    ensures |buf| == StickCalLen
  {
    if isLeft then Pack12(above.x, above.y) + Pack12(centre.x, centre.y) + Pack12(below.x, below.y)
    else Pack12(centre.x, centre.y) + Pack12(below.x, below.y) + Pack12(above.x, above.y)
  }

  /** Unpacking a region with its own handedness puts above, centre and below into slots 0-1, 2-3 and 4-5. */
  lemma UnpackStickRegion(isLeft: bool, above: Precal, centre: Precal, below: Precal)
    requires above.x <= 0xFFF && above.y <= 0xFFF && centre.x <= 0xFFF && centre.y <= 0xFFF
    requires below.x <= 0xFFF && below.y <= 0xFFF
    ensures UnpackStick(StickRegion(isLeft, above, centre, below), isLeft)
            == [above.x, above.y, centre.x, centre.y, below.x, below.y]
  {
    var cal := [above.x, above.y, centre.x, centre.y, below.x, below.y];
    assert ValidStick(cal);
    assert isLeft ==> PackStick(cal, isLeft) == StickRegion(isLeft, above, centre, below);
    assert !isLeft ==> cal[2..] + cal[..2] == [centre.x, centre.y, below.x, below.y, above.x, above.y];
    UnpackStickOfPackStick(cal, isLeft);
  }

  /**
    After a region is unpacked with the controller's handedness, `CenterSticks`
    centres each axis on the stored centre and scales it by the stored range
    above or below. With a deadzone inside the ranges, the centre reads as
    centred and the ends of travel read as exactly 1 and -1.
   */
  lemma CenterSticksOfRegion(isLeft: bool, above: Precal, centre: Precal, below: Precal, deadzone: int, g: Vec3)
    requires above.x <= 0xFFF && above.y <= 0xFFF && centre.x <= 0xFFF && centre.y <= 0xFFF
    requires below.x <= 0xFFF && below.y <= 0xFFF
    requires 0 < deadzone <= above.x && deadzone <= above.y
    requires deadzone <= below.x <= centre.x && deadzone <= below.y <= centre.y
    ensures var cal := Calibration(UnpackStick(StickRegion(isLeft, above, centre, below), isLeft), deadzone, g);
      && (forall p: Precal :: CenterSticks(p, cal) ==
            (CenterAxis(p.x, centre.x, deadzone, above.x, below.x), CenterAxis(p.y, centre.y, deadzone, above.y, below.y)))
      && CenterSticks(centre, cal) == (Centred, Centred)
      && CenterSticks(Precal(centre.x + above.x, centre.y - below.y), cal) == (Scaled(above.x, above.x), Scaled(-(below.y as int), below.y))
      && CenterSticks(Precal(centre.x - below.x, centre.y + above.y), cal) == (Scaled(-(below.x as int), below.x), Scaled(above.y, above.y))
  {
    UnpackStickRegion(isLeft, above, centre, below);
    var cal := Calibration(UnpackStick(StickRegion(isLeft, above, centre, below), isLeft), deadzone, g);
    assert cal.stick[0] == above.x && cal.stick[1] == above.y;
    assert cal.stick[2] == centre.x && cal.stick[3] == centre.y;
    assert cal.stick[4] == below.x && cal.stick[5] == below.y;
    var top := Precal(centre.x + above.x, centre.y - below.y);
    assert CenterAxis(top.x, centre.x, deadzone, above.x, below.x) == Scaled(above.x, above.x);
    assert CenterAxis(top.y, centre.y, deadzone, above.y, below.y) == Scaled(-(below.y as int), below.y);
    assert CenterSticks(top, cal) == (Scaled(above.x, above.x), Scaled(-(below.y as int), below.y));
    var bottom := Precal(centre.x - below.x, centre.y + above.y);
    assert CenterAxis(bottom.x, centre.x, deadzone, above.x, below.x) == Scaled(-(below.x as int), below.x);
    assert CenterAxis(bottom.y, centre.y, deadzone, above.y, below.y) == Scaled(above.y, above.y);
  }

  /**
    A reading within the calibrated travel (centre - below .. centre + above,
    both ranges positive) normalises into [-1, 1], with the sign of its
    offset from the centre.
   */
  lemma CenterAxisInRange(value: int, centre: int, deadzone: int, above: int, below: int)
    requires above > 0 && below > 0
    requires centre - below <= value <= centre + above
    ensures var a := CenterAxis(value, centre, deadzone, above, below);
      && -1.0 <= AxisValue(a) <= 1.0
      && (AxisValue(a) > 0.0 ==> value > centre)
      && (AxisValue(a) < 0.0 ==> value < centre)
  {
    var a := CenterAxis(value, centre, deadzone, above, below);
    if a.Scaled? {
      QuotientInUnitRange(a.num as real, a.den as real);
    }
  }

  lemma QuotientInUnitRange(n: real, d: real)
    requires d > 0.0 && -d <= n <= d
    ensures -1.0 <= n / d <= 1.0
    ensures n / d > 0.0 ==> n > 0.0
    ensures n / d < 0.0 ==> n < 0.0
  {
    var q := n / d;
    assert q * d == n;
    assert (q - 1.0) * d == n - d <= 0.0;
    assert (q + 1.0) * d == n + d >= 0.0;
  }

  /**
    With centre 2000, ranges 100 and deadzone 50: the centre and centre + 40
    read 0, and centre + 200 reads 200 / 100 = 2.0 (the driver does not clamp).
   */
  lemma CenterAxisExample()
    ensures CenterAxis(2000, 2000, 50, 100, 100) == Centred
    ensures CenterAxis(2040, 2000, 50, 100, 100) == Centred
    ensures CenterAxis(2200, 2000, 50, 100, 100) == Scaled(200, 100)
    ensures AxisValue(CenterAxis(2200, 2000, 50, 100, 100)) == 2.0
  {
  }
}

/**
  Button decoding: a declarative table of (report byte, bit mask) per button
  and handedness, and the level / rising-edge / falling-edge update.
 */
module Buttons {
  import opened Codec
  import opened Wrappers

  datatype Button =
    | DpadDown | DpadRight | DpadLeft | DpadUp | SL | SR
    | Minus | Home | Plus | Capture | StickPress | Shoulder1 | Shoulder2

  const ButtonCount: nat := 13

  /** Position of a button in the driver's `Button` enumeration. */
  function Index(b: Button): (i: nat)
    ensures i < ButtonCount
  {
    match b
    case DpadDown => 0
    case DpadRight => 1
    case DpadLeft => 2
    case DpadUp => 3
    case SL => 4
    case SR => 5
    case Minus => 6
    case Home => 7
    case Plus => 8
    case Capture => 9
    case StickPress => 10
    case Shoulder1 => 11
    case Shoulder2 => 12
  }

  function ButtonAt(i: nat): (b: Button)
    requires i < ButtonCount
    ensures Index(b) == i
  {
    [DpadDown, DpadRight, DpadLeft, DpadUp, SL, SR, Minus, Home, Plus, Capture, StickPress, Shoulder1, Shoulder2][i]
  }

  lemma ButtonAtIndex(b: Button)
    ensures ButtonAt(Index(b)) == b
  {
  }

  /** Where a button's level is read from. */
  datatype BitPos = BitPos(offset: nat, mask: bv8)

  /** Byte 5 on a left controller and byte 3 on a right one carry the side-specific buttons. */
  function SideByte(isLeft: bool): nat
  {
    if isLeft then 5 else 3
  }

  const SharedByte: nat := 4

  /** The button map; CAPTURE has no entry because the decoder never assigns it. */
  function BitOf(b: Button, isLeft: bool): (p: Option<BitPos>)
    ensures p.None? <==> b == Capture
    ensures p.Some? ==> p.value.offset in {3, 4, 5}
    ensures p.Some? ==> p.value.mask in {1, 2, 4, 8, 16, 32, 64, 128}
  {
    var side := SideByte(isLeft);
    match b
    case DpadDown => Some(BitPos(side, if isLeft then 0x01 else 0x04))
    case DpadRight => Some(BitPos(side, if isLeft then 0x04 else 0x08))
    case DpadUp => Some(BitPos(side, 0x02))
    case DpadLeft => Some(BitPos(side, if isLeft then 0x08 else 0x01))
    case Home => Some(BitPos(SharedByte, 0x10))
    case Minus => Some(BitPos(SharedByte, 0x01))
    case Plus => Some(BitPos(SharedByte, 0x02))
    case StickPress => Some(BitPos(SharedByte, if isLeft then 0x08 else 0x04))
    case Shoulder1 => Some(BitPos(side, 0x40))
    case Shoulder2 => Some(BitPos(side, 0x80))
    case SR => Some(BitPos(side, 0x10))
    case SL => Some(BitPos(side, 0x20))
    case Capture => None
  }

  /** No two buttons share a bit, on either controller. */
  lemma BitOfInjective(b1: Button, b2: Button, isLeft: bool)
    requires BitOf(b1, isLeft).Some? && BitOf(b1, isLeft) == BitOf(b2, isLeft)
    ensures b1 == b2
  {
  }

  predicate Level(report: seq<byte>, p: BitPos)
    requires p.offset < |report|
  {
    (report[p.offset] as bv8) & p.mask != 0
  }

  /** Per-button level, rising edge ("down") and falling edge ("up"), indexed by `Index`. */
  datatype Buttons = Buttons(level: seq<bool>, down: seq<bool>, up: seq<bool>)

  predicate WellFormed(bs: Buttons)
  {
    |bs.level| == ButtonCount && |bs.down| == ButtonCount && |bs.up| == ButtonCount
  }

  /** The new level of a button: read from its bit, or kept when it has none. */
  function NewLevel(prev: bool, report: seq<byte>, b: Button, isLeft: bool): bool
    requires |report| == ReportLen
  {
    match BitOf(b, isLeft)
    case None => prev
    case Some(p) => Level(report, p)
  }

  /** The button part of `ProcessButtonsAndStick`: cache the old levels, read the new ones, derive edges. */
  function Press(prev: Buttons, report: seq<byte>, isLeft: bool): (next: Buttons)
    requires |report| == ReportLen && |prev.level| == ButtonCount
    ensures WellFormed(next)
    ensures forall b :: BitOf(b, isLeft).Some? ==> next.level[Index(b)] == Level(report, BitOf(b, isLeft).value)
    ensures next.level[Index(Capture)] == prev.level[Index(Capture)]
    ensures forall i :: 0 <= i < ButtonCount ==> (next.down[i] <==> !prev.level[i] && next.level[i])
    ensures forall i :: 0 <= i < ButtonCount ==> (next.up[i] <==> prev.level[i] && !next.level[i])
  {
    var level := seq(ButtonCount, i requires 0 <= i < ButtonCount => NewLevel(prev.level[i], report, ButtonAt(i), isLeft));
    assert forall b :: level[Index(b)] == NewLevel(prev.level[Index(b)], report, b, isLeft) by {
      forall b
        ensures level[Index(b)] == NewLevel(prev.level[Index(b)], report, b, isLeft)
      {
        ButtonAtIndex(b);
      }
    }
    Buttons(level,
            seq(ButtonCount, i requires 0 <= i < ButtonCount => !prev.level[i] && level[i]),
            seq(ButtonCount, i requires 0 <= i < ButtonCount => prev.level[i] && !level[i]))
  }

  /** A button never reports a press and a release in the same report, and CAPTURE never reports either. */
  lemma EdgesExclusive(prev: Buttons, report: seq<byte>, isLeft: bool)
    requires |report| == ReportLen && |prev.level| == ButtonCount
    ensures forall i :: 0 <= i < ButtonCount ==> !(Press(prev, report, isLeft).down[i] && Press(prev, report, isLeft).up[i])
    ensures !Press(prev, report, isLeft).down[Index(Capture)] && !Press(prev, report, isLeft).up[Index(Capture)]
  {
  }

  // ---------------------------------------------------------------------------
  // Encoding levels into a report, as the controller does. The encoder is
  // written bit by bit, independently of `BitOf`.

  /** The byte whose bit `k` is `a_k`. */
  function Byte8(a0: bool, a1: bool, a2: bool, a3: bool, a4: bool, a5: bool, a6: bool, a7: bool): bv8
  {
    (if a0 then 0x01 else 0) | (if a1 then 0x02 else 0) | (if a2 then 0x04 else 0) | (if a3 then 0x08 else 0)
    | (if a4 then 0x10 else 0) | (if a5 then 0x20 else 0) | (if a6 then 0x40 else 0) | (if a7 then 0x80 else 0)
  }

  lemma Byte8Bits(a0: bool, a1: bool, a2: bool, a3: bool, a4: bool, a5: bool, a6: bool, a7: bool)
    ensures var v := Byte8(a0, a1, a2, a3, a4, a5, a6, a7);
      && (v & 0x01 != 0 <==> a0) && (v & 0x02 != 0 <==> a1) && (v & 0x04 != 0 <==> a2) && (v & 0x08 != 0 <==> a3)
      && (v & 0x10 != 0 <==> a4) && (v & 0x20 != 0 <==> a5) && (v & 0x40 != 0 <==> a6) && (v & 0x80 != 0 <==> a7)
  {
  }

  /** Byte 5 of a left report (d-pad down, up, right, left, SR, SL, SL/SR shoulders) or byte 3 of a right one. */
  function SideByteValue(l: seq<bool>, isLeft: bool): bv8
    requires |l| == ButtonCount
  {
    if isLeft then
      Byte8(l[Index(DpadDown)], l[Index(DpadUp)], l[Index(DpadRight)], l[Index(DpadLeft)],
            l[Index(SR)], l[Index(SL)], l[Index(Shoulder1)], l[Index(Shoulder2)])
    else
      Byte8(l[Index(DpadLeft)], l[Index(DpadUp)], l[Index(DpadDown)], l[Index(DpadRight)],
            l[Index(SR)], l[Index(SL)], l[Index(Shoulder1)], l[Index(Shoulder2)])
  }

  /** Byte 4: minus, plus, right stick, left stick, home. */
  function SharedByteValue(l: seq<bool>, isLeft: bool): bv8
    requires |l| == ButtonCount
  {
    Byte8(l[Index(Minus)], l[Index(Plus)], !isLeft && l[Index(StickPress)], isLeft && l[Index(StickPress)],
          l[Index(Home)], false, false, false)
  }

  /** A standard full report (id 0x30) whose button bytes hold `levels`. */
  function ButtonReport(levels: seq<bool>, isLeft: bool): (report: seq<byte>)
    requires |levels| == ButtonCount
    ensures |report| == ReportLen && report[0] == 0x30
    ensures report[SideByte(isLeft)] as bv8 == SideByteValue(levels, isLeft)
    ensures report[SharedByte] as bv8 == SharedByteValue(levels, isLeft)
  {
    Zeros(ReportLen)[0 := 0x30]
                    [SideByte(isLeft) := SideByteValue(levels, isLeft) as int]
                    [SharedByte := SharedByteValue(levels, isLeft) as int]
  }

  lemma LevelOfButtonReport(l: seq<bool>, isLeft: bool, b: Button)
    requires |l| == ButtonCount && b != Capture
    ensures Level(ButtonReport(l, isLeft), BitOf(b, isLeft).value) == l[Index(b)]
  {
    var p := BitOf(b, isLeft).value;
    if p.offset == SharedByte {
      SharedLevels(l, isLeft, b);
    } else if isLeft {
      LeftSideLevels(l, b);
    } else {
      RightSideLevels(l, b);
    }
  }

  lemma SharedLevels(l: seq<bool>, isLeft: bool, b: Button)
    requires |l| == ButtonCount && b != Capture && BitOf(b, isLeft).value.offset == SharedByte
    ensures Level(ButtonReport(l, isLeft), BitOf(b, isLeft).value) == l[Index(b)]
  {
    Byte8Bits(l[Index(Minus)], l[Index(Plus)], !isLeft && l[Index(StickPress)], isLeft && l[Index(StickPress)],
              l[Index(Home)], false, false, false);
  }

  lemma LeftSideLevels(l: seq<bool>, b: Button)
    requires |l| == ButtonCount && b != Capture && BitOf(b, true).value.offset == SideByte(true)
    ensures Level(ButtonReport(l, true), BitOf(b, true).value) == l[Index(b)]
  {
    Byte8Bits(l[Index(DpadDown)], l[Index(DpadUp)], l[Index(DpadRight)], l[Index(DpadLeft)],
              l[Index(SR)], l[Index(SL)], l[Index(Shoulder1)], l[Index(Shoulder2)]);
  }

  lemma RightSideLevels(l: seq<bool>, b: Button)
    requires |l| == ButtonCount && b != Capture && BitOf(b, false).value.offset == SideByte(false)
    ensures Level(ButtonReport(l, false), BitOf(b, false).value) == l[Index(b)]
  {
    Byte8Bits(l[Index(DpadLeft)], l[Index(DpadUp)], l[Index(DpadDown)], l[Index(DpadRight)],
              l[Index(SR)], l[Index(SL)], l[Index(Shoulder1)], l[Index(Shoulder2)]);
  }

  /**
    Decoding a report the controller built from `levels` recovers every level
    except CAPTURE, which keeps its previous value.
   */
  lemma PressLevelOfButtonReport(prev: Buttons, levels: seq<bool>, isLeft: bool, b: Button)
    requires |levels| == ButtonCount && |prev.level| == ButtonCount && b != Capture
    ensures Press(prev, ButtonReport(levels, isLeft), isLeft).level[Index(b)] == levels[Index(b)]
  {
    LevelOfButtonReport(levels, isLeft, b);
  }

  lemma PressOfButtonReport(prev: Buttons, levels: seq<bool>, isLeft: bool)
    requires |levels| == ButtonCount && |prev.level| == ButtonCount
    ensures var next := Press(prev, ButtonReport(levels, isLeft), isLeft);
      forall b :: b != Capture ==> next.level[Index(b)] == levels[Index(b)]
  {
    forall b | b != Capture
      ensures Press(prev, ButtonReport(levels, isLeft), isLeft).level[Index(b)] == levels[Index(b)]
    {
      PressLevelOfButtonReport(prev, levels, isLeft, b);
    }
  }

  /**
    A button held over four reports as released, pressed, pressed, released
    (starting released) reports "down" only on the second report and "up"
    only on the fourth.
   */
  lemma EdgeSequence(p0: Buttons, r1: seq<byte>, r2: seq<byte>, r3: seq<byte>, r4: seq<byte>, isLeft: bool, b: Button)
    requires |r1| == ReportLen && |r2| == ReportLen && |r3| == ReportLen && |r4| == ReportLen
    requires |p0.level| == ButtonCount && !p0.level[Index(b)] && b != Capture
    requires var p := BitOf(b, isLeft).value;
      !Level(r1, p) && Level(r2, p) && Level(r3, p) && !Level(r4, p)
    ensures var p1 := Press(p0, r1, isLeft);
      var p2 := Press(p1, r2, isLeft);
      var p3 := Press(p2, r3, isLeft);
      var p4 := Press(p3, r4, isLeft);
      && !p1.down[Index(b)] && !p1.up[Index(b)]
      && p2.down[Index(b)] && !p2.up[Index(b)]
      && !p3.down[Index(b)] && !p3.up[Index(b)]
      && !p4.down[Index(b)] && p4.up[Index(b)]
  {
  }
}

/**
  `ProcessButtonsAndStick`: the decoded pad state and the early return for
  reports with id 0.
 */
module Decoder {
  import opened Codec
  import opened Calibration
  import opened Stick
  import opened Buttons

  datatype Pad = Pad(buttons: Buttons, stick: (Axis, Axis))

  datatype Decoded = Decoded(code: int, pad: Pad)

  function ProcessButtonsAndStick(pad: Pad, report: seq<byte>, isLeft: bool, cal: Calibration): (r: Decoded)
    requires |report| == ReportLen && |pad.buttons.level| == ButtonCount && |cal.stick| == 6
    ensures r.code == -1 <==> report[0] == 0
    ensures r.code == 0 <==> report[0] != 0
    ensures report[0] == 0 ==> r.pad == pad
    ensures report[0] != 0 ==>
      && r.pad.stick == CenterSticks(StickPrecal(report, isLeft), cal)
      && r.pad.buttons == Press(pad.buttons, report, isLeft)
  {
    if report[0] == 0x00 then Decoded(-1, pad)
    else
      var stick := CenterSticks(StickPrecal(report, isLeft), cal);
      Decoded(0, Pad(Press(pad.buttons, report, isLeft), stick))
  }

  /** Reports with id 0 leave the decoded state as it was, however often they arrive. */
  lemma ZeroReportsChangeNothing(pad: Pad, report: seq<byte>, isLeft: bool, cal: Calibration)
    requires |report| == ReportLen && |pad.buttons.level| == ButtonCount && |cal.stick| == 6
    requires report[0] == 0
    ensures var r := ProcessButtonsAndStick(pad, report, isLeft, cal);
      r.pad == pad && ProcessButtonsAndStick(r.pad, report, isLeft, cal) == r
  {
  }
}
