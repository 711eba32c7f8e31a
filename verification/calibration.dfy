/**
  `dumpCalibrationData`: stick calibration (user region if it is not blank,
  factory region otherwise), the stick deadzone, and the gyroscope neutral
  offsets (user region, re-read from the factory region when implausible).
 */
module Calibration {
  import opened Codec
  import opened Transport
  import opened Spi

  const UserBank: byte := 0x80
  const FactoryBank: byte := 0x60

  function UserStickAddr(isLeft: bool): byte
  {
    if isLeft then 0x12 else 0x1D
  }

  function FactoryStickAddr(isLeft: bool): byte
  {
    if isLeft then 0x3D else 0x46
  }

  function DeadzoneAddr(isLeft: bool): byte
  {
    if isLeft then 0x86 else 0x98
  }

  const UserGyroAddr: byte := 0x34
  const FactoryGyroAddr: byte := 0x29

  const StickCalLen: nat := 9
  const DeadzoneLen: nat := 16
  const GyroLen: nat := 10

  /** Largest magnitude a plausible gyroscope neutral offset may have, in counts. */
  const GyroNeutralLimit: nat := 100

  // ---------------------------------------------------------------------------
  // Stick calibration.

  /** A calibration region is present when one of its nine bytes is not 0xFF (erased flash). */
  predicate UserStickPresent(buf: seq<byte>)
    requires |buf| >= StickCalLen
  {
    exists i :: 0 <= i < StickCalLen && buf[i] != 0xFF
  }

  /**
    Where the `i`-th value unpacked from the region lands in `stick_cal`
    (slots 0..1 max above centre, 2..3 centre, 4..5 min below centre). The
    right controller stores centre, min, max; the left max, centre, min.
   */
  function StickSlot(isLeft: bool, i: nat): (slot: nat)
    requires i < 6
    ensures slot < 6
  {
    if isLeft then i else (i + 2) % 6
  }

  /**
    Each side writes every `stick_cal` slot exactly once: the left controller in
    order 0..5, the right controller in order 2, 3, 4, 5, 0, 1.
   */
  lemma StickSlotPermutation(isLeft: bool, i: nat, j: nat)
    requires i < 6 && j < 6
    ensures StickSlot(isLeft, i) == StickSlot(isLeft, j) ==> i == j
    ensures exists k :: 0 <= k < 6 && StickSlot(isLeft, k) == i
    ensures StickSlot(true, i) == i
    ensures [StickSlot(false, 0), StickSlot(false, 1), StickSlot(false, 2),
             StickSlot(false, 3), StickSlot(false, 4), StickSlot(false, 5)] == [2, 3, 4, 5, 0, 1]
  {
    var k := if isLeft then i else (i + 4) % 6;
    assert StickSlot(isLeft, k) == i;
  }

  /** The six 12-bit calibration values of a nine-byte region, in `stick_cal` order. */
  function UnpackStick(buf: seq<byte>, isLeft: bool): (cal: seq<int>)
    requires |buf| >= StickCalLen
    ensures |cal| == 6
    ensures forall i :: 0 <= i < 6 ==> 0 <= cal[i] <= 0xFFF
    ensures cal[StickSlot(isLeft, 0)] == Lo12(buf[0], buf[1]) && cal[StickSlot(isLeft, 1)] == Hi12(buf[1], buf[2])
    ensures cal[StickSlot(isLeft, 2)] == Lo12(buf[3], buf[4]) && cal[StickSlot(isLeft, 3)] == Hi12(buf[4], buf[5])
    ensures cal[StickSlot(isLeft, 4)] == Lo12(buf[6], buf[7]) && cal[StickSlot(isLeft, 5)] == Hi12(buf[7], buf[8])
  {
    var v := [Lo12(buf[0], buf[1]), Hi12(buf[1], buf[2]),
              Lo12(buf[3], buf[4]), Hi12(buf[4], buf[5]),
              Lo12(buf[6], buf[7]), Hi12(buf[7], buf[8])];
    if isLeft then v else v[4..] + v[..4]
  }

  predicate ValidStick(cal: seq<int>)
  {
    |cal| == 6 && forall i :: 0 <= i < 6 ==> 0 <= cal[i] <= 0xFFF
  }

  /** How a controller stores six calibration values in its nine-byte region. */
  function PackStick(cal: seq<int>, isLeft: bool): (buf: seq<byte>)
    requires ValidStick(cal)
    ensures |buf| == StickCalLen
  {
    var v := if isLeft then cal else cal[2..] + cal[..2];
    Pack12(v[0], v[1]) + Pack12(v[2], v[3]) + Pack12(v[4], v[5])
  }

  lemma UnpackStickOfPackStick(cal: seq<int>, isLeft: bool)
    requires ValidStick(cal)
    ensures UnpackStick(PackStick(cal, isLeft), isLeft) == cal
  {
    var v := if isLeft then cal else cal[2..] + cal[..2];
    var buf := PackStick(cal, isLeft);
    Unpack12OfPack12(v[0], v[1]);
    Unpack12OfPack12(v[2], v[3]);
    Unpack12OfPack12(v[4], v[5]);
    assert buf[0..3] == Pack12(v[0], v[1]);
    assert buf[3..6] == Pack12(v[2], v[3]);
    assert buf[6..9] == Pack12(v[4], v[5]);
    var u := UnpackStick(buf, isLeft);
    assert u[StickSlot(isLeft, 0)] == v[0] && u[StickSlot(isLeft, 1)] == v[1];
    assert u[StickSlot(isLeft, 2)] == v[2] && u[StickSlot(isLeft, 3)] == v[3];
    assert u[StickSlot(isLeft, 4)] == v[4] && u[StickSlot(isLeft, 5)] == v[5];
  }

  /** The deadzone: the 12-bit value at bytes 3..4 of the factory stick-parameter block. */
  function Deadzone(buf: seq<byte>): (dz: nat)
    requires |buf| >= 5
    ensures dz <= 0xFFF
    ensures dz % 256 == buf[3] && dz / 256 == buf[4] % 16
  {
    Lo12(buf[3], buf[4])
  }

  // ---------------------------------------------------------------------------
  // Gyroscope neutral offsets.

  /** The heuristic for neutral offsets that are not to be trusted. */
  predicate Implausible(g: Vec3)
  {
    || g.x + g.y + g.z == -3
    || Abs(g.x) > GyroNeutralLimit
    || Abs(g.y) > GyroNeutralLimit
    || Abs(g.z) > GyroNeutralLimit
  }

  /** An erased region reads as -1 on every axis, which the sum test catches. */
  lemma ErasedNeutralImplausible(buf: seq<byte>, base: nat)
    requires base + 6 <= |buf|
    requires forall i :: base <= i < base + 6 ==> buf[i] == 0xFF
    ensures LeVec3(buf, base) == Vec3(-1, -1, -1)
    ensures Implausible(LeVec3(buf, base))
  {
  }

  // ---------------------------------------------------------------------------
  // The loader.

  datatype Calibration = Calibration(stick: seq<int>, deadzone: int, gyroNeutral: Vec3)

  predicate ValidCalibration(c: Calibration)
  {
    ValidStick(c.stick) && 0 <= c.deadzone <= 0xFFF && IsInt16Vec(c.gyroNeutral)
  }

  datatype StickLoad = StickLoad(stick: seq<int>, link: Link, fromUser: bool)

  /** Stick calibration: the user region unless it is blank, then the factory region. */
  function LoadStick(l: Link, isLeft: bool): (r: StickLoad)
    ensures ValidStick(r.stick)
    ensures var user := ReadSpi(l, UserBank, UserStickAddr(isLeft), StickCalLen);
      && (r.fromUser <==> UserStickPresent(user.payload))
      && (r.fromUser ==> r.stick == UnpackStick(user.payload, isLeft) && r.link == user.link)
      && (!r.fromUser ==>
            var factory := ReadSpi(user.link, FactoryBank, FactoryStickAddr(isLeft), StickCalLen);
            r.stick == UnpackStick(factory.payload, isLeft) && r.link == factory.link)
  {
    var user := ReadSpi(l, UserBank, UserStickAddr(isLeft), StickCalLen);
    if UserStickPresent(user.payload) then
      StickLoad(UnpackStick(user.payload, isLeft), user.link, true)
    else
      var factory := ReadSpi(user.link, FactoryBank, FactoryStickAddr(isLeft), StickCalLen);
      StickLoad(UnpackStick(factory.payload, isLeft), factory.link, false)
  }

  /** A controller that answers with written user calibration has it used as is. */
  lemma LoadStickFromUser(l: Link, isLeft: bool, cal: seq<int>)
    requires ValidStick(cal)
    requires UserStickPresent(PackStick(cal, isLeft))
    requires ReplyAt(l.inbox, 0) == SpiReply(UserBank, UserStickAddr(isLeft), PackStick(cal, isLeft))
    ensures LoadStick(l, isLeft).fromUser
    ensures LoadStick(l, isLeft).stick == cal
    ensures LoadStick(l, isLeft).link.inbox == Consume(l.inbox, 1)
  {
    var data := PackStick(cal, isLeft);
    ReadSpiOfReply(l, UserBank, UserStickAddr(isLeft), StickCalLen, data);
    var user := ReadSpi(l, UserBank, UserStickAddr(isLeft), StickCalLen);
    assert user.payload[..StickCalLen] == data;
    assert UserStickPresent(user.payload) by {
      var i :| 0 <= i < StickCalLen && data[i] != 0xFF;
      assert user.payload[i] == data[i];
    }
    UnpackStickOfPackStick(cal, isLeft);
    assert UnpackStick(user.payload, isLeft) == UnpackStick(data, isLeft);
  }

  /** A controller whose user region is erased has its factory calibration read instead. */
  lemma LoadStickFromFactory(l: Link, isLeft: bool, cal: seq<int>)
    requires ValidStick(cal)
    requires ReplyAt(l.inbox, 0) == SpiReply(UserBank, UserStickAddr(isLeft), seq(StickCalLen, _ => 0xFF))
    requires ReplyAt(l.inbox, 1) == SpiReply(FactoryBank, FactoryStickAddr(isLeft), PackStick(cal, isLeft))
    ensures !LoadStick(l, isLeft).fromUser
    ensures LoadStick(l, isLeft).stick == cal
    ensures LoadStick(l, isLeft).link.inbox == Consume(l.inbox, 2)
  {
    var blank: seq<byte> := seq(StickCalLen, _ => 0xFF);
    ReadSpiOfReply(l, UserBank, UserStickAddr(isLeft), StickCalLen, blank);
    var user := ReadSpi(l, UserBank, UserStickAddr(isLeft), StickCalLen);
    assert user.payload[..StickCalLen] == blank;
    assert !UserStickPresent(user.payload) by {
      forall i | 0 <= i < StickCalLen ensures user.payload[i] == 0xFF {
        assert user.payload[i] == blank[i];
      }
    }
    var data := PackStick(cal, isLeft);
    assert ReplyAt(user.link.inbox, 0) == ReplyAt(l.inbox, 1);
    ReadSpiOfReply(user.link, FactoryBank, FactoryStickAddr(isLeft), StickCalLen, data);
    var factory := ReadSpi(user.link, FactoryBank, FactoryStickAddr(isLeft), StickCalLen);
    assert factory.payload[..StickCalLen] == data;
    UnpackStickOfPackStick(cal, isLeft);
    assert UnpackStick(factory.payload, isLeft) == UnpackStick(data, isLeft);
    ConsumeTwice(l.inbox, 1, 1);
  }

  datatype GyroLoad = GyroLoad(neutral: Vec3, link: Link, fromFactory: bool)

  /** Gyroscope neutral offsets: the user region, or the factory region when those are implausible. */
  function LoadGyroNeutral(l: Link): (r: GyroLoad)
    ensures IsInt16Vec(r.neutral)
    ensures var user := ReadSpi(l, UserBank, UserGyroAddr, GyroLen);
      && (r.fromFactory <==> Implausible(LeVec3(user.payload, 0)))
      && (!r.fromFactory ==> r.neutral == LeVec3(user.payload, 0) && r.link == user.link)
      && (r.fromFactory ==>
            var factory := ReadSpi(user.link, FactoryBank, FactoryGyroAddr, GyroLen);
            r.neutral == LeVec3(factory.payload, 3) && r.link == factory.link)
    ensures !r.fromFactory ==> !Implausible(r.neutral)
  {
    var user := ReadSpi(l, UserBank, UserGyroAddr, GyroLen);
    var g := LeVec3(user.payload, 0);
    if Implausible(g) then
      var factory := ReadSpi(user.link, FactoryBank, FactoryGyroAddr, GyroLen);
      GyroLoad(LeVec3(factory.payload, 3), factory.link, true)
    else
      GyroLoad(g, user.link, false)
  }

  /** An SPI read answered with the bytes of a vector at `base` decodes to that vector. */
  lemma GyroFromReply(l: Link, bank: byte, addr: byte, data: seq<byte>, base: nat, v: Vec3)
    requires IsInt16Vec(v) && |data| <= ReportLen - SpiHeaderLen && base + 6 <= |data|
    requires data[base..base + 6] == Vec3Bytes(v)
    requires ReplyAt(l.inbox, 0) == SpiReply(bank, addr, data)
    ensures LeVec3(ReadSpi(l, bank, addr, GyroLen).payload, base) == v
    ensures ReadSpi(l, bank, addr, GyroLen).link.inbox == Consume(l.inbox, 1)
  {
    ReadSpiOfReply(l, bank, addr, GyroLen, data);
    var payload := ReadSpi(l, bank, addr, GyroLen).payload;
    assert payload[..|data|] == data;
    assert payload[base..base + 6] == data[base..base + 6];
    LeVec3OfVec3Bytes(payload, base, v);
  }

  /** Offsets from the first region that sum to exactly -3 send the loader to the second region. */
  lemma GyroFallbackOnMinusThree(l: Link, g: Vec3, f: Vec3)
    requires IsInt16Vec(g) && IsInt16Vec(f)
    requires g.x + g.y + g.z == -3
    requires ReplyAt(l.inbox, 0) == SpiReply(UserBank, UserGyroAddr, Vec3Bytes(g))
    requires ReplyAt(l.inbox, 1) == SpiReply(FactoryBank, FactoryGyroAddr, [0, 0, 0] + Vec3Bytes(f))
    ensures LoadGyroNeutral(l).fromFactory
    ensures LoadGyroNeutral(l).neutral == f
    ensures LoadGyroNeutral(l).link.inbox == Consume(l.inbox, 2)
  {
    var gb := Vec3Bytes(g);
    assert gb[0..6] == gb;
    GyroFromReply(l, UserBank, UserGyroAddr, gb, 0, g);
    var user := ReadSpi(l, UserBank, UserGyroAddr, GyroLen);
    var fb := [0, 0, 0] + Vec3Bytes(f);
    assert fb[3..9] == Vec3Bytes(f);
    assert ReplyAt(user.link.inbox, 0) == ReplyAt(l.inbox, 1);
    GyroFromReply(user.link, FactoryBank, FactoryGyroAddr, fb, 3, f);
    ConsumeTwice(l.inbox, 1, 1);
  }

  /** Plausible offsets in the first region are kept, and nothing more is read. */
  lemma GyroKeptWhenPlausible(l: Link, g: Vec3)
    requires IsInt16Vec(g) && !Implausible(g)
    requires ReplyAt(l.inbox, 0) == SpiReply(UserBank, UserGyroAddr, Vec3Bytes(g))
    ensures !LoadGyroNeutral(l).fromFactory
    ensures LoadGyroNeutral(l).neutral == g
    ensures LoadGyroNeutral(l).link.inbox == Consume(l.inbox, 1)
  {
    var gb := Vec3Bytes(g);
    assert gb[0..6] == gb;
    GyroFromReply(l, UserBank, UserGyroAddr, gb, 0, g);
  }

  /** The link after the stick calibration and the deadzone have been read. */
  function StickAndDeadzoneLink(l: Link, isLeft: bool): Link
  {
    ReadSpi(LoadStick(l, isLeft).link, FactoryBank, DeadzoneAddr(isLeft), DeadzoneLen).link
  }

  datatype Loaded = Loaded(cal: Calibration, link: Link, userStick: bool, factoryGyro: bool)

  /** `dumpCalibrationData`: stick calibration, then the deadzone, then the gyroscope offsets. */
  function DumpCalibrationData(l: Link, isLeft: bool): (r: Loaded)
    ensures ValidCalibration(r.cal)
    ensures r.userStick == LoadStick(l, isLeft).fromUser
    ensures r.cal.stick == LoadStick(l, isLeft).stick
    ensures r.cal.deadzone == Deadzone(ReadSpi(LoadStick(l, isLeft).link, FactoryBank, DeadzoneAddr(isLeft), DeadzoneLen).payload)
    ensures r.factoryGyro == LoadGyroNeutral(StickAndDeadzoneLink(l, isLeft)).fromFactory
    ensures r.cal.gyroNeutral == LoadGyroNeutral(StickAndDeadzoneLink(l, isLeft)).neutral
    ensures r.link == LoadGyroNeutral(StickAndDeadzoneLink(l, isLeft)).link
    ensures !r.factoryGyro ==> !Implausible(r.cal.gyroNeutral)
  {
    var s := LoadStick(l, isLeft);
    var dz := ReadSpi(s.link, FactoryBank, DeadzoneAddr(isLeft), DeadzoneLen);
    assert dz.link == StickAndDeadzoneLink(l, isLeft);
    var g := LoadGyroNeutral(dz.link);
    assert ValidStick(s.stick) && IsInt16Vec(g.neutral);
    assert !g.fromFactory ==> !Implausible(g.neutral);
    Loaded(Calibration(s.stick, Deadzone(dz.payload), g.neutral), g.link, s.fromUser, g.fromFactory)
  }

  /**
    A controller with written user stick calibration, a stick-parameter block
    and plausible user gyroscope offsets: all three are loaded as stored, in
    three reads.
   */
  lemma DumpCalibrationOfReplies(l: Link, isLeft: bool, stick: seq<int>, block: seq<byte>, g: Vec3)
    requires ValidStick(stick) && UserStickPresent(PackStick(stick, isLeft))
    requires DeadzoneLen <= |block| <= ReportLen - SpiHeaderLen
    requires IsInt16Vec(g) && !Implausible(g)
    requires ReplyAt(l.inbox, 0) == SpiReply(UserBank, UserStickAddr(isLeft), PackStick(stick, isLeft))
    requires ReplyAt(l.inbox, 1) == SpiReply(FactoryBank, DeadzoneAddr(isLeft), block)
    requires ReplyAt(l.inbox, 2) == SpiReply(UserBank, UserGyroAddr, Vec3Bytes(g))
    ensures var r := DumpCalibrationData(l, isLeft);
      && r.cal == Calibration(stick, Deadzone(block), g)
      && r.userStick && !r.factoryGyro
      && r.link.inbox == Consume(l.inbox, 3)
  {
    var r := DumpCalibrationData(l, isLeft);
    LoadStickFromUser(l, isLeft, stick);
    var s := LoadStick(l, isLeft);
    assert ReplyAt(s.link.inbox, 0) == ReplyAt(l.inbox, 1);
    DeadzoneOfReply(s.link, isLeft, block);
    var dzLink := StickAndDeadzoneLink(l, isLeft);
    ConsumeTwice(l.inbox, 1, 1);
    assert ReplyAt(dzLink.inbox, 0) == ReplyAt(l.inbox, 2);
    GyroKeptWhenPlausible(dzLink, g);
    ConsumeTwice(l.inbox, 2, 1);
  }

  /** A stick-parameter block answered by the controller gives its deadzone, after one read. */
  lemma DeadzoneOfReply(l: Link, isLeft: bool, block: seq<byte>)
    requires DeadzoneLen <= |block| <= ReportLen - SpiHeaderLen
    requires ReplyAt(l.inbox, 0) == SpiReply(FactoryBank, DeadzoneAddr(isLeft), block)
    ensures Deadzone(ReadSpi(l, FactoryBank, DeadzoneAddr(isLeft), DeadzoneLen).payload) == Deadzone(block)
    ensures ReadSpi(l, FactoryBank, DeadzoneAddr(isLeft), DeadzoneLen).link.inbox == Consume(l.inbox, 1)
  {
    var payload := ReadSpi(l, FactoryBank, DeadzoneAddr(isLeft), DeadzoneLen).payload;
    ReadSpiOfReply(l, FactoryBank, DeadzoneAddr(isLeft), DeadzoneLen, block);
    assert payload[3] == payload[..|block|][3] == block[3];
    assert payload[4] == payload[..|block|][4] == block[4];
  }
}
