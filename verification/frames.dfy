/**
  The `state_` enumeration of the driver. Its values are compared by their
  position in the declaration, and those comparisons gate Detach, SetRumble,
  the poll step and IMU processing.
 */
module States {

  datatype DeviceState = NotAttached | Dropped | NoJoycons | Attached | InputMode0x30 | ImuDataOk

  /** Position of a state in the enumeration. */
  function Rank(s: DeviceState): (r: nat)
    ensures r < 6
    ensures r == 0 <==> s == NotAttached
    ensures r == 5 <==> s == ImuDataOk
  {
    match s
    case NotAttached => 0
    case Dropped => 1
    case NoJoycons => 2
    case Attached => 3
    case InputMode0x30 => 4
    case ImuDataOk => 5
  }

  /** `a > b` on `state_`. */
  predicate Above(a: DeviceState, b: DeviceState)
  {
    Rank(a) > Rank(b)
  }

  /** The declaration order the gates rely on, from NOT_ATTACHED up to IMU_DATA_OK. */
  lemma RankOrder()
    ensures Above(Dropped, NotAttached) && Above(NoJoycons, Dropped) && Above(Attached, NoJoycons)
    ensures Above(InputMode0x30, Attached) && Above(ImuDataOk, InputMode0x30)
  {
  }

  /** Comparing positions is a strict total order: distinct states have distinct positions. */
  lemma RankInjective(a: DeviceState, b: DeviceState)
    ensures Rank(a) == Rank(b) <==> a == b
    ensures a != b ==> Above(a, b) || Above(b, a)
  {
  }
}

/**
  Outgoing frames: the 4-bit sequence counter and the byte layout of rumble
  frames (kind 0x10) and subcommand frames (kind 0x01). Both are built, as in
  the driver, by taking a zeroed 49-byte report and calling `vector::insert`,
  which grows it.
 */
module Frames {
  import opened Codec
  import opened Wrappers

  const SubcommandKind: byte := 0x01
  const RumbleKind: byte := 0x10

  /** The neutral rumble bytes sent in front of every subcommand. */
  const DefaultBuf: seq<byte> := [0x00, 0x01, 0x40, 0x40, 0x00, 0x01, 0x40, 0x40]

  // ---------------------------------------------------------------------------
  // Sequence counter (`global_count`, a `uint8_t` that starts at 0).

  function NextCount(c: byte): (n: byte)
    ensures c < 16 ==> n < 16 && n == (c + 1) % 16
    ensures c >= 16 ==> n == (c + 1) % 256
  {
    if c == 0xF then 0 else (c + 1) % 256
  }

  /** The counter after `k` frames have been sent. */
  function Advance(c: byte, k: nat): byte
    decreases k
  {
    if k == 0 then c else Advance(NextCount(c), k - 1)
  }

  lemma {:induction false} AdvanceMod16(c: byte, k: nat)
    requires c < 16
    ensures Advance(c, k) == (c + k) % 16
    decreases k
  {
    if k > 0 {
      AdvanceMod16(NextCount(c), k - 1);
    }
  }

  /** A counter that started in 0..15 stays there and repeats with period 16. */
  lemma CounterPeriod(c: byte, k: nat)
    requires c < 16
    ensures Advance(c, k) < 16
    ensures Advance(c, k + 16) == Advance(c, k)
  {
    AdvanceMod16(c, k);
    AdvanceMod16(c, k + 16);
    PlusPeriod(c + k);
  }

  /** Sixteen consecutive sends bring a counter that started in 0..15 back to its value. */
  lemma CounterReturns(c: byte)
    requires c < 16
    ensures Advance(c, 16) == c
  {
    CounterPeriod(c, 0);
  }

  lemma PlusPeriod(x: nat)
    ensures (x + 16) % 16 == x % 16
  {
  }

  // ---------------------------------------------------------------------------
  // Frame building.

  /** `vector::insert(begin() + at, t.begin(), t.end())`. */
  function Insert(s: seq<byte>, at: nat, t: seq<byte>): (r: seq<byte>)
    requires at <= |s|
    ensures |r| == |s| + |t|
    ensures r[..at] == s[..at] && r[at..at + |t|] == t && r[at + |t|..] == s[at..]
  {
    s[..at] + t + s[at..]
  }

  /** The frame `Subcommand(sc, args)` writes when the counter is `count`. */
  function SubcommandFrame(count: byte, sc: byte, args: seq<byte>): (f: seq<byte>)
    ensures |f| == ReportLen + |DefaultBuf| + |args|
    ensures f[0] == SubcommandKind && f[1] == count
    ensures f[2..10] == DefaultBuf
    ensures f[10] == sc
    ensures f[11..11 + |args|] == args
    ensures forall i :: 11 + |args| <= i < |f| ==> f[i] == 0
  {
    var report := Zeros(ReportLen);
    var withRumble := Insert(report, 2, DefaultBuf);
    var withArgs := Insert(withRumble, 11, args);
    var f := withArgs[10 := sc][1 := count][0 := SubcommandKind];
    assert forall i :: 11 + |args| <= i < |f| ==> f[i] == 0 by {
      forall i | 11 + |args| <= i < |f|
        ensures f[i] == 0
      {
        assert f[i] == withArgs[i] == withArgs[11 + |args|..][i - 11 - |args|];
        assert withArgs[i] == withRumble[11..][i - 11 - |args|] == withRumble[i - |args|];
      }
    }
    f
  }

  /** The frame `SendRumble(data)` writes when the counter is `count`. */
  function RumbleFrame(count: byte, data: seq<byte>): (f: seq<byte>)
    ensures |f| == ReportLen + |data|
    ensures f[0] == RumbleKind && f[1] == count
    ensures f[2..2 + |data|] == data
    ensures forall i :: 2 + |data| <= i < |f| ==> f[i] == 0
  {
    var report := Zeros(ReportLen)[0 := RumbleKind][1 := count];
    Insert(report, 2, data)
  }

  // ---------------------------------------------------------------------------
  // Reading a frame back: the layouts are injective, so the fields can be
  // recovered from the bytes (the end of the arguments from the fixed-length
  // zero tail).

  datatype Outgoing =
    | SubcommandOut(count: byte, sc: byte, args: seq<byte>)
    | RumbleOut(count: byte, rumble: seq<byte>)

  predicate ZeroFrom(f: seq<byte>, from: nat)
  {
    forall i :: from <= i < |f| ==> f[i] == 0
  }

  /** Recognises a subcommand frame by its kind byte, neutral rumble bytes and zero tail. */
  function ParseFrame(f: seq<byte>): Option<Outgoing>
  {
    if |f| >= 57 && f[0] == SubcommandKind && f[2..10] == DefaultBuf && ZeroFrom(f, |f| - 46) then
      Some(SubcommandOut(f[1], f[10], f[11..|f| - 46]))
    else if |f| >= 49 && f[0] == RumbleKind && ZeroFrom(f, |f| - 47) then
      Some(RumbleOut(f[1], f[2..|f| - 47]))
    else
      None
  }

  /** A subcommand frame determines its counter, subcommand id and arguments. */
  lemma ParseSubcommandFrame(count: byte, sc: byte, args: seq<byte>)
    ensures ParseFrame(SubcommandFrame(count, sc, args)) == Some(SubcommandOut(count, sc, args))
  {
    var f := SubcommandFrame(count, sc, args);
    assert |f| - 46 == 11 + |args|;
  }

  /** A rumble frame determines its counter and rumble data. */
  lemma ParseRumbleFrame(count: byte, data: seq<byte>)
    ensures ParseFrame(RumbleFrame(count, data)) == Some(RumbleOut(count, data))
  {
    var f := RumbleFrame(count, data);
    assert |f| - 47 == 2 + |data|;
  }
}
