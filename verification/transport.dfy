/**
  The rumble parameters (`Rumble` in the driver) and the eight haptic bytes
  they produce. The float encoding used for a non-zero amplitude is supplied
  by the caller as four bytes; the zero-amplitude path is modelled exactly.
 */
module Rumble {
  import opened Codec
  import Frames

  /** Frequencies in Hz and amplitude as floats, plus whether a timed rumble is running. */
  datatype Rumble = Rumble(lowFreq: real, highFreq: real, amp: real, timed: bool)

  /** The parameters the driver is constructed with: 160 Hz, 320 Hz, amplitude 0. */
  const InitialRumble := Rumble(160.0, 320.0, 0.0, false)

  /** `setVals`: a non-zero duration starts a timed rumble. */
  function SetVals(low: real, high: real, amp: real, timeMs: nat): (r: Rumble)
    ensures r.lowFreq == low && r.highFreq == high && r.amp == amp
    ensures r.timed <==> timeMs != 0
  {
    Rumble(low, high, amp, timeMs != 0)
  }

  /** The timer callback: a timed rumble ends, the parameters stay. */
  function TimerCallback(r: Rumble): (r': Rumble)
    ensures !r'.timed
    ensures r'.lowFreq == r.lowFreq && r'.highFreq == r.highFreq && r'.amp == r.amp
  {
    r.(timed := false)
  }

  /** The ranges `GetData` clamps a non-zero rumble into, as decimal values. */
  const LowFreqMin: real := 40.875885
  const LowFreqMax: real := 626.286133
  const HighFreqMin: real := 81.75177
  const HighFreqMax: real := 1252.572266

  /** `clamp(x, min, max)`. */
  function Clamp(x: real, lo: real, hi: real): (y: real)
    requires lo <= hi
    ensures lo <= y <= hi
    ensures lo <= x <= hi ==> y == x
    ensures x < lo ==> y == lo
    ensures x > hi ==> y == hi
  {
    if x < lo then lo else if x > hi then hi else x
  }

  /**
    The parameters left behind by `GetData`: with a non-zero amplitude the
    frequencies and the amplitude are clamped and stored back, so a later call
    sees the clamped values. A zero amplitude leaves them untouched.
   */
  function Settle(r: Rumble): (r': Rumble)
    ensures r'.timed == r.timed
    ensures r.amp == 0.0 ==> r' == r
    ensures r.amp != 0.0 ==>
      && 0.0 <= r'.amp <= 1.0
      && LowFreqMin <= r'.lowFreq <= LowFreqMax
      && HighFreqMin <= r'.highFreq <= HighFreqMax
    ensures r.amp != 0.0 ==>
      && r'.lowFreq == Clamp(r.lowFreq, LowFreqMin, LowFreqMax)
      && r'.highFreq == Clamp(r.highFreq, HighFreqMin, HighFreqMax)
    ensures 0.0 <= r.amp <= 1.0 ==> r'.amp == r.amp
    ensures r.amp < 0.0 ==> r'.amp == 0.0
    ensures r.amp > 1.0 ==> r'.amp == 1.0
  {
    if r.amp == 0.0 then r
    else Rumble(Clamp(r.lowFreq, LowFreqMin, LowFreqMax), Clamp(r.highFreq, HighFreqMin, HighFreqMax),
                Clamp(r.amp, 0.0, 1.0), r.timed)
  }

  /** Clamped parameters are clamped already: settling twice is settling once. */
  lemma SettleIdempotent(r: Rumble)
    ensures Settle(Settle(r)) == Settle(r)
  {
    var s := Settle(r);
    if r.amp != 0.0 && s.amp != 0.0 {
      assert Clamp(s.lowFreq, LowFreqMin, LowFreqMax) == s.lowFreq;
      assert Clamp(s.highFreq, HighFreqMin, HighFreqMax) == s.highFreq;
      assert Clamp(s.amp, 0.0, 1.0) == s.amp;
    }
  }

  /** A negative amplitude is clamped to zero, so the next rumble bytes are neutral. */
  lemma NegativeAmplitudeSilenced(r: Rumble, encoded: seq<byte>)
    requires |encoded| == 4 && r.amp < 0.0
    ensures Settle(r).amp == 0.0
    ensures GetData(Settle(r), encoded) == Frames.DefaultBuf
  {
  }

  /**
    `GetData`: the first four bytes are the encoding (neutral when the
    amplitude is zero, `encoded` otherwise) and are mirrored into bytes 4..7.
   */
  function GetData(r: Rumble, encoded: seq<byte>): (d: seq<byte>)
    requires |encoded| == 4
    ensures |d| == 8
    ensures d[4..] == d[..4]
    ensures r.amp == 0.0 ==> d == Frames.DefaultBuf
    ensures r.amp != 0.0 ==> d[..4] == encoded
  {
    var head := if r.amp == 0.0 then [0x00, 0x01, 0x40, 0x40] else encoded;
    head + head
  }
}

/**
  The HID link as the driver sees it. A `Link` holds the sequence counter, the
  stream of replies the device will deliver to successive reads (a reply
  shorter than 49 bytes is a short read, an empty one is a timeout or an
  error, and an exhausted stream reads as empty), and the log of writes and
  closes issued so far.
 */
module Transport {
  import opened Codec
  import opened Frames

  datatype Event = Write(frame: seq<byte>) | Close

  datatype Link = Link(counter: byte, inbox: seq<seq<byte>>, log: seq<Event>)

  /** The reply the `k`-th read from now delivers. */
  function ReplyAt(inbox: seq<seq<byte>>, k: nat): seq<byte>
  {
    if k < |inbox| then inbox[k] else []
  }

  /** The reply stream after `k` reads. */
  function Consume(inbox: seq<seq<byte>>, k: nat): (rest: seq<seq<byte>>)
    ensures forall j :: 0 <= j ==> ReplyAt(rest, j) == ReplyAt(inbox, k + j)
  {
    if k <= |inbox| then inbox[k..] else []
  }

  lemma ConsumeTwice(inbox: seq<seq<byte>>, j: nat, k: nat)
    ensures Consume(Consume(inbox, j), k) == Consume(inbox, j + k)
  {
  }

  /**
    A zeroed buffer of `ReportLen` bytes after a read has stored a reply at its
    front; the read stores at most `ReportLen` bytes.
   */
  function ReadBuffer(reply: seq<byte>): (buf: seq<byte>)
    ensures |buf| == ReportLen
    ensures forall i :: 0 <= i < |reply| && i < ReportLen ==> buf[i] == reply[i]
    ensures forall i :: |reply| <= i < ReportLen ==> buf[i] == 0
  {
    (reply + Zeros(ReportLen))[..ReportLen]
  }

  /** The number of bytes a read reports: positive exactly when data arrived. */
  function BytesRead(reply: seq<byte>): (n: nat)
    ensures n <= ReportLen
    ensures n > 0 <==> |reply| > 0
    ensures |reply| <= ReportLen ==> n == |reply|
    ensures |reply| >= ReportLen ==> n == ReportLen
  {
    if |reply| < ReportLen then |reply| else ReportLen
  }

  datatype Exchange = Exchange(response: seq<byte>, link: Link)

  /**
    `Subcommand(sc, args)`: writes one subcommand frame stamped with the
    current counter, advances the counter and reads one response.
   */
  function Subcommand(l: Link, sc: byte, args: seq<byte>): (r: Exchange)
    ensures |r.response| == ReportLen
    ensures r.response == ReadBuffer(ReplyAt(l.inbox, 0))
    ensures r.link.counter == NextCount(l.counter)
    ensures r.link.inbox == Consume(l.inbox, 1)
    ensures r.link.log == l.log + [Write(SubcommandFrame(l.counter, sc, args))]
  {
    var frame := SubcommandFrame(l.counter, sc, args);
    Exchange(ReadBuffer(ReplyAt(l.inbox, 0)),
             Link(NextCount(l.counter), Consume(l.inbox, 1), l.log + [Write(frame)]))
  }

  /** `SendRumble(data)`: writes one rumble frame and advances the counter; nothing is read. */
  function SendRumble(l: Link, data: seq<byte>): (l': Link)
    ensures l'.counter == NextCount(l.counter)
    ensures l'.inbox == l.inbox
    ensures l'.log == l.log + [Write(RumbleFrame(l.counter, data))]
  {
    Link(NextCount(l.counter), l.inbox, l.log + [Write(RumbleFrame(l.counter, data))])
  }

  /** `hid_close`. */
  function CloseHandle(l: Link): (l': Link)
    ensures l'.counter == l.counter && l'.inbox == l.inbox
    ensures l'.log == l.log + [Close]
  {
    l.(log := l.log + [Close])
  }

  datatype RawRead = RawRead(ret: int, buf: seq<byte>, link: Link)

  /**
    `ReceiveRaw` on an open handle: one blocking read into a zeroed report
    buffer; the return value is the number of bytes read.
   */
  function ReceiveRaw(l: Link): (r: RawRead)
    ensures |r.buf| == ReportLen
    ensures r.ret > 0 <==> |ReplyAt(l.inbox, 0)| > 0
    ensures r.ret <= |ReplyAt(l.inbox, 0)| && r.ret <= ReportLen
    ensures r.ret == BytesRead(ReplyAt(l.inbox, 0))
    ensures forall i :: 0 <= i < r.ret ==> r.buf[i] == ReplyAt(l.inbox, 0)[i]
    ensures forall i :: |ReplyAt(l.inbox, 0)| <= i < ReportLen ==> r.buf[i] == 0
    ensures r.link == l.(inbox := Consume(l.inbox, 1))
  {
    var reply := ReplyAt(l.inbox, 0);
    RawRead(BytesRead(reply), ReadBuffer(reply), l.(inbox := Consume(l.inbox, 1)))
  }
}
