/**
  The driver's session layer: `Attach`, `Detach`, `SetRumble` and one step
  of the poll thread. Each is a transition on a `Session` record that holds
  the connection state, the polling flag, the rumble parameters, the loaded
  calibration, the HID link and the queue of received reports.
 */
module Session {
  import opened Codec
  import opened Wrappers
  import opened States
  import opened Frames
  import opened Transport
  import opened Rumble
  import opened Calibration

  /** A subcommand id and its argument bytes. */
  datatype Command = Command(sc: byte, args: seq<byte>)

  datatype Session = Session(
    state: DeviceState,
    stopPolling: bool,
    isLeft: bool,
    imuEnabled: bool,
    rumble: Rumble,
    cal: Calibration,
    link: Link,
    queue: seq<seq<byte>>)

  // ---------------------------------------------------------------------------
  // Runs of subcommands whose responses are ignored.

  /** The frames a run of commands writes, stamped with consecutive counter values from `c`. */
  function CommandEvents(c: byte, cmds: seq<Command>): (evs: seq<Event>)
    ensures |evs| == |cmds|
  {
    seq(|cmds|, j requires 0 <= j < |cmds| => Write(SubcommandFrame(Advance(c, j), cmds[j].sc, cmds[j].args)))
  }

  /** The `j`-th frame of a run carries the `j`-th command and the counter advanced `j` times. */
  lemma CommandEventAt(c: byte, cmds: seq<Command>, j: nat)
    requires j < |cmds|
    ensures CommandEvents(c, cmds)[j] == Write(SubcommandFrame(Advance(c, j), cmds[j].sc, cmds[j].args))
  {
  }

  lemma CommandEventsCons(c: byte, cmds: seq<Command>)
    requires |cmds| > 0
    ensures CommandEvents(c, cmds)
            == [Write(SubcommandFrame(c, cmds[0].sc, cmds[0].args))] + CommandEvents(NextCount(c), cmds[1..])
  {
    var lhs := CommandEvents(c, cmds);
    var rhs := [Write(SubcommandFrame(c, cmds[0].sc, cmds[0].args))] + CommandEvents(NextCount(c), cmds[1..]);
    forall j | 0 <= j < |cmds|
      ensures lhs[j] == rhs[j]
    {
      CommandEventAt(c, cmds, j);
      if j > 0 {
        assert cmds[1..][j - 1] == cmds[j];
        CommandEventAt(NextCount(c), cmds[1..], j - 1);
      }
    }
  }

  /** Sends the commands in order, one `Subcommand` call each, discarding the responses. */
  function SendSubcommands(l: Link, cmds: seq<Command>): (l': Link)
    ensures l'.counter == Advance(l.counter, |cmds|)
    ensures l'.inbox == Consume(l.inbox, |cmds|)
    ensures l'.log == l.log + CommandEvents(l.counter, cmds)
    decreases |cmds|
  {
    if |cmds| == 0 then
      assert l.inbox == Consume(l.inbox, 0);
      assert CommandEvents(l.counter, cmds) == [];
      l
    else
      var first := Subcommand(l, cmds[0].sc, cmds[0].args).link;
      var rest := SendSubcommands(first, cmds[1..]);
      assert Advance(l.counter, |cmds|) == Advance(first.counter, |cmds| - 1);
      ConsumeTwice(l.inbox, 1, |cmds| - 1);
      CommandLogCons(l.log, l.counter, cmds);
      rest
  }

  /**
    What `SendSubcommands` writes: one frame per command, and the `j`-th frame
    after the old log carries the `j`-th command stamped with the counter
    advanced `j` times.
   */
  lemma SendSubcommandsFrameAt(l: Link, cmds: seq<Command>, j: nat)
    requires j < |cmds|
    ensures |SendSubcommands(l, cmds).log| == |l.log| + |cmds|
    ensures SendSubcommands(l, cmds).log[..|l.log|] == l.log
    ensures SendSubcommands(l, cmds).log[|l.log| + j]
            == Write(SubcommandFrame(Advance(l.counter, j), cmds[j].sc, cmds[j].args))
  {
    CommandEventAt(l.counter, cmds, j);
  }

  /** A log that gained the first command's frame and then the rest's gained the whole run. */
  lemma CommandLogCons(log: seq<Event>, c: byte, cmds: seq<Command>)
    requires |cmds| > 0
    ensures log + [Write(SubcommandFrame(c, cmds[0].sc, cmds[0].args))] + CommandEvents(NextCount(c), cmds[1..])
            == log + CommandEvents(c, cmds)
  {
    CommandEventsCons(c, cmds);
    var w := Write(SubcommandFrame(c, cmds[0].sc, cmds[0].args));
    assert (log + [w]) + CommandEvents(NextCount(c), cmds[1..]) == log + ([w] + CommandEvents(NextCount(c), cmds[1..]));
  }

  /** A run of subcommands closes nothing. */
  lemma CommandEventsNoClose(c: byte, cmds: seq<Command>)
    ensures Close !in CommandEvents(c, cmds)
  {
  }

  /** What the controller reads from a run of frames: the commands, in order, with their counters. */
  lemma CommandEventsParse(c: byte, cmds: seq<Command>, j: nat)
    requires j < |cmds|
    ensures CommandEvents(c, cmds)[j].Write?
    ensures ParseFrame(CommandEvents(c, cmds)[j].frame) == Some(SubcommandOut(Advance(c, j), cmds[j].sc, cmds[j].args))
  {
    CommandEventAt(c, cmds, j);
    ParseSubcommandFrame(Advance(c, j), cmds[j].sc, cmds[j].args);
  }

  /** Player LEDs, IMU on or off, input report mode 0x30 (full, 60 Hz), vibration on. */
  function AttachCommands(leds: byte, imuEnabled: bool): (cmds: seq<Command>)
    ensures |cmds| == 4
    ensures cmds[1].args == [if imuEnabled then 1 else 0]
  {
    [Command(0x30, [leds]), Command(0x40, [if imuEnabled then 1 else 0]),
     Command(0x03, [0x30]), Command(0x48, [0x01])]
  }

  /** LEDs off, IMU off, vibration off, input report mode 0x3F (simple HID). */
  const TeardownCommands: seq<Command> :=
    [Command(0x30, [0x00]), Command(0x40, [0x00]), Command(0x48, [0x00]), Command(0x03, [0x3F])]

  // ---------------------------------------------------------------------------
  // Attach and Detach.

  datatype AttachResult = AttachResult(ok: bool, session: Session)

  /**
    `Attach(leds)`: the state becomes `ATTACHED`, the calibration is loaded,
    and the four set-up subcommands follow; it always reports success.
   */
  function Attach(s: Session, leds: byte): (r: AttachResult)
    ensures r.ok
    ensures r.session.state == Attached
    ensures ValidCalibration(r.session.cal)
    ensures r.session.stopPolling == s.stopPolling && r.session.isLeft == s.isLeft
    ensures r.session.imuEnabled == s.imuEnabled && r.session.rumble == s.rumble && r.session.queue == s.queue
    ensures var loaded := DumpCalibrationData(s.link, s.isLeft);
      && r.session.cal == loaded.cal
      && r.session.link.log == loaded.link.log + CommandEvents(loaded.link.counter, AttachCommands(leds, s.imuEnabled))
      && r.session.link.counter == Advance(loaded.link.counter, 4)
      && r.session.link.inbox == Consume(loaded.link.inbox, 4)
  {
    var loaded := DumpCalibrationData(s.link, s.isLeft);
    var cmds := AttachCommands(leds, s.imuEnabled);
    var l := SendSubcommands(loaded.link, cmds);
    assert |cmds| == 4;
    AttachResult(true, Session(Attached, s.stopPolling, s.isLeft, s.imuEnabled, s.rumble, loaded.cal, l, s.queue))
  }

  /** The teardown subcommands when `teardown` holds; the link is otherwise left alone. */
  function TeardownIf(l: Link, teardown: bool): (l': Link)
    ensures l'.counter == Advance(l.counter, if teardown then 4 else 0)
    ensures l'.inbox == Consume(l.inbox, if teardown then 4 else 0)
    ensures l'.log == l.log + (if teardown then CommandEvents(l.counter, TeardownCommands) else [])
  {
    if teardown then
      SendSubcommands(l, TeardownCommands)
    else
      assert l.inbox == Consume(l.inbox, 0);
      l
  }

  /** The events `Detach` appends when it starts in `state`. */
  function DetachEvents(state: DeviceState, c: byte): seq<Event>
  {
    (if Above(state, NoJoycons) then CommandEvents(c, TeardownCommands) else [])
    + (if Above(state, Dropped) then [Close] else [])
  }

  /** The link after `Detach`'s teardown and close, each done only above its threshold state. */
  function DetachLink(l: Link, state: DeviceState): (l': Link)
    ensures l'.counter == Advance(l.counter, if Above(state, NoJoycons) then 4 else 0)
    ensures l'.inbox == Consume(l.inbox, if Above(state, NoJoycons) then 4 else 0)
    ensures l'.log == l.log + DetachEvents(state, l.counter)
  {
    var teardown := if Above(state, NoJoycons) then CommandEvents(l.counter, TeardownCommands) else [];
    var l1 := TeardownIf(l, Above(state, NoJoycons));
    assert DetachEvents(state, l.counter) == teardown + (if Above(state, Dropped) then [Close] else []);
    if Above(state, Dropped) then
      assert (l.log + teardown) + [Close] == l.log + (teardown + [Close]);
      CloseHandle(l1)
    else
      assert teardown + [] == teardown;
      l1
  }

  /**
    `Detach`: polling stops; the teardown subcommands go out only when the
    state is above `NO_JOYCONS`, the handle is closed only when it is above
    `DROPPED`, and the state becomes `NOT_ATTACHED`.
   */
  function Detach(s: Session): (r: Session)
    ensures r.state == NotAttached && r.stopPolling
    ensures r.isLeft == s.isLeft && r.imuEnabled == s.imuEnabled && r.rumble == s.rumble
    ensures r.cal == s.cal && r.queue == s.queue
    ensures r.link.counter == Advance(s.link.counter, if Above(s.state, NoJoycons) then 4 else 0)
    ensures r.link.inbox == Consume(s.link.inbox, if Above(s.state, NoJoycons) then 4 else 0)
    ensures r.link.log == s.link.log + DetachEvents(s.state, s.link.counter)
  {
    Session(NotAttached, true, s.isLeft, s.imuEnabled, s.rumble, s.cal, DetachLink(s.link, s.state), s.queue)
  }

  /** `Detach` closes the handle exactly when the state is above `DROPPED`, and last. */
  lemma DetachCloses(s: Session)
    ensures Close in Detach(s).link.log[|s.link.log|..] <==> Above(s.state, Dropped)
    ensures Above(s.state, Dropped) ==> Detach(s).link.log[|Detach(s).link.log| - 1] == Close
  {
    var added := Detach(s).link.log[|s.link.log|..];
    assert added == DetachEvents(s.state, s.link.counter);
    CommandEventsNoClose(s.link.counter, TeardownCommands);
  }

  /** Detaching twice writes nothing more and closes nothing more. */
  lemma DetachIdempotent(s: Session)
    ensures Detach(Detach(s)) == Detach(s)
  {
  }

  /** The teardown reaches the controller as the four commands, in order, with consecutive counters. */
  lemma DetachTeardownParses(s: Session, j: nat)
    requires Above(s.state, NoJoycons) && j < 4
    ensures Detach(s).link.log[|s.link.log| + j].Write?
    ensures ParseFrame(Detach(s).link.log[|s.link.log| + j].frame)
            == Some(SubcommandOut(Advance(s.link.counter, j), TeardownCommands[j].sc, TeardownCommands[j].args))
  {
    assert Detach(s).link.log[|s.link.log| + j] == CommandEvents(s.link.counter, TeardownCommands)[j];
    CommandEventsParse(s.link.counter, TeardownCommands, j);
  }

  // ---------------------------------------------------------------------------
  // Rumble.

  /**
    `SetRumble`: ignored unless the state is above `ATTACHED`, and ignored
    while a timed rumble is running; otherwise the parameters are replaced.
   */
  function SetRumble(s: Session, low: real, high: real, amp: real, timeMs: nat): (r: Session)
    ensures r.rumble != s.rumble ==> Above(s.state, Attached) && !s.rumble.timed
    ensures Above(s.state, Attached) && !s.rumble.timed ==>
      && r.rumble.lowFreq == low && r.rumble.highFreq == high && r.rumble.amp == amp
      && (r.rumble.timed <==> timeMs != 0)
    ensures r == s.(rumble := r.rumble)
  {
    if !Above(s.state, Attached) then
      s
    else if !s.rumble.timed then
      s.(rumble := SetVals(low, high, amp, timeMs))
    else
      s
  }

  /** The rumble timer has fired: a timed rumble ends. */
  function TimerFired(s: Session): (r: Session)
    ensures r.rumble == s.rumble.(timed := false)
    ensures r == s.(rumble := r.rumble)
  {
    s.(rumble := TimerCallback(s.rumble))
  }

  /** Right after `Attach` the state is `ATTACHED`, so a rumble request is ignored. */
  lemma SetRumbleIgnoredAfterAttach(s: Session, leds: byte, low: real, high: real, amp: real, timeMs: nat)
    ensures var a := Attach(s, leds).session; SetRumble(a, low, high, amp, timeMs) == a
  {
  }

  // ---------------------------------------------------------------------------
  // The poll thread.

  /** Whether a poll step does anything in this session. */
  predicate Polling(s: Session)
  {
    !s.stopPolling && Above(s.state, NoJoycons)
  }

  /** What a read pushes on the report queue: its buffer, when it returned data. */
  function Pushed(rd: RawRead): (q: seq<seq<byte>>)
    ensures |q| == (if rd.ret > 0 then 1 else 0)
    ensures rd.ret > 0 ==> q[0] == rd.buf
  {
    if rd.ret > 0 then [rd.buf] else []
  }

  /**
    One iteration of `PollThreadObj::run`. When polling, it sends the rumble
    bytes and reads twice; only the second read decides whether the state
    becomes `IMU_DATA_OK`. `encoded` is the float encoding `GetData` would
    compute for a non-zero amplitude.
   */
  function PollStep(s: Session, encoded: seq<byte>): (r: Session)
    requires |encoded| == 4
    ensures !Polling(s) ==> r == s
    ensures Polling(s) ==>
      && r.link.counter == NextCount(s.link.counter)
      && r.link.inbox == Consume(s.link.inbox, 2)
      && r.link.log == s.link.log + [Write(RumbleFrame(s.link.counter, GetData(s.rumble, encoded)))]
      && (r.state == ImuDataOk <==> s.state == ImuDataOk || |ReplyAt(s.link.inbox, 1)| > 0)
      && (r.state != ImuDataOk ==> r.state == s.state)
      && |r.queue| == |s.queue| + (if |ReplyAt(s.link.inbox, 0)| > 0 then 1 else 0)
                                + (if |ReplyAt(s.link.inbox, 1)| > 0 then 1 else 0)
      && r.queue[..|s.queue|] == s.queue
      && (|ReplyAt(s.link.inbox, 0)| > 0 ==> r.queue[|s.queue|] == ReadBuffer(ReplyAt(s.link.inbox, 0)))
      && (|ReplyAt(s.link.inbox, 1)| > 0 ==> r.queue[|r.queue| - 1] == ReadBuffer(ReplyAt(s.link.inbox, 1)))
    ensures Polling(s) ==> r.rumble == Settle(s.rumble)
    ensures Rank(r.state) >= Rank(s.state)
    ensures r == s.(state := r.state, link := r.link, queue := r.queue, rumble := r.rumble)
  {
    if !Polling(s) then
      s
    else
      var l := SendRumble(s.link, GetData(s.rumble, encoded));
      var first := ReceiveRaw(l);
      var second := ReceiveRaw(first.link);
      ConsumeTwice(s.link.inbox, 1, 1);
      assert ReplyAt(first.link.inbox, 0) == ReplyAt(s.link.inbox, 1);
      var state := if second.ret > 0 then ImuDataOk else s.state;
      s.(state := state, link := second.link, queue := s.queue + Pushed(first) + Pushed(second),
         rumble := Settle(s.rumble))
  }

  /** After `Detach` the poll thread does nothing. */
  lemma PollAfterDetach(s: Session, encoded: seq<byte>)
    requires |encoded| == 4
    ensures PollStep(Detach(s), encoded) == Detach(s)
  {
  }

  /**
    A negative amplitude is stored clamped: the first poll step sends the
    caller's encoding and leaves amplitude 0 behind, so the next step sends
    the neutral rumble bytes.
   */
  lemma NegativeAmplitudeGoesNeutral(s: Session, e1: seq<byte>, e2: seq<byte>)
    requires |e1| == 4 && |e2| == 4 && Polling(s) && s.rumble.amp < 0.0
    ensures var p1 := PollStep(s, e1);
      && p1.rumble.amp == 0.0
      && Polling(p1)
      && PollStep(p1, e2).link.log == p1.link.log + [Write(RumbleFrame(p1.link.counter, DefaultBuf))]
  {
    NegativeAmplitudeSilenced(s.rumble, e1);
  }

  /** A poll step that hears from the controller unlocks rumble, as long as no timed rumble runs. */
  lemma RumbleAfterPoll(s: Session, encoded: seq<byte>, low: real, high: real, amp: real, timeMs: nat)
    requires |encoded| == 4 && Polling(s) && !s.rumble.timed
    requires |ReplyAt(s.link.inbox, 1)| > 0
    ensures var p := PollStep(s, encoded);
      && p.state == ImuDataOk
      && SetRumble(p, low, high, amp, timeMs).rumble == SetVals(low, high, amp, timeMs)
  {
  }

  /** The frame a poll step writes reaches the controller as a rumble frame carrying the mirrored rumble bytes. */
  lemma PollStepParses(s: Session, encoded: seq<byte>)
    requires |encoded| == 4 && Polling(s)
    ensures var log := PollStep(s, encoded).link.log;
      && log[|log| - 1].Write?
      && ParseFrame(log[|log| - 1].frame) == Some(RumbleOut(s.link.counter, GetData(s.rumble, encoded)))
  {
    ParseRumbleFrame(s.link.counter, GetData(s.rumble, encoded));
  }
}
