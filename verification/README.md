# Joy-Con driver core in Dafny

This project models the integer-level protocol and decoding logic of the `Joycon` class of a
Nintendo Joy-Con audio plugin (`Source/joycon.hpp`), and proves properties of that model. It
covers:

- the 4-bit packet counter and the layout of rumble and subcommand output frames;
- the SPI flash read with its retry loop and 20-byte header strip (`ReadSPI`);
- calibration loading (`dumpCalibrationData`). Stick calibration comes from the user region
  unless it is erased, in which case the factory region is used. The six 12-bit values are
  unpacked into a slot order that depends on handedness. The deadzone is also loaded, and the
  gyroscope neutral offsets fall back to a second region when they look implausible;
- input report decoding: the stick bytes and their centring (`ProcessButtonsAndStick`,
  `CenterSticks`), the button bit map with rising and falling edges, raw IMU sample extraction
  (`ExtractIMUValues`), and the 8-bit timestamp delta of `ProcessIMU`;
- how the session state gates `Attach`, `Detach`, `SetRumble` and one step of the poll thread.

The HID handle is a value, `Transport.Link`, with three parts:

- the packet counter;
- the stream of replies that successive reads will deliver. An empty reply is a timeout or a
  failed read, and an exhausted stream reads as empty;
- the log of frames written and handles closed.

Every operation is a pure function from a link (or a whole `Session.Session`) to a new one.
"What was sent" is therefore a statement about the log, and "what was read" is a statement
about how far the reply stream was consumed.

Modules follow the structure of the driver:

| module | file | what it holds |
|---|---|---|
| `Wrappers`, `Codec` | codec.dfy | `Option`, bytes, 12-bit pairs, little-endian signed 16-bit values |
| `States`, `Frames` | frames.dfy | the `state_` enum and its order; counter; frame building and parsing |
| `Rumble`, `Transport` | transport.dfy | rumble parameters and `GetData`; the link, `Subcommand`, `SendRumble`, `ReceiveRaw` |
| `Spi` | spi.dfy | `ReadSPI` and its retry loop |
| `Calibration` | calibration.dfy | `dumpCalibrationData` |
| `Stick`, `Buttons`, `Decoder` | report.dfy | `CenterSticks`, the button map, `ProcessButtonsAndStick` |
| `Imu` | imu.dfy | `ExtractIMUValues`, the integer part of `ProcessIMU` |
| `Session` | session.dfy | `Attach`, `Detach`, `SetRumble`, the timer, one poll step |

Some behaviour of the code as written is easy to misread, and the model follows it exactly:

- `ReadSPI` returns the whole response minus its 20-byte header. That is 29 bytes, whatever
  length `len` asks for.
- `SetRumble` is ignored at every state up to and including `ATTACHED`.
- The gyroscope neutral offsets are read first from the user region (0x80, 0x34, bytes 0..5).
  The factory region (0x60, 0x29, bytes 3..8) is read only when those are implausible.
- `Attach` does not set the simple input mode first; that subcommand is commented out.

## Model

| member | source | states |
|---|---|---|
| Codec.Lo12 | Source/joycon.hpp:504 | the low 12-bit value of a pair is at most 0xFFF, its low byte is the first byte and its high nibble is the low nibble of the second byte |
| Codec.Hi12 | Source/joycon.hpp:505 | the high 12-bit value of a pair is at most 0xFFF, its low nibble is the high nibble of the second byte and the rest is the third byte |
| Codec.Unpack12OfPack12 | Source/joycon.hpp:504-505 | unpacking the three bytes a controller stores for two 12-bit values gives back both values |
| Codec.Pack12OfUnpack12 | Source/joycon.hpp:504-505 | every three bytes are the packing of the two values unpacked from them, so no bit is lost |
| Codec.ToInt16 | Source/joycon.hpp:537 | the cast to `int16_t` yields a signed 16-bit value congruent to its operand modulo 2^16 |
| Codec.LeInt16 | Source/joycon.hpp:537-542 | a little-endian pair reads as a signed 16-bit value, negative exactly when the high byte has its top bit set |
| Codec.LeInt16OfInt16Bytes | Source/joycon.hpp:537-542 | reading the two bytes of any signed 16-bit value gives that value |
| Codec.Int16BytesOfLeInt16 | Source/joycon.hpp:537-542 | any two bytes are the encoding of the value they read as |
| Codec.LeVec3 | Source/joycon.hpp:731-733 | three little-endian axes read from `base` are signed 16-bit values whose encoding is exactly those six bytes |
| Codec.LeVec3OfVec3Bytes | Source/joycon.hpp:731-733 | six bytes that encode a vector read back as that vector |
| States.Rank | Source/joycon.hpp:161-169 | the six states have positions 0..5, with NOT_ATTACHED first and IMU_DATA_OK last |
| States.RankInjective | Source/joycon.hpp:161-169 | distinct states have distinct positions, so any two distinct states are ordered |
| States.RankOrder | Source/joycon.hpp:161-169 | NOT_ATTACHED < DROPPED < NO_JOYCONS < ATTACHED < INPUT_MODE_0x30 < IMU_DATA_OK, the order every gate compares by |
| Frames.NextCount | Source/joycon.hpp:638-639 | a counter below 16 steps to its successor modulo 16, so 0xF goes to 0 |
| Frames.AdvanceMod16 | Source/joycon.hpp:636-639 | after `k` sends, a counter that started below 16 is its start plus `k` modulo 16 |
| Frames.CounterPeriod | Source/joycon.hpp:660-664 | the counter stays in 0..15 and repeats with period 16 |
| Frames.CounterReturns | Source/joycon.hpp:663-664 | sixteen consecutive sends bring the counter back to its starting value |
| Frames.Insert | Source/joycon.hpp:641 | `vector::insert` grows the buffer: the prefix, the inserted bytes and the shifted suffix, in that order |
| Frames.SubcommandFrame | Source/joycon.hpp:653-661 | a subcommand frame is 57 bytes plus the arguments: kind 0x01, the counter, the neutral rumble bytes, the subcommand id, the arguments, then zeros |
| Frames.RumbleFrame | Source/joycon.hpp:633-641 | a rumble frame is 49 bytes plus the rumble data: kind 0x10, the counter, the data, then zeros |
| Frames.ParseSubcommandFrame | Source/joycon.hpp:653-661 | the subcommand layout is injective: the counter, subcommand id and arguments are recovered from every subcommand frame |
| Frames.ParseRumbleFrame | Source/joycon.hpp:633-641 | the rumble layout is injective: the counter and rumble data are recovered from every rumble frame |
| Rumble.SetVals | Source/joycon.hpp:260-272 | the frequencies and amplitude are stored, and a timed rumble starts exactly when the duration is non-zero |
| Rumble.TimerCallback | Source/joycon.hpp:355-358 | the timer ends a timed rumble and keeps the parameters |
| Rumble.Clamp | Source/joycon.hpp:348-353 | the result lies in the range, is the input when the input does, and is the nearer bound otherwise |
| Rumble.Settle | Source/joycon.hpp:287-289 | with a non-zero amplitude, each stored frequency and the amplitude is the `clamp` of the old value into its range, so an in-range value is kept (a negative amplitude becomes 0, one above 1 becomes 1); a zero amplitude leaves everything as it was |
| Rumble.SettleIdempotent | Source/joycon.hpp:287-289 | clamping what was already clamped changes nothing |
| Rumble.NegativeAmplitudeSilenced | Source/joycon.hpp:278-289 | a negative amplitude is stored as 0, so the next rumble bytes are the neutral `default_buf` |
| Rumble.GetData | Source/joycon.hpp:278-328 | the eight rumble bytes mirror bytes 0..3 into 4..7; at amplitude 0 they are exactly the neutral `default_buf` |
| Transport.ReadBuffer | Source/joycon.hpp:654-676 | the 49-byte response buffer holds the reply at its front and zeros after it |
| Transport.BytesRead | Source/joycon.hpp:422 | a read reports the length of the reply, capped at 49 bytes, so the count is positive exactly when data arrived |
| Transport.Subcommand | Source/joycon.hpp:651-692 | one subcommand frame stamped with the current counter is written, the counter advances, and the response is the next reply in a zeroed 49-byte buffer |
| Transport.SendRumble | Source/joycon.hpp:631-649 | one rumble frame stamped with the current counter is written, the counter advances, and nothing is read |
| Transport.CloseHandle | Source/joycon.hpp:93 | closing the handle logs a close and changes nothing else |
| Transport.ReceiveRaw | Source/joycon.hpp:414-444 | one read into a zeroed 49-byte buffer: the return value is the number of bytes read, the buffer starts with those bytes and is zero after the reply, and one reply is consumed |
| Spi.SpiRequest | Source/joycon.hpp:761 | the request payload is the address low byte first, two zeros, then the length truncated to a byte |
| Spi.FirstEchoUnique | Source/joycon.hpp:764-771 | the number of attempts the loop makes is determined by the reply stream |
| Spi.FirstEchoShift | Source/joycon.hpp:764-771 | a non-echoing response in front of the stream costs exactly one more attempt |
| Spi.RequestEventAt | Source/joycon.hpp:764-766 | the `j`-th read request of a run carries the counter advanced `j` times |
| Spi.Retry | Source/joycon.hpp:764-771 | the loop stops at the first response that echoes the address, or when the budget is spent; it sends one request per attempt with consecutive counters and consumes one reply per attempt |
| Spi.RetryAfterMiss | Source/joycon.hpp:764-771 | a missed attempt followed by the rest of the loop is the whole loop, for attempts, replies consumed and requests logged |
| Spi.ReadSpi | Source/joycon.hpp:759-781 | at most 100 attempts stopping at the first echo; the payload is the last response without its 20-byte header, so it is 29 bytes whatever `len` is |
| Spi.SpiReply | Source/joycon.hpp:767 | a well-formed answer echoes the address at bytes 15..16 and carries the data from byte 20 |
| Spi.ReadSpiOfReply | Source/joycon.hpp:764-773 | when the first reply is a well-formed answer, one attempt is made and the payload starts with the flash data |
| Spi.ReadSpiExhausted | Source/joycon.hpp:764-773 | when no response echoes, all 100 requests are sent and the 100th response is used |
| Calibration.StickSlot | Source/joycon.hpp:717-722 | the slot of each unpacked value is one of the six `stick_cal` slots |
| Calibration.StickSlotPermutation | Source/joycon.hpp:717-722 | each side writes every slot exactly once: left in order 0..5, right in order 2,3,4,5,0,1 |
| Calibration.UnpackStick | Source/joycon.hpp:717-722 | each of the six values is the 12-bit unpacking of its three-byte group, at most 0xFFF, stored in its handedness slot |
| Calibration.UnpackStickOfPackStick | Source/joycon.hpp:717-722 | unpacking the nine bytes a controller stores for six values gives back the values, on either side |
| Calibration.Deadzone | Source/joycon.hpp:727-728 | the deadzone is the 12-bit value at bytes 3..4 of the stick-parameter block, at most 0xFFF |
| Calibration.ErasedNeutralImplausible | Source/joycon.hpp:742-745 | an erased region reads as -1 on every axis and is rejected by the sum test |
| Calibration.LoadStick | Source/joycon.hpp:697-715 | the user region is used exactly when one of its nine bytes is not 0xFF; otherwise the factory region is read and used |
| Calibration.LoadStickFromUser | Source/joycon.hpp:697-707 | written user calibration is used as is, after one read |
| Calibration.LoadStickFromFactory | Source/joycon.hpp:709-715 | an erased user region leads to the factory calibration, after two reads |
| Calibration.LoadGyroNeutral | Source/joycon.hpp:730-750 | the offsets come from the user region unless they sum to -3 or an axis exceeds 100 in magnitude; then bytes 3..8 of the factory region are used |
| Calibration.GyroFromReply | Source/joycon.hpp:730-733 | a vector encoded in an SPI answer is read back from the payload |
| Calibration.GyroFallbackOnMinusThree | Source/joycon.hpp:742-750 | user offsets summing to exactly -3 are replaced by the factory ones |
| Calibration.GyroKeptWhenPlausible | Source/joycon.hpp:730-745 | plausible user offsets are kept and nothing more is read |
| Calibration.DumpCalibrationData | Source/joycon.hpp:694-757 | stick calibration, then the deadzone from the factory stick parameters, then the gyroscope offsets on the link those reads leave; the result holds the three loaded values and the final link, every value is in range, and offsets kept from the user region are plausible |
| Calibration.DeadzoneOfReply | Source/joycon.hpp:727-728 | a stick-parameter block answered by the controller gives its deadzone after one read |
| Calibration.DumpCalibrationOfReplies | Source/joycon.hpp:694-757 | with written user stick calibration, a stick-parameter block and plausible user gyroscope offsets, all three are loaded as stored, in three reads |
| Stick.StickOffset | Source/joycon.hpp:500-502 | the stick bytes of a report lie inside it, at 6..8 for the left controller and 9..11 for the right |
| Stick.StickPrecal | Source/joycon.hpp:500-505 | the two raw stick values are at most 4095 and pack back to exactly the three stick bytes |
| Stick.CenterAxis | Source/joycon.hpp:613-626 | an axis is centred exactly when its distance from the centre is below the deadzone; otherwise it is the offset over the range above or below the centre |
| Stick.UnpackStickRegion | Source/joycon.hpp:717-722 | a region stored as above/centre/below on the left, or centre/below/above on the right, unpacks to the ranges above in slots 0-1, the centre in slots 2-3 and the ranges below in slots 4-5 |
| Stick.CenterSticks | Source/joycon.hpp:607-629 | each axis `i` is centred on slot `2 + i`, divided by slot `i` above the centre and by slot `4 + i` below it; `Stick.CenterSticksOfRegion` proves those slots hold the stored centre, range above and range below |
| Stick.CenterSticksOfRegion | Source/joycon.hpp:607-629 | after the controller's region is unpacked, `CenterSticks` centres each axis on the stored centre and divides by the stored range above or below; the centre reads as centred and each end of travel reads as its range over itself |
| Stick.CenterAxisInRange | Source/joycon.hpp:619-626 | a value within the calibrated range maps into -1..1, with the sign of its offset from the centre |
| Stick.CenterAxisExample | Source/joycon.hpp:607-629 | values inside the deadzone read 0, and one outside it is scaled by its range |
| Buttons.Index | Source/joycon.hpp:171-186 | each button has its enum position below 13 |
| Buttons.ButtonAt | Source/joycon.hpp:171-186 | every position below 13 names the button with that position |
| Buttons.ButtonAtIndex | Source/joycon.hpp:171-186 | positions and buttons are in one-to-one correspondence |
| Buttons.BitOf | Source/joycon.hpp:513-524 | every button but CAPTURE has a single-bit mask in byte 3, 4 or 5; CAPTURE has none |
| Buttons.BitOfInjective | Source/joycon.hpp:513-524 | on each side, no two buttons share a bit |
| Buttons.Press | Source/joycon.hpp:508-530 | each mapped button takes its bit from the report, CAPTURE keeps its level, and down/up are exactly the rising/falling edges against the previous levels |
| Buttons.EdgesExclusive | Source/joycon.hpp:526-530 | no button is both pressed and released in one report, and CAPTURE never has an edge |
| Buttons.ButtonReport | Source/joycon.hpp:513-524 | a report built from button levels holds them in the side byte and the shared byte |
| Buttons.LevelOfButtonReport | Source/joycon.hpp:513-524 | decoding a report built from levels gives each mapped button its level back |
| Buttons.SharedLevels | Source/joycon.hpp:517-520 | the buttons of byte 4 decode to their levels |
| Buttons.LeftSideLevels | Source/joycon.hpp:513-524 | on the left controller, the buttons of byte 5 decode to their levels |
| Buttons.RightSideLevels | Source/joycon.hpp:513-524 | on the right controller, the buttons of byte 3 decode to their levels |
| Buttons.PressLevelOfButtonReport | Source/joycon.hpp:508-524 | after decoding a built report, a mapped button holds the level it was built with |
| Buttons.PressOfButtonReport | Source/joycon.hpp:508-530 | decoding a built report restores every mapped level and keeps CAPTURE's |
| Buttons.EdgeSequence | Source/joycon.hpp:526-530 | a release, press, hold, release sequence of reports gives no edge, a press edge, no edge, then a release edge |
| Decoder.ProcessButtonsAndStick | Source/joycon.hpp:496-533 | report id 0 returns -1 and changes nothing; any other report returns 0 and updates the stick and buttons from it |
| Decoder.ZeroReportsChangeNothing | Source/joycon.hpp:498 | a report with id 0 leaves stick and button state untouched |
| Imu.ExtractImuValues | Source/joycon.hpp:535-542 | sub-frame `n` holds the accelerometer at bytes 13+12n..18+12n and the gyroscope at 19+12n..24+12n, each a signed 16-bit little-endian vector |
| Imu.ExtractOfSampleBytes | Source/joycon.hpp:535-542 | a sub-frame that encodes a sample decodes to that sample |
| Imu.TimestampDelta | Source/joycon.hpp:565-569 | the delta carries the previous timestamp to the new one modulo 256, and is in 0..255 when the previous value is a timestamp |
| Imu.TimestampDeltaUnique | Source/joycon.hpp:565-569 | the delta is the only tick count in 0..255 that does so |
| Imu.TimestampDeltaMod | Source/joycon.hpp:565-569 | the delta is the timestamp difference reduced modulo 256 |
| Imu.ProcessImu | Source/joycon.hpp:557-605 | it processes only with IMU enabled, state IMU_DATA_OK and report id 0x30; then three sub-frames, the first covering the ticks since the last report and the rest one tick each, and byte 1 becomes the timestamp |
| Imu.ImuFrames | Source/joycon.hpp:571-600 | the three sub-frames are decoded in order; the first covers `dt` ticks and the others one each |
| Imu.ProcessImuOfReport | Source/joycon.hpp:557-605 | a 0x30 report built from three samples decodes to those samples, with the delta since the previous timestamp |
| Imu.ProcessImuOfSamples | Source/joycon.hpp:557-605 | a 0x30 report whose sub-frames decode to samples is processed into them, with the delta modulo 256 |
| Imu.ConsecutiveReports | Source/joycon.hpp:565-602 | across two accepted reports, the second delta is the difference of their timestamps modulo 256 |
| Session.SendSubcommandsFrameAt | Source/joycon.hpp:651-664 | sending a run of subcommands appends one frame per command to the log, and the `j`-th carries the `j`-th command stamped with the counter advanced `j` times |
| Session.SendSubcommands | Source/joycon.hpp:651-692 | a run of subcommands advances the counter once per command, consumes one reply each, and logs their frames in order |
| Session.CommandEventsNoClose | Source/joycon.hpp:52-61 | a run of subcommands closes nothing |
| Session.CommandEventsParse | Source/joycon.hpp:653-661 | each frame of a run determines its command and counter |
| Session.AttachCommands | Source/joycon.hpp:52-61 | the attach run has four subcommands, and the IMU one carries 1 exactly when the IMU is enabled |
| Session.Attach | Source/joycon.hpp:37-70 | the state becomes ATTACHED, calibration is loaded and valid, the LED, IMU, report-mode and vibration subcommands follow with the counter advanced four times and four replies consumed, and `true` is returned |
| Session.TeardownIf | Source/joycon.hpp:83-89 | the four teardown subcommands are sent, or nothing is |
| Session.Detach | Source/joycon.hpp:77-97 | polling stops and the state becomes NOT_ATTACHED; teardown is sent only above NO_JOYCONS, advancing the counter four times and consuming four replies, and the handle is closed only above DROPPED |
| Session.DetachCloses | Source/joycon.hpp:91-94 | a close is logged exactly when the state was above DROPPED, and it is the last event |
| Session.DetachIdempotent | Source/joycon.hpp:77-97 | a second detach sends nothing and closes nothing |
| Session.DetachTeardownParses | Source/joycon.hpp:83-89 | the teardown frames are LEDs off, IMU off, vibration off and simple input mode, in that order |
| Session.SetRumble | Source/joycon.hpp:24-35 | the rumble changes only above ATTACHED with no timed rumble running, and then takes the new values |
| Session.TimerFired | Source/joycon.hpp:355-358 | the timer clears only the timed flag; the frequencies, the amplitude and the rest of the session are unchanged |
| Session.SetRumbleIgnoredAfterAttach | Source/joycon.hpp:24-39 | right after attach (state ATTACHED), a rumble request is ignored |
| Session.Pushed | Source/joycon.hpp:424-429 | a read that returned data queues its buffer; an empty read queues nothing |
| Session.PollStep | Source/joycon.hpp:451-485 | idle when stopped or at NO_JOYCONS or below; otherwise one rumble frame, two reads with their data queued, the rumble parameters left clamped by `GetData`, and IMU_DATA_OK exactly when the second read returned data or the state already was |
| Session.NegativeAmplitudeGoesNeutral | Source/joycon.hpp:278-289 | after a negative amplitude, the first poll step stores amplitude 0 and the next one sends the neutral rumble bytes |
| Session.PollAfterDetach | Source/joycon.hpp:454-458 | after a detach the poll step does nothing |
| Session.RumbleAfterPoll | Source/joycon.hpp:461-469 | once a poll step reaches IMU_DATA_OK, rumble requests take effect |
| Session.PollStepParses | Source/joycon.hpp:461 | the poll step's frame determines the rumble data and the counter before the send |

## Left out

- HID I/O (`hid_write`, `hid_read`, `hid_read_timeout`, `hid_close`, `hid_set_nonblocking`) is abstracted by `Transport.Link`. A write cannot fail in the model, and the logged failure message has no effect on state.
- The 50 ms read timeout and `sleep(5)` are left out; a timeout is an empty reply.
- `Update`, the report queue's consumer side, the thread and the locks are left out. As written, the lock objects are local, so they exclude nothing.
- Transport.ReceiveRaw: the `-2` return for a null handle is not modelled; the handle is always open while polling.
- Transport.ReceiveRaw: it reads in blocking mode; its error return -1 appears as an empty reply.
- Session.PollStep: the `attempts > 1000` branch to DROPPED is not modelled. `attempts` is local to one step, so that branch is unreachable.
- Rumble.GetData: the non-zero-amplitude encoding (`log2f`, `roundf`, `powf`) is floating point. It is passed in as the parameter `encoded`. The clamping that `GetData` stores back is modelled, by `Rumble.Settle`.
- Rumble.Settle: the clamp bounds are the decimal values of the float literals, in exact real arithmetic rather than `float`.
- The rumble timer itself (`startTimer`) is left out; only its callback is modelled.
- Stick.CenterAxis: the float division is modelled as an exact quotient. A zero calibration range, which gives an infinite or NaN float in the source, is not given a value.
- The float scaling of IMU samples, the peak tracking, `sum`, and the complementary-filter orientation estimate are left out. As written, that estimate assigns `.y` twice and never sets `.z`.
- Session.Attach: the reset of `pitchRollYaw` is not modelled, since orientation is left out.
- The `isLeft` sign flips that apply only to the float outputs are left out.
- The `Begin` thread start, debug printing and `SetFilterCoeff` are left out.
- The plugin processor and editor (audio host glue, device enumeration, MIDI mapping, UI) are not part of this model.
- The source never assigns CAPTURE (enum index 9) in the button map, so it never changes level and never produces an edge. The model keeps this behaviour.
- The fields `timestamp` and `state` start out uninitialised in the source. The model takes them as parameters: `Imu.ProcessImu` accepts any integer as the previous timestamp.
