/**
  The integer part of IMU processing: the raw accelerometer and gyroscope
  samples carried by a 0x30 input report (three sub-frames of 12 bytes), and
  the 8-bit timestamp delta that goes with them. The float scaling,
  integration and orientation estimate built on these values are not modelled.
 */
module Imu {
  import opened Codec
  import opened States

  /** Report id of a standard full input report, the only one that carries IMU data. */
  const ImuReportId: byte := 0x30

  /** Sub-frames per report, and their size and position. */
  const SubFrames: nat := 3
  const SubFrameLen: nat := 12
  const AccBase: nat := 13
  const GyroBase: nat := 19

  /** One raw sub-frame: accelerometer and gyroscope, each three signed 16-bit values. */
  datatype Sample = Sample(acc: Vec3, gyro: Vec3)

  predicate IsInt16Sample(s: Sample)
  {
    IsInt16Vec(s.acc) && IsInt16Vec(s.gyro)
  }

  /** The twelve bytes of a sub-frame: accelerometer first, then gyroscope. */
  function SampleBytes(s: Sample): (bs: seq<byte>)
    requires IsInt16Sample(s)
    ensures |bs| == SubFrameLen
  {
    Vec3Bytes(s.acc) + Vec3Bytes(s.gyro)
  }

  /**
    `ExtractIMUValues(report, n)` on the raw values: the accelerometer at bytes
    13 + 12n .. 18 + 12n and the gyroscope at 19 + 12n .. 24 + 12n, each axis
    little-endian two's complement.
   */
  function ExtractImuValues(report: seq<byte>, n: nat): (s: Sample)
    requires |report| == ReportLen && n < SubFrames
    ensures IsInt16Sample(s)
    ensures Vec3Bytes(s.acc) == report[AccBase + SubFrameLen * n .. AccBase + SubFrameLen * n + 6]
    ensures Vec3Bytes(s.gyro) == report[GyroBase + SubFrameLen * n .. GyroBase + SubFrameLen * n + 6]
  {
    Sample(LeVec3(report, AccBase + SubFrameLen * n), LeVec3(report, GyroBase + SubFrameLen * n))
  }

  /** A sub-frame whose bytes encode a sample decodes to that sample. */
  lemma ExtractOfSampleBytes(report: seq<byte>, n: nat, s: Sample)
    requires |report| == ReportLen && n < SubFrames && IsInt16Sample(s)
    requires report[AccBase + SubFrameLen * n .. AccBase + SubFrameLen * (n + 1)] == SampleBytes(s)
    ensures ExtractImuValues(report, n) == s
  {
    var base := AccBase + SubFrameLen * n;
    var sub := report[base .. base + SubFrameLen];
    assert report[base .. base + 6] == sub[..6] == Vec3Bytes(s.acc);
    assert report[base + 6 .. base + 12] == sub[6..] == Vec3Bytes(s.gyro);
    LeVec3OfVec3Bytes(report, base, s.acc);
    LeVec3OfVec3Bytes(report, base + 6, s.gyro);
  }

  /**
    The ticks elapsed between two 8-bit timestamps: `ts - prev`, plus 0x100
    when the timestamp has wrapped. The previous timestamp is a plain `int`
    (it starts out uninitialised), so only a previous value that is itself a
    timestamp gives a delta in 0..255.
   */
  function TimestampDelta(prev: int, ts: byte): (dt: int)
    ensures 0 <= prev < 256 ==> 0 <= dt < 256
    ensures (prev + dt) % 256 == ts
  {
    var d := ts - prev;
    if ts < prev then d + 0x100 else d
  }

  /** Between timestamps, the delta is the unique tick count that carries `prev` to `ts`. */
  lemma TimestampDeltaUnique(prev: byte, ts: byte, k: int)
    requires 0 <= k < 256 && (prev + k) % 256 == ts
    ensures TimestampDelta(prev, ts) == k
  {
    ModularDeltaUnique(prev, ts, TimestampDelta(prev, ts), k);
  }

  /** Between timestamps, the delta is the difference reduced modulo 256. */
  lemma TimestampDeltaMod(prev: byte, ts: byte)
    ensures TimestampDelta(prev, ts) == (ts as int - prev as int) % 256
  {
    if ts < prev {
      assert (ts as int - prev as int) + 256 == TimestampDelta(prev, ts);
    }
  }

  /** Two tick counts below 256 that carry `prev` to the same timestamp are equal. */
  lemma ModularDeltaUnique(prev: byte, ts: byte, j: int, k: int)
    requires 0 <= j < 256 && (prev + j) % 256 == ts
    requires 0 <= k < 256 && (prev + k) % 256 == ts
    ensures j == k
  {
    assert prev + j == ts || prev + j == ts + 256;
    assert prev + k == ts || prev + k == ts + 256;
  }

  /** One sub-frame as `ProcessIMU` uses it: the raw sample and the ticks it covers. */
  datatype ImuFrame = ImuFrame(sample: Sample, dt: int)

  /** What `ProcessIMU` returns, the frames it processed and the stored timestamp afterwards. */
  datatype ImuStep = ImuStep(code: int, frames: seq<ImuFrame>, timestamp: int)

  /** Whether `ProcessIMU` works on this report at all. */
  predicate ImuAccepted(imuEnabled: bool, state: DeviceState, report: seq<byte>)
    requires |report| == ReportLen
  {
    imuEnabled && Rank(state) >= Rank(ImuDataOk) && report[0] == ImuReportId
  }

  /**
    `ProcessIMU`: nothing unless IMU is enabled, the state is `IMU_DATA_OK`
    and the report id is 0x30. Otherwise the three sub-frames are extracted;
    the first covers the ticks since the previous report, the other two one
    tick each, and the report's timestamp (byte 1) is stored.
   */
  function ProcessImu(timestamp: int, imuEnabled: bool, state: DeviceState, report: seq<byte>): (r: ImuStep)
    requires |report| == ReportLen
    ensures r.code == 0 || r.code == -1
    ensures r.code == 0 <==> imuEnabled && state == ImuDataOk && report[0] == ImuReportId
    ensures r.code == -1 ==> r.frames == [] && r.timestamp == timestamp
    ensures r.code == 0 ==>
      && |r.frames| == SubFrames
      && r.timestamp == report[1]
      && (forall n :: 0 <= n < SubFrames ==> r.frames[n].sample == ExtractImuValues(report, n))
      && (timestamp + r.frames[0].dt) % 256 == report[1]
      && (0 <= timestamp < 256 ==> 0 <= r.frames[0].dt < 256)
      && r.frames[1].dt == 1 && r.frames[2].dt == 1
  {
    if !ImuAccepted(imuEnabled, state, report) then
      ImuStep(-1, [], timestamp)
    else
      ImuStep(0, ImuFrames(report, TimestampDelta(timestamp, report[1])), report[1])
  }

  /** The three sub-frames of a report; the first covers `dt` ticks, the others one each. */
  function ImuFrames(report: seq<byte>, dt: int): (frames: seq<ImuFrame>)
    requires |report| == ReportLen
    ensures |frames| == SubFrames
    ensures forall n :: 0 <= n < SubFrames ==> frames[n].sample == ExtractImuValues(report, n)
    ensures frames[0].dt == dt && frames[1].dt == 1 && frames[2].dt == 1
  {
    [ImuFrame(ExtractImuValues(report, 0), dt),
     ImuFrame(ExtractImuValues(report, 1), 1),
     ImuFrame(ExtractImuValues(report, 2), 1)]
  }

  // ---------------------------------------------------------------------------
  // Reports built from samples.

  /**
    A 0x30 report as the controller sends it: id, timestamp, eleven bytes of
    button, stick and status data, then three encoded sub-frames.
   */
  function ImuReport(ts: byte, middle: seq<byte>, samples: seq<Sample>): (report: seq<byte>)
    requires |middle| == AccBase - 2 && |samples| == SubFrames
    requires forall n :: 0 <= n < SubFrames ==> IsInt16Sample(samples[n])
    ensures |report| == ReportLen
    ensures report[0] == ImuReportId && report[1] == ts
    ensures report[2..AccBase] == middle
  {
    [ImuReportId, ts] + middle + SampleBytes(samples[0]) + SampleBytes(samples[1]) + SampleBytes(samples[2])
  }

  /** Sub-frame `n` of a built report holds the bytes of the `n`-th sample. */
  lemma ImuReportSubFrame(ts: byte, middle: seq<byte>, samples: seq<Sample>, n: nat)
    requires |middle| == AccBase - 2 && |samples| == SubFrames && n < SubFrames
    requires forall n :: 0 <= n < SubFrames ==> IsInt16Sample(samples[n])
    ensures ImuReport(ts, middle, samples)[AccBase + SubFrameLen * n .. AccBase + SubFrameLen * (n + 1)]
            == SampleBytes(samples[n])
  {
    var head := [ImuReportId, ts] + middle;
    var s0, s1, s2 := SampleBytes(samples[0]), SampleBytes(samples[1]), SampleBytes(samples[2]);
    var report := head + s0 + s1 + s2;
    assert report == ImuReport(ts, middle, samples);
    if n == 0 {
      assert report[13..25] == s0;
    } else if n == 1 {
      assert report[25..37] == s1;
    } else {
      assert report[37..49] == s2;
    }
  }

  /** Sub-frame `n` of a built report decodes to the `n`-th sample. */
  lemma ImuReportSample(ts: byte, middle: seq<byte>, samples: seq<Sample>, n: nat)
    requires |middle| == AccBase - 2 && |samples| == SubFrames && n < SubFrames
    requires forall n :: 0 <= n < SubFrames ==> IsInt16Sample(samples[n])
    ensures ExtractImuValues(ImuReport(ts, middle, samples), n) == samples[n]
  {
    ImuReportSubFrame(ts, middle, samples, n);
    ExtractOfSampleBytes(ImuReport(ts, middle, samples), n, samples[n]);
  }

  /** Decoding a report built from three samples gives back the samples, and the delta since `prev`. */
  lemma ProcessImuOfReport(prev: byte, ts: byte, middle: seq<byte>, samples: seq<Sample>)
    requires |middle| == AccBase - 2 && |samples| == SubFrames
    requires forall n :: 0 <= n < SubFrames ==> IsInt16Sample(samples[n])
    ensures var r := ProcessImu(prev, true, ImuDataOk, ImuReport(ts, middle, samples));
      && r.code == 0
      && r.timestamp == ts
      && (forall n :: 0 <= n < SubFrames ==> r.frames[n].sample == samples[n])
      && r.frames[0].dt == (ts as int - prev as int) % 256
  {
    var report := ImuReport(ts, middle, samples);
    ImuReportSample(ts, middle, samples, 0);
    ImuReportSample(ts, middle, samples, 1);
    ImuReportSample(ts, middle, samples, 2);
    ProcessImuOfSamples(prev, report, samples);
  }

  /** A 0x30 report whose sub-frames decode to `samples` is processed into those samples. */
  lemma ProcessImuOfSamples(prev: byte, report: seq<byte>, samples: seq<Sample>)
    requires |report| == ReportLen && report[0] == ImuReportId && |samples| == SubFrames
    requires ExtractImuValues(report, 0) == samples[0]
    requires ExtractImuValues(report, 1) == samples[1]
    requires ExtractImuValues(report, 2) == samples[2]
    ensures var r := ProcessImu(prev, true, ImuDataOk, report);
      && r.code == 0
      && r.timestamp == report[1]
      && (forall n :: 0 <= n < SubFrames ==> r.frames[n].sample == samples[n])
      && r.frames[0].dt == (report[1] as int - prev as int) % 256
  {
    TimestampDeltaMod(prev, report[1]);
  }

  /**
    Two consecutive reports: the first sub-frame of the second covers the
    ticks between the two reports' timestamps, whatever came before.
   */
  lemma ConsecutiveReports(timestamp: int, imuEnabled: bool, state: DeviceState, a: seq<byte>, b: seq<byte>)
    requires |a| == ReportLen && |b| == ReportLen
    requires ProcessImu(timestamp, imuEnabled, state, a).code == 0
    requires ProcessImu(timestamp, imuEnabled, state, b).code == 0
    ensures var first := ProcessImu(timestamp, imuEnabled, state, a);
      var second := ProcessImu(first.timestamp, imuEnabled, state, b);
      && second.code == 0
      && second.frames[0].dt == (b[1] as int - a[1] as int) % 256
      && second.timestamp == b[1]
  {
    var first := ProcessImu(timestamp, imuEnabled, state, a);
    assert first.timestamp == a[1];
    var second := ProcessImu(a[1], imuEnabled, state, b);
    assert second.code == 0;
    var dt := second.frames[0].dt;
    assert 0 <= dt < 256 && (a[1] + dt) % 256 == b[1];
    TimestampDeltaMod(a[1], b[1]);
  }
}
