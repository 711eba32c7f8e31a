/** The optional-value wrapper used by the decoders and the frame parser. */
module Wrappers {

  datatype Option<+T> = None | Some(value: T)
}

/**
  Integer encodings that appear on the wire between the host and a Joy-Con:
  bytes, the 12-bit pairs packed into three bytes (stick positions and stick
  calibration), and little-endian two's-complement 16-bit samples (IMU data
  and gyroscope neutral offsets).
 */
module Codec {

  /** A `uint8_t`, held as an integer in 0..255. */
  type byte = x: int | 0 <= x < 256

  /** Size of every input report and of every response buffer. */
  const ReportLen: nat := 49

  function Zeros(n: nat): (z: seq<byte>)
    ensures |z| == n
    ensures forall i :: 0 <= i < n ==> z[i] == 0
  {
    seq(n, _ => 0)
  }

  function Abs(x: int): nat
  {
    if x < 0 then -x else x
  }

  // ---------------------------------------------------------------------------
  // 12-bit pairs: three bytes b0 b1 b2 hold lo = b0 | (b1 & 0xF) << 8 and
  // hi = (b1 >> 4) | b2 << 4.

  /** `b0 + ((b1 & 0xF) << 8)`, equivalently `((b1 << 8) & 0xF00) + b0`. */
  function Lo12(b0: byte, b1: byte): (v: nat)
    ensures v <= 0xFFF
    ensures v % 256 == b0 && v / 256 == b1 % 16
  {
    b0 + (b1 % 16) * 256
  }

  /** `(b1 >> 4) + (b2 << 4)`. */
  function Hi12(b1: byte, b2: byte): (v: nat)
    ensures v <= 0xFFF
    ensures v % 16 == b1 / 16 && v / 16 == b2
  {
    b1 / 16 + b2 * 16
  }

  /** The inverse of the unpacking: how the controller stores a 12-bit pair. */
  function Pack12(lo: nat, hi: nat): (bs: seq<byte>)
    requires lo <= 0xFFF && hi <= 0xFFF
    ensures |bs| == 3
  {
    [lo % 256, lo / 256 + (hi % 16) * 16, hi / 16]
  }

  lemma Unpack12OfPack12(lo: nat, hi: nat)
    requires lo <= 0xFFF && hi <= 0xFFF
    ensures var bs := Pack12(lo, hi); Lo12(bs[0], bs[1]) == lo && Hi12(bs[1], bs[2]) == hi
  {
    var bs := Pack12(lo, hi);
    assert bs[1] % 16 == lo / 256;
    assert bs[1] / 16 == hi % 16;
  }

  lemma Pack12OfUnpack12(b0: byte, b1: byte, b2: byte)
    ensures Pack12(Lo12(b0, b1), Hi12(b1, b2)) == [b0, b1, b2]
  {
    var lo, hi := Lo12(b0, b1), Hi12(b1, b2);
    assert lo / 256 + (hi % 16) * 16 == b1 % 16 + (b1 / 16) * 16;
  }

  // ---------------------------------------------------------------------------
  // Signed 16-bit values: `(int16_t)(lo + ((hi << 8) & 0xff00))`.

  predicate IsInt16(v: int)
  {
    -0x8000 <= v < 0x8000
  }

  /** The two's-complement reading of an unsigned 16-bit value (a cast to `int16_t`). */
  function ToInt16(u: int): (v: int)
    requires 0 <= u < 0x10000
    ensures IsInt16(v)
    ensures (u - v) % 0x10000 == 0
  {
    if u < 0x8000 then u else u - 0x10000
  }

  /** A little-endian two's-complement 16-bit value. */
  function LeInt16(lo: byte, hi: byte): (v: int)
    ensures IsInt16(v)
    ensures v >= 0 <==> hi < 0x80
  {
    ToInt16(lo + hi * 256)
  }

  /** The inverse: the two bytes, low first, of a signed 16-bit value. */
  function Int16Bytes(v: int): (bs: seq<byte>)
    requires IsInt16(v)
    ensures |bs| == 2
  {
    var u := if v < 0 then v + 0x10000 else v;
    [u % 256, u / 256]
  }

  lemma LeInt16OfInt16Bytes(v: int)
    requires IsInt16(v)
    ensures var bs := Int16Bytes(v); LeInt16(bs[0], bs[1]) == v
  {
  }

  lemma Int16BytesOfLeInt16(lo: byte, hi: byte)
    ensures Int16Bytes(LeInt16(lo, hi)) == [lo, hi]
  {
  }

  /** A three-axis integer vector (`juce::Vector3D<int16_t>`). */
  datatype Vec3 = Vec3(x: int, y: int, z: int)

  predicate IsInt16Vec(v: Vec3)
  {
    IsInt16(v.x) && IsInt16(v.y) && IsInt16(v.z)
  }

  /** The six bytes of a vector, each axis low byte first. */
  function Vec3Bytes(v: Vec3): (bs: seq<byte>)
    requires IsInt16Vec(v)
    ensures |bs| == 6
  {
    Int16Bytes(v.x) + Int16Bytes(v.y) + Int16Bytes(v.z)
  }

  /** Three little-endian signed 16-bit values starting at `base`. */
  function LeVec3(buf: seq<byte>, base: nat): (v: Vec3)
    requires base + 6 <= |buf|
    ensures IsInt16Vec(v)
    ensures Vec3Bytes(v) == buf[base..base + 6]
  {
    Int16BytesOfLeInt16(buf[base], buf[base + 1]);
    Int16BytesOfLeInt16(buf[base + 2], buf[base + 3]);
    Int16BytesOfLeInt16(buf[base + 4], buf[base + 5]);
    Vec3(LeInt16(buf[base], buf[base + 1]),
         LeInt16(buf[base + 2], buf[base + 3]),
         LeInt16(buf[base + 4], buf[base + 5]))
  }

  /** Reading back the bytes of a vector gives the vector. */
  lemma LeVec3OfVec3Bytes(buf: seq<byte>, base: nat, v: Vec3)
    requires IsInt16Vec(v) && base + 6 <= |buf|
    requires buf[base..base + 6] == Vec3Bytes(v)
    ensures LeVec3(buf, base) == v
  {
    LeInt16OfInt16Bytes(v.x);
    LeInt16OfInt16Bytes(v.y);
    LeInt16OfInt16Bytes(v.z);
    var s := buf[base..base + 6];
    assert s == Int16Bytes(v.x) + Int16Bytes(v.y) + Int16Bytes(v.z);
    assert buf[base] == s[0] == Int16Bytes(v.x)[0] && buf[base + 1] == s[1] == Int16Bytes(v.x)[1];
    assert buf[base + 2] == s[2] == Int16Bytes(v.y)[0] && buf[base + 3] == s[3] == Int16Bytes(v.y)[1];
    assert buf[base + 4] == s[4] == Int16Bytes(v.z)[0] && buf[base + 5] == s[5] == Int16Bytes(v.z)[1];
  }
}
