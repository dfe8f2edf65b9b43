/** The 48-byte NTP header as both programs pack and unpack it with the
    struct format "!BBBbIIIQQQQ" (section 7.3 of RFC 5905), and the
    conversion between Unix seconds and the 64-bit timestamp format of
    section 6 of RFC 5905. */
module PacketCodec {

  datatype Option<+T> = None | Some(value: T)

  /** One octet on the wire. */
  type Byte = b: int | 0 <= b < 256

  /** Seconds from the NTP prime epoch (1900-01-01) to the Unix epoch (1970-01-01). */
  const NTP_EPOCH: int := 2208988800
  const TWO32: int := 0x1_0000_0000
  const TWO64: int := 0x1_0000_0000_0000_0000
  /** Length of the header in octets. */
  const HEADER_LEN: int := 48

  function Pow256(n: nat): (r: nat)
    ensures r >= 1
  {
    if n == 0 then 1 else 256 * Pow256(n - 1)
  }

  lemma Pow256Values()
    ensures Pow256(1) == 256 && Pow256(4) == TWO32 && Pow256(8) == TWO64
  {
  }

  /** Big-endian encoding of x in n octets: struct's unsigned codes B, I and Q. */
  function Encode(x: nat, n: nat): (r: seq<Byte>)
    requires x < Pow256(n)
    ensures |r| == n
  {
    if n == 0 then [] else Encode(x / 256, n - 1) + [x % 256]
  }

  /** The unsigned big-endian value of a sequence of octets. */
  function Decode(s: seq<Byte>): (r: nat)
    ensures r < Pow256(|s|)
  {
    if s == [] then 0
    else
      var p := s[..|s| - 1];
      var hi := Decode(p);
      assert hi * 256 + s[|s| - 1] <= (Pow256(|p|) - 1) * 256 + 255;
      hi * 256 + s[|s| - 1]
  }

  lemma {:induction false} DecodeEncode(x: nat, n: nat)
    requires x < Pow256(n)
    ensures Decode(Encode(x, n)) == x
  {
    if n > 0 {
      var e := Encode(x, n);
      assert e[..n - 1] == Encode(x / 256, n - 1);
      DecodeEncode(x / 256, n - 1);
    }
  }

  lemma {:induction false} EncodeDecode(s: seq<Byte>)
    ensures Encode(Decode(s), |s|) == s
  {
    if s != [] {
      var p := s[..|s| - 1];
      EncodeDecode(p);
      assert s == p + [s[|s| - 1]];
    }
  }

  /** struct's signed code b: two's complement in one octet. */
  function SignedToByte(v: int): Byte
    requires -128 <= v < 128
  {
    if v < 0 then v + 256 else v
  }

  function ByteToSigned(b: Byte): int
  {
    if b < 128 then b else b - 256
  }

  lemma SignedByteRoundTrip(v: int, b: Byte)
    ensures -128 <= v < 128 ==> ByteToSigned(SignedToByte(v)) == v
    ensures -128 <= ByteToSigned(b) < 128 && SignedToByte(ByteToSigned(b)) == b
    ensures SignedToByte(-20) == 236
  {
  }

  /** The first octet: leap indicator in bits 7-6, version in bits 5-3, mode in bits 2-0. */
  function LiVnMode(li: bv8, vn: bv8, mode: bv8): bv8
  {
    (li << 6) | (vn << 3) | mode
  }

  lemma LiVnModeFields(li: bv8, vn: bv8, mode: bv8)
    requires li < 4 && vn < 8 && mode < 8
    ensures LiVnMode(li, vn, mode) >> 6 == li
    ensures (LiVnMode(li, vn, mode) >> 3) & 7 == vn
    ensures LiVnMode(li, vn, mode) & 7 == mode
  {
  }

  /** The 11 values of "!BBBbIIIQQQQ", in order. */
  datatype Header = Header(
    liVnMode: int,
    stratum: int,
    poll: int,
    precision: int,
    rootDelay: int,
    rootDispersion: int,
    referenceId: int,
    referenceTimestamp: int,
    originateTimestamp: int,
    receiveTimestamp: int,
    transmitTimestamp: int)
  {
    /** Every value fits its code; struct.pack raises struct.error otherwise. */
    predicate Packable()
    {
      0 <= liVnMode < 256 && 0 <= stratum < 256 && 0 <= poll < 256
      && -128 <= precision < 128
      && 0 <= rootDelay < TWO32 && 0 <= rootDispersion < TWO32 && 0 <= referenceId < TWO32
      && 0 <= referenceTimestamp < TWO64 && 0 <= originateTimestamp < TWO64
      && 0 <= receiveTimestamp < TWO64 && 0 <= transmitTimestamp < TWO64
    }
  }

  /** struct.pack("!BBBbIIIQQQQ", ...): None stands for struct.error. */
  function Pack(h: Header): (r: Option<seq<Byte>>)
    ensures r.Some? <==> h.Packable()
    ensures r.Some? ==> |r.value| == HEADER_LEN
  {
    if !h.Packable() then None
    else
      Pow256Values();
      Some([h.liVnMode, h.stratum, h.poll, SignedToByte(h.precision)]
        + Encode(h.rootDelay, 4) + Encode(h.rootDispersion, 4) + Encode(h.referenceId, 4)
        + Encode(h.referenceTimestamp, 8) + Encode(h.originateTimestamp, 8)
        + Encode(h.receiveTimestamp, 8) + Encode(h.transmitTimestamp, 8))
  }

  /** struct.unpack("!BBBbIIIQQQQ", s): None stands for struct.error, raised
      whenever s is not exactly 48 octets long. */
  function Unpack(s: seq<Byte>): (r: Option<Header>)
    ensures r.Some? <==> |s| == HEADER_LEN
    ensures r.Some? ==> r.value.Packable()
  {
    if |s| != HEADER_LEN then None
    else
      Pow256Values();
      Some(Header(s[0], s[1], s[2], ByteToSigned(s[3]),
        Decode(s[4..8]), Decode(s[8..12]), Decode(s[12..16]),
        Decode(s[16..24]), Decode(s[24..32]), Decode(s[32..40]), Decode(s[40..48])))
  }

  /** Where each value lands in a packed header. */
  lemma PackLayout(h: Header)
    requires h.Packable()
    ensures Pack(h).Some?
    ensures var b := Pack(h).value;
      Pow256(4) == TWO32 && Pow256(8) == TWO64
      && b[0] == h.liVnMode && b[1] == h.stratum && b[2] == h.poll
      && b[3] == SignedToByte(h.precision)
      && b[4..8] == Encode(h.rootDelay, 4) && b[8..12] == Encode(h.rootDispersion, 4)
      && b[12..16] == Encode(h.referenceId, 4)
      && b[16..24] == Encode(h.referenceTimestamp, 8) && b[24..32] == Encode(h.originateTimestamp, 8)
      && b[32..40] == Encode(h.receiveTimestamp, 8) && b[40..48] == Encode(h.transmitTimestamp, 8)
  {
    Pow256Values();
    var b := Pack(h).value;
    var s0 := [h.liVnMode, h.stratum, h.poll, SignedToByte(h.precision)];
    var s1 := Encode(h.rootDelay, 4);
    var s2 := Encode(h.rootDispersion, 4);
    var s3 := Encode(h.referenceId, 4);
    var s4 := Encode(h.referenceTimestamp, 8);
    var s5 := Encode(h.originateTimestamp, 8);
    var s6 := Encode(h.receiveTimestamp, 8);
    var s7 := Encode(h.transmitTimestamp, 8);
    assert b == s0 + s1 + s2 + s3 + s4 + s5 + s6 + s7;
    assert b[4..8] == s1;
    assert b[8..12] == s2;
    assert b[12..16] == s3;
    assert b[16..24] == s4;
    assert b[24..32] == s5;
    assert b[32..40] == s6;
    assert b[40..48] == s7;
  }

  /** Unpacking a packed header gives back the same 11 values. */
  lemma UnpackPack(h: Header)
    requires h.Packable()
    ensures Pack(h).Some? && Unpack(Pack(h).value) == Some(h)
  {
    PackLayout(h);
    SignedByteRoundTrip(h.precision, 0);
    DecodeEncode(h.rootDelay, 4);
    DecodeEncode(h.rootDispersion, 4);
    DecodeEncode(h.referenceId, 4);
    DecodeEncode(h.referenceTimestamp, 8);
    DecodeEncode(h.originateTimestamp, 8);
    DecodeEncode(h.receiveTimestamp, 8);
    DecodeEncode(h.transmitTimestamp, 8);
  }

  /** Packing an unpacked header gives back the same 48 octets. */
  lemma PackUnpack(s: seq<Byte>)
    requires |s| == HEADER_LEN
    ensures Unpack(s).Some? && Pack(Unpack(s).value) == Some(s)
  {
    var h := Unpack(s).value;
    PackLayout(h);
    SignedByteRoundTrip(0, s[3]);
    EncodeDecode(s[4..8]);
    EncodeDecode(s[8..12]);
    EncodeDecode(s[12..16]);
    EncodeDecode(s[16..24]);
    EncodeDecode(s[24..32]);
    EncodeDecode(s[32..40]);
    EncodeDecode(s[40..48]);
    var b := Pack(h).value;
    assert b[..4] == s[..4];
    SameFields(b, s);
  }

  /** Two headers that agree field by field are the same octets. */
  lemma SameFields(a: seq<Byte>, b: seq<Byte>)
    requires |a| == HEADER_LEN && |b| == HEADER_LEN
    requires a[..4] == b[..4] && a[4..8] == b[4..8] && a[8..12] == b[8..12] && a[12..16] == b[12..16]
    requires a[16..24] == b[16..24] && a[24..32] == b[24..32] && a[32..40] == b[32..40] && a[40..48] == b[40..48]
    ensures a == b
  {
    forall i | 0 <= i < HEADER_LEN ensures a[i] == b[i] {
      if i < 4 { assert a[i] == a[..4][i]; }
      else if i < 8 { assert a[i] == a[4..8][i - 4]; }
      else if i < 12 { assert a[i] == a[8..12][i - 8]; }
      else if i < 16 { assert a[i] == a[12..16][i - 12]; }
      else if i < 24 { assert a[i] == a[16..24][i - 16]; }
      else if i < 32 { assert a[i] == a[24..32][i - 24]; }
      else if i < 40 { assert a[i] == a[32..40][i - 32]; }
      else { assert a[i] == a[40..48][i - 40]; }
    }
  }

  function Zeros(n: nat): (z: seq<Byte>)
    ensures |z| == n && forall i | 0 <= i < n :: z[i] == 0
  {
    seq(n, i => 0)
  }

  /** Python's s[:n]: the first n octets, or all of s when it is shorter. */
  function Prefix(s: seq<Byte>, n: nat): seq<Byte>
  {
    if |s| <= n then s else s[..n]
  }

  /** The request both programs send: first octet (LI 0, VN 4, mode 3), every
      other value zero except the transmit timestamp. */
  function RequestHeader(transmit: int): Header
  {
    Header(LiVnMode(0, 4, 3) as int, 0, 0, 0, 0, 0, 0, 0, 0, 0, transmit)
  }

  lemma RequestHeaderLayout(transmit: int)
    requires 0 <= transmit < TWO64
    ensures Pack(RequestHeader(transmit)).Some?
    ensures var b := Pack(RequestHeader(transmit)).value;
      b[0] == 0x23 && (forall i | 1 <= i < 40 :: b[i] == 0) && Decode(b[40..48]) == transmit
  {
    var h := RequestHeader(transmit);
    PackLayout(h);
    UnpackPack(h);
    var b := Pack(h).value;
    assert LiVnMode(0, 4, 3) == 0x23;
    ZeroEncoding(4);
    ZeroEncoding(8);
    forall i | 1 <= i < 40 ensures b[i] == 0 {
      if 4 <= i < 8 { assert b[i] == b[4..8][i - 4]; }
      else if 8 <= i < 12 { assert b[i] == b[8..12][i - 8]; }
      else if 12 <= i < 16 { assert b[i] == b[12..16][i - 12]; }
      else if 16 <= i < 24 { assert b[i] == b[16..24][i - 16]; }
      else if 24 <= i < 32 { assert b[i] == b[24..32][i - 24]; }
      else if 32 <= i < 40 { assert b[i] == b[32..40][i - 32]; }
    }
  }

  lemma {:induction false} ZeroEncoding(n: nat)
    ensures forall i | 0 <= i < n :: Encode(0, n)[i] == 0
  {
    if n > 0 {
      ZeroEncoding(n - 1);
    }
  }

  /** Python's int() on a float: truncation toward zero. */
  function Trunc(x: real): (n: int)
    ensures 0.0 <= x ==> 0 <= n && n as real <= x < n as real + 1.0
    ensures x < 0.0 ==> n <= 0 && n as real - 1.0 < x <= n as real
  {
    if x >= 0.0 then x.Floor else -((-x).Floor)
  }

  /** int((t + NTP_EPOCH) * 2**32): Unix seconds to a 64-bit NTP timestamp,
      before struct decides whether it fits. */
  function ToWire(t: real): int
  {
    Trunc((t + NTP_EPOCH as real) * TWO32 as real)
  }

  /** w / 2**32 - NTP_EPOCH: a 64-bit NTP timestamp to Unix seconds. */
  function FromWire(w: int): real
  {
    w as real / TWO32 as real - NTP_EPOCH as real
  }

  /** Converting to the wire and back loses less than one unit of 2^-32 seconds,
      and never rounds up, for every time at or after the NTP prime epoch. */
  lemma WireRoundTrip(t: real)
    requires t + NTP_EPOCH as real >= 0.0
    ensures t - 1.0 / TWO32 as real < FromWire(ToWire(t)) <= t
  {
    var x := (t + NTP_EPOCH as real) * TWO32 as real;
    var w := ToWire(t);
    assert w as real <= x < w as real + 1.0;
    assert FromWire(w) + NTP_EPOCH as real == w as real / TWO32 as real;
    assert t + NTP_EPOCH as real == x / TWO32 as real;
  }

  /** Every wire value is the image of the Unix time it stands for. */
  lemma WireInverse(w: int)
    ensures ToWire(FromWire(w)) == w
  {
    assert (FromWire(w) + NTP_EPOCH as real) * TWO32 as real == w as real;
  }

  /** The timestamp of t fits the Q code exactly for the times of NTP era 0:
      from 2^-32 seconds before 1900-01-01 up to, not including, 2036-02-07T06:28:16Z. */
  lemma ToWireFits(t: real)
    ensures 0 <= ToWire(t) < TWO64
      <==> -(NTP_EPOCH as real) - 1.0 / TWO32 as real < t < (TWO32 - NTP_EPOCH) as real
  {
    var x := (t + NTP_EPOCH as real) * TWO32 as real;
    assert t == x / TWO32 as real - NTP_EPOCH as real;
  }
}
