/** The server: its self-synchronisation against an upstream source, the
    rule that smooths its offset, and the reply it builds for each request. */
module NtpServer {
  import opened PacketCodec
  import opened OffsetEstimator

  /** Largest deviation, in seconds, that the offset adopts in one step. */
  const MAX_OFFSET_ADJUST: real := 5.0
  /** "LOCL": the reference identifier of a local clock. */
  const REFERENCE_ID: int := 0x4C4F434C
  /** The precision claimed in replies, as a power of two: about a microsecond. */
  const PRECISION: int := -20

  /** The candidate offset computed on raw 64-bit timestamps, scaled to seconds. */
  function WireOffset(t1: int, t2: int, t3: int, t4: int): real
  {
    ((t2 - t1) + (t3 - t4)) as real / 2.0 / TWO32 as real
  }

  /** On raw timestamps the epoch term cancels: the candidate is the on-wire
      offset of the same four readings taken as Unix seconds. */
  lemma WireOffsetInSeconds(t1: int, t2: int, t3: int, t4: int)
    ensures WireOffset(t1, t2, t3, t4)
         == ClockOffset(FromWire(t1), FromWire(t2), FromWire(t3), FromWire(t4))
  {
    var k := TWO32 as real;
    assert FromWire(t2) - FromWire(t1) == (t2 - t1) as real / k;
    assert FromWire(t3) - FromWire(t4) == (t3 - t4) as real / k;
  }

  lemma WireOffsetZeroWhenSymmetric(t1: int, t2: int, t3: int, t4: int)
    ensures WireOffset(t1, t2, t3, t4) == 0.0 <==> t2 - t1 == t4 - t3
  {
  }

  /** The offset update rule: adopt a candidate within MAX_OFFSET_ADJUST of the
      current offset, otherwise move halfway toward it. */
  function Smooth(current: real, candidate: real): (next: real)
    ensures Abs(candidate - current) <= MAX_OFFSET_ADJUST ==> next == candidate
    ensures Abs(candidate - current) > MAX_OFFSET_ADJUST
      ==> Abs(candidate - next) == Abs(candidate - current) / 2.0
    ensures current <= candidate ==> current <= next <= candidate
    ensures candidate <= current ==> candidate <= next <= current
  {
    var deviation := Abs(candidate - current);
    if deviation > MAX_OFFSET_ADJUST then current + (candidate - current) / 2.0 else candidate
  }

  /** The offset after k updates with the same candidate. */
  function SmoothN(current: real, candidate: real, k: nat): real
  {
    if k == 0 then current else Smooth(SmoothN(current, candidate, k - 1), candidate)
  }

  function Pow2(n: nat): (r: real)
    ensures r >= n as real + 1.0
  {
    if n == 0 then 1.0 else 2.0 * Pow2(n - 1)
  }

  /** Until it reaches the candidate, repeated updating halves the distance each time. */
  lemma {:induction false} SmoothNDistance(current: real, candidate: real, k: nat)
    ensures SmoothN(current, candidate, k) == candidate
         || Abs(candidate - SmoothN(current, candidate, k)) * Pow2(k) == Abs(candidate - current)
  {
    if k > 0 {
      SmoothNDistance(current, candidate, k - 1);
      var prev := SmoothN(current, candidate, k - 1);
      var next := SmoothN(current, candidate, k);
      if prev != candidate && next != candidate {
        var a := Abs(candidate - prev);
        var b := Abs(candidate - next);
        var p := Pow2(k - 1);
        assert 2.0 * b == a;
        calc {
          b * Pow2(k);
          b * (2.0 * p);
          (2.0 * b) * p;
          a * p;
        }
      }
    }
  }

  /** Once the candidate is reached, further updates keep it. */
  lemma {:induction false} SmoothNStays(current: real, candidate: real, k: nat, j: nat)
    requires SmoothN(current, candidate, k) == candidate
    ensures SmoothN(current, candidate, k + j) == candidate
  {
    if j > 0 {
      SmoothNStays(current, candidate, k, j - 1);
    }
  }

  /** A start at most MAX_OFFSET_ADJUST * 2^n away reaches the candidate within n + 1 updates. */
  lemma SmoothReachesWithin(current: real, candidate: real, n: nat)
    requires Abs(candidate - current) <= MAX_OFFSET_ADJUST * Pow2(n)
    ensures SmoothN(current, candidate, n + 1) == candidate
  {
    SmoothNDistance(current, candidate, n);
    var a := Abs(candidate - SmoothN(current, candidate, n));
    var p := Pow2(n);
    if a > MAX_OFFSET_ADJUST {
      assert a * p > MAX_OFFSET_ADJUST * p;
    }
  }

  /** Repeated updates with a fixed candidate reach it after finitely many
      steps (and stay there, by SmoothNStays). */
  lemma SmoothConverges(current: real, candidate: real)
    ensures exists k: nat :: SmoothN(current, candidate, k) == candidate
  {
    var d := Abs(candidate - current);
    var n: nat := d.Floor;
    assert d <= MAX_OFFSET_ADJUST * Pow2(n);
    SmoothReachesWithin(current, candidate, n);
  }

  /** One run of the synchronisation up to its candidate offset. The request
      carries the send time as its transmit timestamp; None stands for any
      exception: a send time outside NTP era 0, no reply (timeout or
      network error), or a reply shorter than 48 octets. */
  function SyncCandidate(sendTime: real, response: Option<seq<Byte>>, recvTime: real): (c: Option<real>)
    ensures c.Some? <==> 0 <= ToWire(sendTime) < TWO64 && response.Some? && |response.value| >= HEADER_LEN
    ensures c.Some? ==>
      var reply := Unpack(response.value[..HEADER_LEN]).value;
      c.value == ClockOffset(FromWire(ToWire(sendTime)), FromWire(reply.receiveTimestamp),
                             FromWire(reply.transmitTimestamp), FromWire(ToWire(recvTime)))
  {
    match Pack(RequestHeader(ToWire(sendTime)))
    case None => None
    case Some(request) =>
      match response
      case None => None
      case Some(data) =>
        match Unpack(Prefix(data, HEADER_LEN))
        case None => None
        case Some(reply) =>
          RequestHeaderLayout(ToWire(sendTime));
          assert Prefix(data, HEADER_LEN) == data[..HEADER_LEN];
          var t1 := Decode(request[40..48]);
          var t4 := ToWire(recvTime);
          WireOffsetInSeconds(t1, reply.receiveTimestamp, reply.transmitTimestamp, t4);
          Some(WireOffset(t1, reply.receiveTimestamp, reply.transmitTimestamp, t4))
  }

  /** One exchange of the synchronisation loop, with its clock readings. */
  datatype Exchange = Exchange(sendTime: real, response: Option<seq<Byte>>, recvTime: real)

  /** The offset after one synchronisation: unchanged when it failed. */
  function SyncStep(current: real, e: Exchange): real
  {
    match SyncCandidate(e.sendTime, e.response, e.recvTime)
    case None => current
    case Some(candidate) => Smooth(current, candidate)
  }

  /** The offset after a sequence of synchronisations, oldest first. */
  function AfterSyncs(current: real, exchanges: seq<Exchange>): real
  {
    if exchanges == [] then current
    else SyncStep(AfterSyncs(current, exchanges[..|exchanges| - 1]), exchanges[|exchanges| - 1])
  }

  /** Every exchange succeeds with the same candidate offset. */
  predicate AllYield(exchanges: seq<Exchange>, candidate: real)
  {
    forall e | e in exchanges :: SyncCandidate(e.sendTime, e.response, e.recvTime) == Some(candidate)
  }

  /** Synchronisations that all yield one candidate act as repeated updates with it. */
  lemma {:induction false} AfterSyncsSameCandidate(current: real, candidate: real, exchanges: seq<Exchange>)
    requires AllYield(exchanges, candidate)
    ensures AfterSyncs(current, exchanges) == SmoothN(current, candidate, |exchanges|)
  {
    if exchanges != [] {
      var p := exchanges[..|exchanges| - 1];
      assert AllYield(p, candidate) by {
        forall e | e in p ensures e in exchanges { }
      }
      AfterSyncsSameCandidate(current, candidate, p);
      assert exchanges[|exchanges| - 1] in exchanges;
    }
  }

  /** An upstream source that keeps answering with the same candidate is
      adopted exactly, after a number of rounds logarithmic in the distance. */
  lemma AfterSyncsAdopts(current: real, candidate: real, exchanges: seq<Exchange>, n: nat)
    requires AllYield(exchanges, candidate)
    requires Abs(candidate - current) <= MAX_OFFSET_ADJUST * Pow2(n)
    requires |exchanges| > n
    ensures AfterSyncs(current, exchanges) == candidate
  {
    var m: nat := |exchanges| - (n + 1);
    SmoothReachesWithin(current, candidate, n);
    SmoothNStays(current, candidate, n + 1, m);
    assert SmoothN(current, candidate, |exchanges|) == candidate by {
      assert n + 1 + m == |exchanges|;
    }
    AfterSyncsSameCandidate(current, candidate, exchanges);
  }

  /** The header of the reply for a request's originate timestamp, at server
      time `current` (the local clock plus the offset). */
  function ReplyHeader(originate: int, current: real): Header
  {
    var stamp := ToWire(current);
    Header(LiVnMode(0, 4, 4) as int, 1, 0, PRECISION, 0, 0, REFERENCE_ID, stamp, originate, stamp, stamp)
  }

  /** Handling of one datagram: the reply sent, or None when nothing is sent
      because the datagram is shorter than 48 octets or the server time is
      outside NTP era 0. */
  function Reply(data: seq<Byte>, current: real): (r: Option<seq<Byte>>)
    ensures r.Some? <==> |data| >= HEADER_LEN && 0 <= ToWire(current) < TWO64
    ensures r.Some? ==> |r.value| == HEADER_LEN && r.value[24..32] == data[24..32]
  {
    match Unpack(Prefix(data, HEADER_LEN))
    case None => None
    case Some(request) =>
      var h := ReplyHeader(request.originateTimestamp, current);
      if h.Packable() then
        PackLayout(h);
        EncodeDecode(data[24..32]);
        assert Prefix(data, HEADER_LEN)[24..32] == data[24..32];
        Pack(h)
      else None
  }

  /** The fixed fields of every reply, and its three equal timestamps. */
  lemma ReplyLayout(data: seq<Byte>, current: real)
    requires Reply(data, current).Some?
    ensures var r := Reply(data, current).value;
      r[0] == 0x24 && r[1] == 1 && r[2] == 0 && r[3] == 236
      && r[4..12] == [0, 0, 0, 0, 0, 0, 0, 0] && r[12..16] == [0x4C, 0x4F, 0x43, 0x4C]
      && r[16..24] == r[32..40] == r[40..48] && Decode(r[16..24]) == ToWire(current)
  {
    var request := Unpack(Prefix(data, HEADER_LEN)).value;
    var h := ReplyHeader(request.originateTimestamp, current);
    PackLayout(h);
    DecodeEncode(ToWire(current), 8);
    assert LiVnMode(0, 4, 4) == 0x24;
    var r := Reply(data, current).value;
    WordValues();
    assert r[4..12] == r[4..8] + r[8..12];
  }

  lemma WordValues()
    ensures Encode(0, 4) == [0, 0, 0, 0]
    ensures Encode(REFERENCE_ID, 4) == [0x4C, 0x4F, 0x43, 0x4C]
  {
  }

  /** Decoded, a reply carries mode 4, stratum 1, poll 0, precision -20, zero
      root delay and dispersion, the LOCL identifier, the request's originate
      value and the server time in the other three timestamps. */
  lemma ReplyDecoded(data: seq<Byte>, current: real)
    requires Reply(data, current).Some?
    ensures var stamp := ToWire(current);
      Unpack(Reply(data, current).value)
        == Some(Header(0x24, 1, 0, -20, 0, 0, 0x4C4F434C, stamp, Decode(data[24..32]), stamp, stamp))
  {
    var request := Unpack(Prefix(data, HEADER_LEN)).value;
    assert Prefix(data, HEADER_LEN)[24..32] == data[24..32];
    var h := ReplyHeader(request.originateTimestamp, current);
    assert LiVnMode(0, 4, 4) == 0x24;
    UnpackPack(h);
  }

  /** Octets past the 48th never change the reply. */
  lemma ReplyIgnoresTrailing(data: seq<Byte>, extra: seq<Byte>, current: real)
    ensures |data| >= HEADER_LEN ==> Reply(data + extra, current) == Reply(data, current)
  {
    if |data| >= HEADER_LEN {
      assert Prefix(data + extra, HEADER_LEN) == Prefix(data, HEADER_LEN);
    }
  }

  /** Replies exist only in NTP era 0: once the server time reaches
      2036-02-07T06:28:16Z the timestamp no longer fits and no reply is sent. */
  lemma NoReplyAfterEra0(data: seq<Byte>, current: real)
    requires current >= (TWO32 - NTP_EPOCH) as real
    ensures Reply(data, current) == None
  {
    ToWireFits(current);
  }

  /** OFFSET of the server process, with the operations that read and write it. */
  class OffsetState {
    /** Estimated true time minus local time, in seconds. */
    var offset: real

    constructor ()
      ensures offset == 0.0
    {
      offset := 0.0;
    }

    /** Applies the update rule to a candidate offset. */
    method Update(candidate: real)
      modifies this
      ensures offset == Smooth(old(offset), candidate)
      ensures Abs(candidate - offset) <= Abs(candidate - old(offset))
    {
      var deviation := Abs(candidate - offset);
      if deviation > MAX_OFFSET_ADJUST {
        offset := offset + (candidate - offset) / 2.0;
      } else {
        offset := candidate;
      }
    }

    /** One synchronisation with the upstream source; any failure leaves the offset as it was. */
    method Synchronize(sendTime: real, response: Option<seq<Byte>>, recvTime: real) returns (updated: bool)
      modifies this
      ensures updated <==> SyncCandidate(sendTime, response, recvTime).Some?
      ensures !updated ==> offset == old(offset)
      ensures offset == SyncStep(old(offset), Exchange(sendTime, response, recvTime))
    {
      var candidate := SyncCandidate(sendTime, response, recvTime);
      updated := candidate.Some?;
      if updated {
        Update(candidate.value);
      }
    }

    /** A run of the periodic synchronisation loop over the given exchanges. */
    method SyncLoop(exchanges: seq<Exchange>)
      modifies this
      ensures offset == AfterSyncs(old(offset), exchanges)
    {
      var i := 0;
      while i < |exchanges|
        invariant 0 <= i <= |exchanges|
        invariant offset == AfterSyncs(old(offset), exchanges[..i])
      {
        var e := exchanges[i];
        var _ := Synchronize(e.sendTime, e.response, e.recvTime);
        assert exchanges[..i + 1][..i] == exchanges[..i];
        i := i + 1;
      }
      assert exchanges[..i] == exchanges;
    }

    /** Handling of one datagram at local time `now`; reads the offset, changes nothing. */
    method HandleRequest(data: seq<Byte>, now: real) returns (reply: Option<seq<Byte>>)
      ensures reply == Reply(data, now + offset)
      ensures |data| < HEADER_LEN ==> reply == None
    {
      var current := now + offset;
      match Unpack(Prefix(data, HEADER_LEN))
      case None =>
        reply := None;
      case Some(request) =>
        reply := Pack(ReplyHeader(request.originateTimestamp, current));
    }
  }
}
