/** The client: its request, the optional authentication envelope, the check
    of an authenticated reply, and the decision flow of one query. */
module NtpClient {
  import opened PacketCodec
  import opened OffsetEstimator

  /** The largest offset, in seconds, that the client accepts as plausible. */
  const MAX_PLAUSIBLE_OFFSET: real := 3600.0
  /** Header, 4-octet key identifier and 32-octet tag. */
  const AUTH_LEN: int := 84

  /** An HMAC-SHA-256 tag. */
  type Digest = d: seq<Byte> | |d| == 32 witness Zeros(32)

  /** HMAC-SHA-256 of a message under a key (RFC 2104 over the hash of
      FIPS 180-4); the model knows only that it is a function giving 32 octets. */
  type Hmac = (seq<Byte>, seq<Byte>) -> Digest

  /** Python's s[lo:hi] for 0 <= lo <= hi: clipped to the octets present. */
  function Slice(s: seq<Byte>, lo: nat, hi: nat): seq<Byte>
    requires lo <= hi
  {
    if |s| <= lo then [] else if |s| <= hi then s[lo..] else s[lo..hi]
  }

  /** A request built at Unix time `now`, with the originate value it carries. */
  datatype Request = Request(packet: seq<Byte>, originate: int)

  /** The request of a query at Unix time `now`: first octet 0x23, zeros, and
      the time in the transmit slot (octets 40..48). None when the time is
      outside NTP era 0, where struct.pack raises. */
  function CreateRequest(now: real): (r: Option<Request>)
    ensures r.Some? <==> 0 <= ToWire(now) < TWO64
    ensures r.Some? ==>
      var p := r.value.packet;
      |p| == HEADER_LEN && p[0] == 0x23 && (forall i | 1 <= i < 40 :: p[i] == 0)
      && Decode(p[40..48]) == r.value.originate
    ensures r.Some? && now + NTP_EPOCH as real >= 0.0 ==>
      now - 1.0 / TWO32 as real < FromWire(r.value.originate) <= now
  {
    var originate := ToWire(now);
    match Pack(RequestHeader(originate))
    case None => None
    case Some(packet) =>
      RequestHeaderLayout(originate);
      if now + NTP_EPOCH as real >= 0.0 then
        WireRoundTrip(now);
        Some(Request(packet, originate))
      else
        Some(Request(packet, originate))
  }

  /** The authenticated datagram: the packet, a zero key identifier, and the
      tag of the packet. */
  function Authenticate(hmac: Hmac, key: seq<Byte>, packet: seq<Byte>): (d: seq<Byte>)
    ensures |d| == |packet| + 36
    ensures d[..|packet|] == packet
    ensures d[|packet|..|packet| + 4] == [0, 0, 0, 0]
    ensures d[|packet| + 4..] == hmac(key, packet)
  {
    Pow256Values();
    ZeroEncoding(4);
    packet + Encode(0, 4) + hmac(key, packet)
  }

  /** A reply is authentic when the tag of its first 48 octets equals its
      octets 52..84 (the key identifier in 48..52 is not looked at). */
  predicate ValidResponse(hmac: Hmac, key: seq<Byte>, data: seq<Byte>)
  {
    hmac(key, Prefix(data, HEADER_LEN)) == Slice(data, 52, 84)
  }

  /** What this client's own authenticated request would pass. */
  lemma {:induction false} AuthenticateValid(hmac: Hmac, key: seq<Byte>, packet: seq<Byte>)
    requires |packet| == HEADER_LEN
    ensures ValidResponse(hmac, key, Authenticate(hmac, key, packet))
  {
    var d := Authenticate(hmac, key, packet);
    assert Prefix(d, HEADER_LEN) == packet;
    assert Slice(d, 52, 84) == d[52..] == hmac(key, packet);
  }

  /** Anything shorter than 84 octets is rejected. */
  lemma ShortRejected(hmac: Hmac, key: seq<Byte>, data: seq<Byte>)
    requires |data| < AUTH_LEN
    ensures !ValidResponse(hmac, key, data)
  {
    assert |Slice(data, 52, 84)| < 32;
  }

  /** The verdict reads only octets 0..48 and 52..84. */
  lemma ValidResponseReads(hmac: Hmac, key: seq<Byte>, a: seq<Byte>, b: seq<Byte>)
    requires |a| >= AUTH_LEN && |b| >= AUTH_LEN
    requires a[..48] == b[..48] && a[52..84] == b[52..84]
    ensures ValidResponse(hmac, key, a) <==> ValidResponse(hmac, key, b)
  {
  }

  /** Changing the tag of an authentic reply, and nothing else before octet 84, makes it fail. */
  lemma TamperedTagRejected(hmac: Hmac, key: seq<Byte>, a: seq<Byte>, b: seq<Byte>)
    requires ValidResponse(hmac, key, a)
    requires |b| >= AUTH_LEN && a[..48] == b[..48] && a[52..84] != b[52..84]
    ensures !ValidResponse(hmac, key, b)
  {
    assert |Slice(a, 52, 84)| == 32;
  }

  /** data.ljust(48, b'\x00')[:48]: the first 48 octets, zero-filled when short. */
  function Padded(data: seq<Byte>): (h: seq<Byte>)
    ensures |h| == HEADER_LEN
    ensures forall i | 0 <= i < HEADER_LEN :: h[i] == if i < |data| then data[i] else 0
  {
    if |data| >= HEADER_LEN then data[..HEADER_LEN] else data + Zeros(HEADER_LEN - |data|)
  }

  /** The datagram a query sends. */
  function Datagram(hmac: Hmac, key: seq<Byte>, useAuth: bool, request: Request): seq<Byte>
  {
    if useAuth then Authenticate(hmac, key, request.packet) else request.packet
  }

  /** How a query ends. */
  datatype Outcome =
    | MissingSecret                 // authentication asked for without a secret: nothing is sent
    | ClockOutOfRange               // the request cannot be packed; the error escapes
    | Timeout                       // no reply within the deadline
    | AuthenticationFailed          // the reply does not carry a valid tag
    | InvalidOffset(offset: real)   // implausible offset: reported, no time shown
    | Synchronized(offset: real)    // offset and corrected time reported

  /** The offset computed from a reply to a request, in Unix seconds, with the
      receive time taken straight from the clock. */
  function ReplyOffset(request: Request, data: seq<Byte>, recvTime: real): real
  {
    var fields := Unpack(Padded(data)).value;
    ClockOffset(FromWire(request.originate), FromWire(fields.receiveTimestamp),
                FromWire(fields.transmitTimestamp), recvTime)
  }

  /** One query: the request is built at `sendTime`, `reply` is what arrives
      (None: the deadline passed) and `recvTime` the clock on arrival. */
  function Execute(hmac: Hmac, key: seq<Byte>, useAuth: bool, sendTime: real,
                   reply: Option<seq<Byte>>, recvTime: real): (o: Outcome)
    ensures o != MissingSecret
    ensures o == ClockOutOfRange <==> CreateRequest(sendTime).None?
    ensures o == Timeout <==> CreateRequest(sendTime).Some? && reply.None?
    ensures o == AuthenticationFailed
      <==> CreateRequest(sendTime).Some? && reply.Some? && useAuth && !ValidResponse(hmac, key, reply.value)
    ensures o.InvalidOffset? ==> Abs(o.offset) > MAX_PLAUSIBLE_OFFSET
    ensures o.Synchronized? ==> Abs(o.offset) <= MAX_PLAUSIBLE_OFFSET
    ensures o.InvalidOffset? || o.Synchronized? ==>
      o.offset == ReplyOffset(CreateRequest(sendTime).value, reply.value, recvTime)
  {
    match CreateRequest(sendTime)
    case None => ClockOutOfRange
    case Some(request) =>
      match reply
      case None => Timeout
      case Some(data) =>
        if useAuth && !ValidResponse(hmac, key, data) then AuthenticationFailed
        else
          var offset := ReplyOffset(request, data, recvTime);
          if Abs(offset) > MAX_PLAUSIBLE_OFFSET then InvalidOffset(offset) else Synchronized(offset)
  }

  /** The program's entry: authentication without a secret stops before any query. */
  function ClientMain(hmac: Hmac, key: seq<Byte>, useAuth: bool, sendTime: real,
                      reply: Option<seq<Byte>>, recvTime: real): (o: Outcome)
    ensures o == MissingSecret <==> useAuth && key == []
    ensures o != MissingSecret ==> o == Execute(hmac, key, useAuth, sendTime, reply, recvTime)
  {
    if useAuth && key == [] then MissingSecret
    else Execute(hmac, key, useAuth, sendTime, reply, recvTime)
  }

  /** Without authentication every reply is decoded: short ones are zero-filled. */
  lemma DecodingNeverFails(hmac: Hmac, key: seq<Byte>, sendTime: real, data: seq<Byte>, recvTime: real)
    requires CreateRequest(sendTime).Some?
    ensures var o := Execute(hmac, key, false, sendTime, Some(data), recvTime);
      o.InvalidOffset? || o.Synchronized?
  {
  }

  /** Octets past the 48th of a reply do not change the result of an
      unauthenticated query. */
  lemma UnauthenticatedIgnoresTrailing(hmac: Hmac, key: seq<Byte>, sendTime: real,
                                       data: seq<Byte>, extra: seq<Byte>, recvTime: real)
    requires |data| >= HEADER_LEN
    ensures Execute(hmac, key, false, sendTime, Some(data + extra), recvTime)
         == Execute(hmac, key, false, sendTime, Some(data), recvTime)
  {
    assert Padded(data + extra) == Padded(data);
  }

  /** With authentication, the result reads only octets 0..48 and 52..84. */
  lemma AuthenticatedReadsHeaderAndTag(hmac: Hmac, key: seq<Byte>, sendTime: real,
                                       a: seq<Byte>, b: seq<Byte>, recvTime: real)
    requires |a| >= AUTH_LEN && |b| >= AUTH_LEN
    requires a[..48] == b[..48] && a[52..84] == b[52..84]
    ensures Execute(hmac, key, true, sendTime, Some(a), recvTime)
         == Execute(hmac, key, true, sendTime, Some(b), recvTime)
  {
    assert Padded(a) == a[..48] == Padded(b);
  }

  /** A shifted server clock moves the offset by the same amount: the
      offset of a reply whose receive and transmit stamps are c/2^32 seconds
      later grows by c/2^32. */
  lemma ReplyOffsetFollowsServer(request: Request, rx: int, tx: int, c: int, recvTime: real)
    ensures ClockOffset(FromWire(request.originate), FromWire(rx + c), FromWire(tx + c), recvTime)
         == ClockOffset(FromWire(request.originate), FromWire(rx), FromWire(tx), recvTime)
            + c as real / TWO32 as real
  {
    var k := TWO32 as real;
    assert FromWire(rx + c) == FromWire(rx) + c as real / k;
    assert FromWire(tx + c) == FromWire(tx) + c as real / k;
    OffsetFollowsServerClock(FromWire(request.originate), FromWire(rx), FromWire(tx), recvTime, c as real / k);
  }
}
