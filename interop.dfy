/** What happens when this client queries this server. */
module Interop {
  import opened PacketCodec
  import opened OffsetEstimator
  import NtpServer
  import opened NtpClient

  /** The server answers a query from this client whenever its own time is in
      NTP era 0, authenticated or not, since both datagrams are at least 48 octets. */
  lemma ServerAnswersClient(hmac: Hmac, key: seq<Byte>, useAuth: bool, request: Request, current: real)
    requires |request.packet| == HEADER_LEN
    requires 0 <= ToWire(current) < TWO64
    ensures NtpServer.Reply(Datagram(hmac, key, useAuth, request), current).Some?
  {
  }

  /** The client fills the transmit slot and leaves the originate slot zero, and
      the server echoes the originate slot: every reply it gets carries zero there. */
  lemma EchoedOriginateIsZero(hmac: Hmac, key: seq<Byte>, useAuth: bool, sendTime: real, current: real)
    requires CreateRequest(sendTime).Some?
    requires 0 <= ToWire(current) < TWO64
    ensures var d := Datagram(hmac, key, useAuth, CreateRequest(sendTime).value);
      var r := NtpServer.Reply(d, current);
      r.Some? && r.value[24..32] == [0, 0, 0, 0, 0, 0, 0, 0]
      && Unpack(r.value).value.originateTimestamp == 0
  {
    var req := CreateRequest(sendTime).value;
    var d := Datagram(hmac, key, useAuth, req);
    assert d[24..32] == req.packet[24..32] by {
      assert d[..HEADER_LEN] == req.packet;
    }
    var r := NtpServer.Reply(d, current).value;
    ZeroOctets(d[24..32]);
    NtpServer.ReplyDecoded(d, current);
  }

  lemma ZeroOctets(s: seq<Byte>)
    requires |s| == 8 && forall i | 0 <= i < 8 :: s[i] == 0
    ensures s == [0, 0, 0, 0, 0, 0, 0, 0] && Decode(s) == 0
  {
    assert s == [0, 0, 0, 0, 0, 0, 0, 0];
    ZeroEncoding(8);
    assert Encode(0, 8) == s;
    DecodeEncode(0, 8);
  }

  /** The server never authenticates its replies, so a client that asks for
      authentication rejects every one of them. */
  lemma AuthenticatedClientRejectsServer(hmac: Hmac, key: seq<Byte>, sendTime: real,
                                         data: seq<Byte>, current: real, recvTime: real)
    requires CreateRequest(sendTime).Some?
    requires NtpServer.Reply(data, current).Some?
    ensures Execute(hmac, key, true, sendTime, NtpServer.Reply(data, current), recvTime) == AuthenticationFailed
  {
    ShortRejected(hmac, key, NtpServer.Reply(data, current).value);
  }

  /** An unauthenticated query answered by the server at server time `current`
      measures the on-wire offset of the exact readings, short by less than
      2^-32 seconds and over by less than 2^-33 seconds: the truncation of the
      two timestamps is the only error. */
  lemma EndToEndOffset(hmac: Hmac, key: seq<Byte>, sendTime: real, current: real, recvTime: real)
    requires CreateRequest(sendTime).Some? && sendTime + NTP_EPOCH as real >= 0.0
    requires 0 <= ToWire(current) < TWO64 && current + NTP_EPOCH as real >= 0.0
    ensures var request := CreateRequest(sendTime).value;
      var reply := NtpServer.Reply(Datagram(hmac, key, false, request), current);
      var ideal := ClockOffset(sendTime, current, current, recvTime);
      var e := 1.0 / TWO32 as real;
      reply.Some? && ReplyOffset(request, reply.value, recvTime) > ideal - e
      && ReplyOffset(request, reply.value, recvTime) < ideal + e / 2.0
  {
    var request := CreateRequest(sendTime).value;
    var d := Datagram(hmac, key, false, request);
    var r := NtpServer.Reply(d, current).value;
    NtpServer.ReplyDecoded(d, current);
    assert Padded(r) == r;
    WireRoundTrip(current);
    var x := FromWire(ToWire(current));
    var y := FromWire(request.originate);
    assert ReplyOffset(request, r, recvTime) == ClockOffset(y, x, x, recvTime);
  }

  /** A worked exchange: server readings two seconds after the send time,
      the reply back four seconds after it; the offset measured is zero up
      to the truncation error. */
  lemma EndToEndExample(hmac: Hmac, key: seq<Byte>, sendTime: real)
    requires CreateRequest(sendTime).Some? && sendTime + NTP_EPOCH as real >= 0.0
    requires 0 <= ToWire(sendTime + 2.0) < TWO64
    ensures var request := CreateRequest(sendTime).value;
      var reply := NtpServer.Reply(Datagram(hmac, key, false, request), sendTime + 2.0);
      reply.Some?
      && -1.0 / TWO32 as real < ReplyOffset(request, reply.value, sendTime + 4.0) < 1.0 / TWO32 as real
  {
    EndToEndOffset(hmac, key, sendTime, sendTime + 2.0, sendTime + 4.0);
  }
}
