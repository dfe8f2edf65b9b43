# A verified model of a small NTP client and server

This project models, in Dafny, the core of a two-program Network Time Protocol
implementation: a server (`servidorNTP.py`) that answers NTP queries with its
own clock plus a self-maintained offset, and keeps that offset up to date by
querying an upstream source; and a client (`clienteNTP.py`) that sends one
query, optionally wrapped in an HMAC-SHA-256 envelope, and reports the clock
offset it measures.

The model has five modules:

- `PacketCodec` (`codec.dfy`): the 48-octet header both programs pack and
  unpack with the struct format `"!BBBbIIIQQQQ"` (section 7.3 of RFC 5905);
  the first octet `(LI << 6) | (VN << 3) | mode`; Python's truncating `int()`;
  the conversion between Unix seconds and the 64-bit timestamps of section 6
  of RFC 5905 (epoch offset 2208988800). `Pack` and `Unpack` return `None`
  where `struct` raises.
- `OffsetEstimator` (`estimator.dfy`): the on-wire offset
  `((T2 - T1) + (T3 - T4)) / 2` of section 8 of RFC 5905, in exact `real`
  arithmetic, with its shift properties.
- `NtpServer` (`server.dfy`): the candidate offset computed on raw wire
  integers, the smoothing rule for `OFFSET`, one synchronisation round, and
  the reply to a datagram. The process-wide `OFFSET` is the field `offset` of
  the class `OffsetState`. `Update` applies the rule. `Synchronize` runs one
  round and leaves the field unchanged on any failure. `SyncLoop` runs a
  sequence of rounds. `HandleRequest` reads the field to answer a datagram.
- `NtpClient` (`client.dfy`): the request, the authentication envelope, the
  verification of an authenticated reply, and the decision flow of one query
  as a function to an `Outcome`. HMAC-SHA-256 is a function-typed parameter
  `Hmac` that returns 32 octets; nothing else about it is assumed.
  `hmac.compare_digest` is sequence equality.
- `Interop` (`interop.dfy`): what happens when this client queries this
  server.

Clock readings (`time.time()`) are parameters. A received datagram is an
`Option<seq<Byte>>`. In the server's synchronisation round `None` is a timeout
or any network error. In the client's query `None` is a timeout only. The
secret key is a parameter.

Some behaviour one might expect of an NTP implementation is absent from
this code, and the model follows the code:

- `poll` is packed as unsigned (`B`), not signed.
- Neither program computes a round-trip delay.
- The server neither checks nor produces authentication, and does not look
  at the datagram length beyond needing 48 octets.
- No hard-correction threshold exists and the process never restarts.
- The readings T1=0, T2=5, T3=5, T4=10 give an offset of 0 under
  `((T2 - T1) + (T3 - T4)) / 2`, the formula both programs use, not 5
  (`OffsetEstimator.OffsetExamples`).

## Model

| member | source | states |
|---|---|---|
| `PacketCodec.DecodeEncode` | servidorNTP.py:75-88 | Decoding the big-endian encoding of any value that fits n octets gives the value back. |
| `PacketCodec.Encode` | servidorNTP.py:75-88 | Struct's unsigned codes B, I and Q, big-endian: any value below 256^n gives exactly n octets. Its meaning is fixed by `DecodeEncode` and `EncodeDecode`. |
| `PacketCodec.Decode` | servidorNTP.py:97 | The unsigned big-endian value of an octet string is below 256^length. It inverts `Encode` by `DecodeEncode` and `EncodeDecode`. |
| `PacketCodec.EncodeDecode` | servidorNTP.py:97 | Encoding the value of any octet string in its own length gives the string back. |
| `PacketCodec.SignedByteRoundTrip` | servidorNTP.py:69 | The signed code `b` is two's complement and invertible both ways; precision -20 is octet 236. |
| `PacketCodec.LiVnModeFields` | servidorNTP.py:24 | `(LI<<6)\|(VN<<3)\|mode` keeps the three fields recoverable for LI < 4, VN < 8, mode < 8. |
| `PacketCodec.Pack` | servidorNTP.py:75-88 | Packing succeeds exactly when all 11 values fit their codes, and then yields 48 octets. |
| `PacketCodec.Unpack` | servidorNTP.py:97 | Unpacking succeeds exactly on 48 octets, and the values it yields always fit their codes. |
| `PacketCodec.PackLayout` | servidorNTP.py:75-88 | Each value lands at its offset of the header table, big-endian. |
| `PacketCodec.UnpackPack` | servidorNTP.py:75-98 | Unpacking a packed header returns the same 11 values. |
| `PacketCodec.PackUnpack` | servidorNTP.py:97 | Packing an unpacked 48-octet string returns the same octets. |
| `PacketCodec.RequestHeaderLayout` | servidorNTP.py:24-32 | The request's first octet is 0x23, octets 1..40 are zero, and octets 40..48 encode the transmit value. |
| `PacketCodec.Trunc` | servidorNTP.py:31 | `int()` rounds toward zero: below the argument for non-negative ones, above it for negative ones, by less than 1. |
| `PacketCodec.ToWire` | servidorNTP.py:31 | `int((t + NTP_EPOCH) * 2**32)`, also at servidorNTP.py:41 and 63 and clienteNTP.py:15. It has no contract of its own; `WireRoundTrip`, `WireInverse` and `ToWireFits` carry its properties. |
| `PacketCodec.FromWire` | clienteNTP.py:55-57 | `w / 2**32 - NTP_EPOCH`. It has no contract of its own; `WireRoundTrip` and `WireInverse` tie it to `ToWire` in both directions. |
| `PacketCodec.WireRoundTrip` | clienteNTP.py:55-57 | For any time at or after 1900, converting to the wire and back gives a value in (t - 2^-32, t]. |
| `PacketCodec.WireInverse` | clienteNTP.py:55-57 | Every wire value converts to Unix seconds and back to itself. |
| `PacketCodec.ToWireFits` | servidorNTP.py:31 | A time's timestamp fits the `Q` code exactly within NTP era 0, so packing fails from 2036-02-07T06:28:16Z on. |
| `OffsetEstimator.OffsetShiftInvariant` | clienteNTP.py:59 | Shifting all four readings by c leaves the offset unchanged. |
| `OffsetEstimator.OffsetFollowsServerClock` | clienteNTP.py:59 | Shifting only T2 and T3 by c adds c to the offset. |
| `OffsetEstimator.OffsetZeroIffSymmetric` | clienteNTP.py:59 | The offset is zero exactly when T2 - T1 equals T4 - T3. |
| `OffsetEstimator.OffsetExactForSymmetricDelay` | clienteNTP.py:59 | With equal delays both ways, the offset equals the server clock's true lead. |
| `OffsetEstimator.OffsetExamples` | clienteNTP.py:59 | Worked values of the formula: (0, 7, 7, 4) gives 5; (0, 2, 2, 4) and (0, 5, 5, 10) give 0. |
| `OffsetEstimator.ClockOffset` | clienteNTP.py:59 | The on-wire offset. It has no contract of its own; `OffsetShiftInvariant`, `OffsetFollowsServerClock`, `OffsetZeroIffSymmetric`, `OffsetExactForSymmetricDelay` and `OffsetExamples` carry its properties. |
| `NtpServer.WireOffsetInSeconds` | servidorNTP.py:44 | The candidate computed on raw 64-bit values equals the on-wire offset of the same readings in Unix seconds: the epoch term cancels. |
| `NtpServer.WireOffsetZeroWhenSymmetric` | servidorNTP.py:44 | The raw candidate is zero exactly when t2 - t1 equals t4 - t3. |
| `NtpServer.WireOffset` | servidorNTP.py:44 | The candidate on raw 64-bit timestamps. It has no contract of its own; `WireOffsetInSeconds` and `WireOffsetZeroWhenSymmetric` carry its properties. |
| `NtpServer.Smooth` | servidorNTP.py:47-52 | Within 5 s of the current offset the candidate is adopted; farther, the distance to it is halved; the result always lies between the old offset and the candidate. |
| `NtpServer.SmoothNDistance` | servidorNTP.py:47-52 | After k updates with one candidate, the offset is the candidate or its distance is the initial distance over 2^k. |
| `NtpServer.SmoothNStays` | servidorNTP.py:47-52 | Once the candidate is reached, further updates with it keep it. |
| `NtpServer.SmoothReachesWithin` | servidorNTP.py:47-52 | A start at most 5·2^n away reaches the candidate in n + 1 updates. |
| `NtpServer.SmoothConverges` | servidorNTP.py:47-52 | Repeated updates with a fixed candidate reach it after finitely many steps. |
| `NtpServer.SyncCandidate` | servidorNTP.py:21-44 | A round yields a candidate exactly when the request packs, a reply arrives and it has at least 48 octets; the candidate is the on-wire offset of the send time, the reply's receive and transmit stamps and the receive time, all in wire resolution. |
| `NtpServer.SyncStep` | servidorNTP.py:47-56 | The offset after one round: unchanged when the round fails, `Smooth` of the candidate otherwise. It has no contract of its own; `OffsetState.Synchronize` is proved equal to it. |
| `NtpServer.AfterSyncs` | servidorNTP.py:111-114 | The offset after a sequence of rounds, oldest first. It has no contract of its own; `OffsetState.SyncLoop` is proved equal to it, and `AfterSyncsSameCandidate` and `AfterSyncsAdopts` carry its properties. |
| `NtpServer.AfterSyncsSameCandidate` | servidorNTP.py:111-114 | Rounds that all yield one candidate act as that many updates with it. |
| `NtpServer.AfterSyncsAdopts` | servidorNTP.py:111-114 | A source that keeps yielding the same candidate is adopted exactly within n + 1 rounds when the distance is at most 5·2^n. |
| `NtpServer.Reply` | servidorNTP.py:94-101 | A reply is sent exactly when the datagram has at least 48 octets and the server time is in NTP era 0; it has 48 octets and its octets 24..32 are the request's octets 24..32. |
| `NtpServer.WordValues` | servidorNTP.py:72 | The reference identifier 0x4C4F434C is the octets "LOCL". |
| `NtpServer.ReplyHeader` | servidorNTP.py:61-88 | The reply's 11 values for an originate value at a server time. It has no contract of its own; `ReplyLayout` and `ReplyDecoded` carry its properties. |
| `NtpServer.ReplyLayout` | servidorNTP.py:58-88 | A reply starts 0x24, 1, 0, 236, has zero root delay and dispersion, "LOCL", and identical reference, receive and transmit stamps encoding the server time. |
| `NtpServer.ReplyDecoded` | servidorNTP.py:63-98 | Unpacked, a reply is mode 4, stratum 1, poll 0, precision -20, LOCL, the echoed originate value and the server time three times. |
| `NtpServer.ReplyIgnoresTrailing` | servidorNTP.py:97 | Octets past the 48th never change the reply. |
| `NtpServer.NoReplyAfterEra0` | servidorNTP.py:63-88 | From 2036-02-07T06:28:16Z (server time) no reply is ever sent. |
| `NtpServer.OffsetState.constructor` | servidorNTP.py:13 | The offset starts at zero. |
| `NtpServer.OffsetState.Update` | servidorNTP.py:47-52 | The new offset is the rule applied to the old one and never farther from the candidate. |
| `NtpServer.OffsetState.Synchronize` | servidorNTP.py:18-56 | Reports success exactly when a candidate exists; on failure the offset is unchanged, otherwise it is updated with the candidate. |
| `NtpServer.OffsetState.SyncLoop` | servidorNTP.py:111-114 | After a sequence of rounds the offset is the rounds applied in order. |
| `NtpServer.OffsetState.HandleRequest` | servidorNTP.py:94-101 | The reply is the one for local time plus the current offset, and nothing is sent for a datagram under 48 octets. |
| `NtpClient.CreateRequest` | clienteNTP.py:13-23 | The request exists exactly in NTP era 0; it is 48 octets, 0x23 then zeros up to octet 40, then the originate value, which is within 2^-32 s below the send time. |
| `NtpClient.Authenticate` | clienteNTP.py:25-26 | The envelope is the packet unchanged, four zero octets and the packet's 32-octet tag. |
| `NtpClient.AuthenticateValid` | clienteNTP.py:25-32 | The envelope of any 48-octet packet passes verification. |
| `NtpClient.ShortRejected` | clienteNTP.py:28-32 | Anything shorter than 84 octets fails verification. |
| `NtpClient.ValidResponseReads` | clienteNTP.py:28-32 | Verification reads only octets 0..48 and 52..84. |
| `NtpClient.TamperedTagRejected` | clienteNTP.py:28-32 | Changing the tag of an authentic reply, with the header intact, makes it fail. |
| `NtpClient.ValidResponse` | clienteNTP.py:28-32 | `compare_digest(HMAC(data[:48]), data[52:84])`. It has no contract of its own; `AuthenticateValid`, `ShortRejected`, `ValidResponseReads` and `TamperedTagRejected` carry its properties. |
| `NtpClient.Padded` | clienteNTP.py:50 | The decoded header is the reply's first 48 octets, zero-filled when it is shorter. |
| `NtpClient.Datagram` | clienteNTP.py:36 | The datagram sent: the authenticated envelope when authentication is asked for, the bare packet otherwise. It has no contract of its own; `Interop.ServerAnswersClient` and `Interop.EchoedOriginateIsZero` use it. |
| `NtpClient.ReplyOffset` | clienteNTP.py:50-59 | The offset from the padded reply's receive and transmit stamps, the request's originate value and the raw receive time. It has no contract of its own; `Execute`, `ReplyOffsetFollowsServer` and `Interop.EndToEndOffset` carry its properties. |
| `NtpClient.Execute` | clienteNTP.py:34-68 | Ordered exits: unpackable request, timeout, authentication failure (only when asked for); otherwise the offset of the reply, invalid exactly when its magnitude exceeds 3600 s. |
| `NtpClient.ClientMain` | clienteNTP.py:77-81 | Authentication asked for with an empty secret stops before any query; otherwise the query runs. |
| `NtpClient.DecodingNeverFails` | clienteNTP.py:50 | Without authentication every reply, of any length, yields an offset. |
| `NtpClient.UnauthenticatedIgnoresTrailing` | clienteNTP.py:50 | Octets past the 48th of a reply do not change an unauthenticated query's result. |
| `NtpClient.AuthenticatedReadsHeaderAndTag` | clienteNTP.py:46-50 | An authenticated query's result depends on octets 0..48 and 52..84 only. |
| `NtpClient.ReplyOffsetFollowsServer` | clienteNTP.py:55-59 | Raising both server stamps by c wire units raises the measured offset by c/2^32 s. |
| `Interop.ServerAnswersClient` | servidorNTP.py:97-99 | The server answers every request of this client, authenticated or not, while its time is in era 0. |
| `Interop.EchoedOriginateIsZero` | servidorNTP.py:98 | The echoed originate field of every reply to this client is zero, because the client's time travels in the transmit slot. |
| `Interop.AuthenticatedClientRejectsServer` | clienteNTP.py:46-48 | The server's replies are 48 octets, so a client asking for authentication rejects every one. |
| `Interop.EndToEndOffset` | clienteNTP.py:55-59 | An unauthenticated query answered by the server measures the exact offset to within (-2^-32, +2^-33) s. |
| `Interop.EndToEndExample` | clienteNTP.py:59 | Server stamps 2 s after sending and arrival at 4 s give an offset within 2^-32 s of zero. |

## Left out

- Sockets: `sendto`, `recvfrom`, the 1024-octet receive buffer and `settimeout(5)` are I/O. The received datagram is a parameter and a timeout is `None`.
- Socket errors other than `socket.timeout` escape the client's query. The client model has no outcome for them.
- Threads: the daemon synchronisation thread, one thread per request, and the unguarded global `OFFSET` are concurrency. The model has one writer and readers that see a whole value.
- `NtpServer.OffsetState.SyncLoop`: runs a given finite sequence of rounds, whereas the source loops forever with `time.sleep(SYNC_INTERVAL)` between rounds.
- The server's `KeyboardInterrupt` handling and its receive loop are not modelled.
- `time.time()`, `time.sleep` and `time.ctime` are clock and timing. Readings are parameters, and the time printed next to the offset is not modelled.
- Floating point: arithmetic is exact on `real`. A double cannot hold `(t + 2208988800) * 2^32` to the last unit, so the model idealises the low bits of each timestamp. It does keep `int()`'s truncation toward zero.
- The internals of HMAC-SHA-256 and the constant-time behaviour of `hmac.compare_digest` are foreign cryptography and a timing property. `Hmac` is any function giving 32 octets.
- `print` output, `argparse` and the reading of `NTP_SECRET_KEY` are left out. The secret is a parameter.
