/** The on-wire clock offset of section 8 of RFC 5905 in exact arithmetic:
    T1 is the client's send time, T2 the server's receive time, T3 the
    server's transmit time and T4 the client's receive time. */
module OffsetEstimator {

  function Abs(x: real): real
  {
    if x < 0.0 then -x else x
  }

  function ClockOffset(t1: real, t2: real, t3: real, t4: real): real
  {
    ((t2 - t1) + (t3 - t4)) / 2.0
  }

  /** Moving every reading by the same amount leaves the offset alone. */
  lemma OffsetShiftInvariant(t1: real, t2: real, t3: real, t4: real, c: real)
    ensures ClockOffset(t1 + c, t2 + c, t3 + c, t4 + c) == ClockOffset(t1, t2, t3, t4)
  {
  }

  /** A server clock that is c seconds further ahead adds c to the offset. */
  lemma OffsetFollowsServerClock(t1: real, t2: real, t3: real, t4: real, c: real)
    ensures ClockOffset(t1, t2 + c, t3 + c, t4) == ClockOffset(t1, t2, t3, t4) + c
  {
  }

  /** The offset is zero exactly when the outbound leg T2 - T1 equals the
      return leg T4 - T3. */
  lemma OffsetZeroIffSymmetric(t1: real, t2: real, t3: real, t4: real)
    ensures ClockOffset(t1, t2, t3, t4) == 0.0 <==> t2 - t1 == t4 - t3
  {
  }

  /** With equal delays d both ways, a server that holds the readings for s
      seconds and whose clock is theta ahead is measured as exactly theta. */
  lemma OffsetExactForSymmetricDelay(t1: real, d: real, s: real, theta: real)
    ensures ClockOffset(t1, t1 + d + theta, t1 + d + theta + s, t1 + d + s + d) == theta
  {
  }

  lemma OffsetExamples()
    ensures ClockOffset(0.0, 7.0, 7.0, 4.0) == 5.0
    ensures ClockOffset(0.0, 2.0, 2.0, 4.0) == 0.0
    ensures ClockOffset(0.0, 5.0, 5.0, 10.0) == 0.0
  {
  }
}
