/**
 * The decoding half of `ntp_roundtrip`: the reply buffer it reads and the
 * sample it returns. The socket is not modelled: the request it sends is
 * `NtpMessage.Client`, and what the receive call delivered in answer is a
 * parameter, as are the two local instants.
 */
module Roundtrip {
  import opened Wrappers
  import opened Timestamp
  import opened Message
  import opened Estimator
  import opened Adjustment

  /**
   * What the receive call delivered: a datagram, or nothing at all, whether the
   * one-second timeout ran out or the call failed at once.
   */
  datatype Reply = Datagram(bytes: seq<byte>) | TimedOut

  const NANOS_PER_SECOND: int := 1_000_000_000

  /** A count of nanoseconds within one second. */
  type nanos = n: nat | n < NANOS_PER_SECOND

  /**
   * `From<NTPTimeStamp> for DateTime<Utc>` in nanoseconds since the Unix epoch.
   * The whole seconds are exact; the fraction goes through `f64` in the source
   * and is a parameter here, `fractionNanos`. The instant's whole Unix second is
   * the shifted NTP second, and its part within that second is the fraction's.
   */
  function InstantOf(ts: NtpTimestamp, fractionNanos: u32 -> nanos): (t: int)
    ensures t / NANOS_PER_SECOND == ToUnixSeconds(ts.seconds)
    ensures t % NANOS_PER_SECOND == fractionNanos(ts.fraction)
  {
    var q, r := ts.seconds - NTP_TO_UNIX_SECONDS, fractionNanos(ts.fraction);
    var t := q * NANOS_PER_SECOND + r;
    assert t == q * NANOS_PER_SECOND + r;
    t
  }

  /** The reply buffer before anything arrives: `NTPMessage::new`. */
  const ZEROED: seq<byte> := seq(NTP_MESSAGE_LENGTH, _ => 0)

  /** The buffer after a datagram landed in it: its first bytes, the rest untouched (UDP drops any excess). */
  function Received(buffer: seq<byte>, datagram: seq<byte>): (after: seq<byte>)
    ensures |after| == |buffer|
    ensures forall k :: 0 <= k < |buffer| ==> after[k] == if k < |datagram| then datagram[k] else buffer[k]
  {
    if |datagram| >= |buffer| then datagram[..|buffer|]
    else datagram + buffer[|datagram|..]
  }

  /** `recv_from(&mut response.data)`: copy the datagram into the 48-byte buffer. */
  method Receive(msg: NtpMessage, datagram: seq<byte>)
    requires msg.Valid()
    modifies msg.data
    ensures msg.Valid() && msg.data[..] == Received(old(msg.data[..]), datagram)
  {
    var n := if |datagram| < msg.data.Length then |datagram| else msg.data.Length;
    for k := 0 to n
      invariant forall j :: 0 <= j < k ==> msg.data[j] == datagram[j]
      invariant forall j :: k <= j < msg.data.Length ==> msg.data[j] == old(msg.data[j])
    {
      msg.data[k] := datagram[k];
    }
  }

  /**
   * `ntp_roundtrip` as written: the outcome of the receive call is discarded.
   * The server instants are decoded from the buffer whatever landed in it: a
   * full reply's timestamps, a short reply followed by zeros, or, when nothing
   * arrived, the zeroed buffer, so that both are the NTP era's start.
   */
  method RoundtripAsWritten(t1: int, reply: Reply, t4: int, fractionNanos: u32 -> nanos) returns (o: Outcome)
    ensures o.Replied? && o.result.t1 == t1 && o.result.t4 == t4
    ensures
      var buffer := if reply.Datagram? then Received(ZEROED, reply.bytes) else ZEROED;
      o.result.t2 == InstantOf(DecodeTimestamp(buffer[RECEIVE_TIMESTAMP_AT..TRANSMIT_TIMESTAMP_AT]).value, fractionNanos) &&
      o.result.t3 == InstantOf(DecodeTimestamp(buffer[TRANSMIT_TIMESTAMP_AT..NTP_MESSAGE_LENGTH]).value, fractionNanos)
    ensures reply.TimedOut? ==>
      o.result.t2 == o.result.t3 == InstantOf(NtpTimestamp(0, 0), fractionNanos)
    ensures reply.TimedOut? && fractionNanos(0) == 0 ==>
      o.result.t2 == o.result.t3 == -NTP_TO_UNIX_SECONDS * NANOS_PER_SECOND
  {
    var response := new NtpMessage();
    ghost var blank := response.data[..];
    assert blank == ZEROED;
    match reply {
      case Datagram(bytes) => Receive(response, bytes);
      case TimedOut =>
    }
    var rx := response.RxTime();
    var tx := response.TxTime();
    if reply.TimedOut? {
      ZeroBytesDecodeToZero(response.data[RECEIVE_TIMESTAMP_AT..TRANSMIT_TIMESTAMP_AT], rx.value);
      ZeroBytesDecodeToZero(response.data[TRANSMIT_TIMESTAMP_AT..NTP_MESSAGE_LENGTH], tx.value);
    }
    var t2 := InstantOf(rx.value, fractionNanos);
    var t3 := InstantOf(tx.value, fractionNanos);
    o := Replied(NtpResult(t1, t2, t3, t4));
  }

  /** Eight zero bytes are the encoding of the zero timestamp only. */
  lemma ZeroBytesDecodeToZero(b: seq<byte>, ts: NtpTimestamp)
    requires b == EncodeTimestamp(ts)
    requires forall k :: 0 <= k < |b| ==> b[k] == 0
    ensures ts == NtpTimestamp(0, 0)
  {
    assert b == EncodeTimestamp(NtpTimestamp(0, 0));
    EncodeTimestampInjective(ts, NtpTimestamp(0, 0));
  }

  /**
   * A server that timed out, seen through the code as written: its sample has
   * t2 == t3, so its delay is the local wait, and a wait of at least 1 ms is kept
   * and decides the estimate on its own. Waiting out the full one-second timeout
   * gives a 1000 ms delay and a 500 ms offset.
   */
  lemma TimedOutSampleCounts(s: NtpResult)
    requires s.t2 == s.t3 && s.t4 - s.t1 >= NANOS_PER_MILLI
    ensures Delay(s) == MillisTowardZero(s.t4 - s.t1) >= 1 && Offset(s) == Delay(s) / 2
    ensures Kept([s]) == [s] && Estimate([s]) == Finite(Offset(s) as real)
    ensures s.t4 - s.t1 == NANOS_PER_SECOND ==> Delay(s) == 1000 && Offset(s) == 500
  {
    DelayWithoutServerTime(s);
    assert [s][..0] == [];
    EstimateOfSingleServer([s], s);
    assert MillisTowardZero(NANOS_PER_SECOND) == 1000;
  }

  /**
   * `ntp_roundtrip` with the receive outcome honoured: no reply, or a reply
   * shorter than a full message, is a failed exchange; otherwise the sample
   * carries the two timestamps the reply holds at bytes 32..40 and 40..48.
   */
  method Exchange(t1: int, reply: Reply, t4: int, fractionNanos: u32 -> nanos) returns (o: Outcome)
    ensures o.Replied? <==> reply.Datagram? && |reply.bytes| >= NTP_MESSAGE_LENGTH
    ensures o.Replied? ==>
      var rx := DecodeTimestamp(reply.bytes[RECEIVE_TIMESTAMP_AT..TRANSMIT_TIMESTAMP_AT]);
      var tx := DecodeTimestamp(reply.bytes[TRANSMIT_TIMESTAMP_AT..NTP_MESSAGE_LENGTH]);
      o.result == NtpResult(t1, InstantOf(rx.value, fractionNanos), InstantOf(tx.value, fractionNanos), t4)
  {
    if reply.TimedOut? || |reply.bytes| < NTP_MESSAGE_LENGTH {
      return Failed;
    }
    var response := new NtpMessage();
    ghost var b := reply.bytes;
    ghost var blank := response.data[..];
    Receive(response, reply.bytes);
    assert Received(blank, b) == b[..NTP_MESSAGE_LENGTH];
    var rx := response.RxTime();
    var tx := response.TxTime();
    assert response.data[RECEIVE_TIMESTAMP_AT..TRANSMIT_TIMESTAMP_AT] == b[RECEIVE_TIMESTAMP_AT..TRANSMIT_TIMESTAMP_AT];
    assert response.data[TRANSMIT_TIMESTAMP_AT..NTP_MESSAGE_LENGTH] == b[TRANSMIT_TIMESTAMP_AT..NTP_MESSAGE_LENGTH];
    o := Replied(NtpResult(t1, InstantOf(rx.value, fractionNanos), InstantOf(tx.value, fractionNanos), t4));
  }

  /**
   * An exchange, as written, with a server that never answered: `Replied`, with
   * t2 == t3, after the one-second timeout ran out and less than 2 ms more passed.
   */
  predicate WaitedOutTimeout(o: Outcome) {
    o.Replied? && o.result.t2 == o.result.t3 &&
    NANOS_PER_SECOND <= o.result.t4 - o.result.t1 < 1002 * NANOS_PER_MILLI
  }

  /** Such an exchange has a delay of 1000 or 1001 ms and an offset of 500 ms. */
  lemma WaitedOutTimeoutOffset(s: NtpResult)
    requires WaitedOutTimeout(Replied(s))
    ensures 1000 <= Delay(s) <= 1001 && Offset(s) == 500
  {
    TimedOutSampleCounts(s);
  }

  /**
   * As written, a network where no server answers: every exchange comes back as
   * a sample with t2 == t3, each server is waited for about one second, and all
   * five samples are kept and agree on a 500 ms offset, so the clock is stepped
   * the full 40 ms forward.
   */
  lemma NoServerReachableStepsForward(roundtrip: string -> Outcome)
    requires forall k :: 0 <= k < |SERVERS| ==> WaitedOutTimeout(roundtrip(SERVERS[k]))
    ensures |Successes(SERVERS, roundtrip)| == |SERVERS|
    ensures Kept(Successes(SERVERS, roundtrip)) == Successes(SERVERS, roundtrip)
    ensures Estimate(Successes(SERVERS, roundtrip)) == Finite(500.0)
    ensures Adjust(ToIsize(Estimate(Successes(SERVERS, roundtrip)))) == 40
  {
    var times := Successes(SERVERS, roundtrip);
    SuccessesOfAllReplied(SERVERS, roundtrip, |SERVERS|);
    assert SERVERS[..|SERVERS|] == SERVERS;
    forall t | t in times
      ensures Delay(t) != 0 && Offset(t) == 500
    {
      var k :| 0 <= k < |SERVERS| && roundtrip(SERVERS[k]) == Replied(t);
      WaitedOutTimeoutOffset(t);
    }
    KeptAll(times);
    EstimateOfAgreeingSamples(times, 500);
  }

  /** When every server replies, each prefix of the servers collects one sample per server. */
  lemma {:induction false} SuccessesOfAllReplied(servers: seq<string>, roundtrip: string -> Outcome, k: nat)
    requires k <= |servers|
    requires forall j :: 0 <= j < |servers| ==> roundtrip(servers[j]).Replied?
    ensures |Successes(servers[..k], roundtrip)| == k
  {
    if k > 0 {
      SuccessesOfAllReplied(servers, roundtrip, k - 1);
      assert servers[..k][..k - 1] == servers[..k - 1];
    }
  }

  /** Samples whose delays are all non-zero are all kept. */
  lemma {:induction false} KeptAll(times: seq<NtpResult>)
    requires forall t :: t in times ==> Delay(t) != 0
    ensures Kept(times) == times
  {
    if times != [] {
      var init := times[..|times| - 1];
      forall t | t in init
        ensures Delay(t) != 0
      {
        assert t in times;
      }
      KeptAll(init);
      assert times[|times| - 1] in times;
      assert init + [times[|times| - 1]] == times;
    }
  }
}
