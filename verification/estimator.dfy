/**
 * The offset estimator of `check_time`: per-sample delay and offset, the loop
 * that keeps the servers that answered, the loop that drops samples whose
 * weight is not finite, and the weighted mean of what is left.
 *
 * Instants are integer nanoseconds since the Unix epoch (chrono's resolution).
 * Offsets and weights are `f64` in the source; here they are `real`, an exact
 * idealisation of the floating-point arithmetic.
 */
module Estimator {

  const NANOS_PER_MILLI: int := 1_000_000

  function Abs(x: int): nat {
    if x < 0 then -x else x
  }

  /** chrono's `Duration::num_milliseconds`: whole milliseconds, truncated toward zero. */
  function MillisTowardZero(ns: int): (ms: int)
    ensures Abs(ms) * NANOS_PER_MILLI <= Abs(ns) < (Abs(ms) + 1) * NANOS_PER_MILLI
    ensures (ms > 0 ==> ns > 0) && (ms < 0 ==> ns < 0)
  {
    if ns >= 0 then ns / NANOS_PER_MILLI else -((-ns) / NANOS_PER_MILLI)
  }

  /** Truncation toward zero treats a duration and its negation alike. */
  lemma MillisTowardZeroOdd(ns: int)
    ensures MillisTowardZero(-ns) == -MillisTowardZero(ns)
  {
  }

  // ---------------------------------------------------------------------------
  // One exchange

  /**
   * `NTPResult`: t1 local send, t2 server receive, t3 server transmit, t4 local
   * receive, each in nanoseconds since the Unix epoch.
   */
  datatype NtpResult = NtpResult(t1: int, t2: int, t3: int, t4: int)

  /** The round trip of section 8 of RFC 5905, (t4 - t1) - (t3 - t2), in nanoseconds. */
  function RoundTripNanos(s: NtpResult): int {
    (s.t4 - s.t1) - (s.t3 - s.t2)
  }

  /** `NTPResult::delay`: the round trip in whole milliseconds, truncated toward zero. */
  function Delay(s: NtpResult): (d: int)
    ensures Abs(d) * NANOS_PER_MILLI <= Abs(RoundTripNanos(s)) < (Abs(d) + 1) * NANOS_PER_MILLI
    ensures (d > 0 ==> RoundTripNanos(s) > 0) && (d < 0 ==> RoundTripNanos(s) < 0)
  {
    MillisTowardZero(RoundTripNanos(s))
  }

  /** `NTPResult::offset`: half the magnitude of the delay, in integer division. */
  function Offset(s: NtpResult): (o: nat)
    ensures 2 * o <= Abs(Delay(s)) <= 2 * o + 1
  {
    Abs(Delay(s)) / 2
  }

  /**
   * With no time spent at the server, the delay is the local round trip; when the
   * local clock did not step back meanwhile, the offset is its half.
   */
  lemma DelayWithoutServerTime(s: NtpResult)
    requires s.t2 == s.t3
    ensures Delay(s) == MillisTowardZero(s.t4 - s.t1)
    ensures s.t1 <= s.t4 ==> Delay(s) >= 0 && Offset(s) == Delay(s) / 2
  {
  }

  /** The delay does not see how far the server clock is from the local one. */
  lemma DelayIgnoresServerClock(s: NtpResult, skew: int)
    ensures Delay(NtpResult(s.t1, s.t2 + skew, s.t3 + skew, s.t4)) == Delay(s)
  {
    assert RoundTripNanos(NtpResult(s.t1, s.t2 + skew, s.t3 + skew, s.t4)) == RoundTripNanos(s);
  }

  /** The exchange seen backwards: local and server instants swapped end for end. */
  function Mirrored(s: NtpResult): NtpResult {
    NtpResult(s.t4, s.t3, s.t2, s.t1)
  }

  /** A mirrored exchange has the opposite delay and the same offset: the offset is blind to sign. */
  lemma OffsetIgnoresDelaySign(s: NtpResult)
    ensures Delay(Mirrored(s)) == -Delay(s)
    ensures Offset(Mirrored(s)) == Offset(s)
  {
    assert RoundTripNanos(Mirrored(s)) == -RoundTripNanos(s);
    MillisTowardZeroOdd(RoundTripNanos(s));
  }

  // ---------------------------------------------------------------------------
  // Collecting the servers that answered

  /** What `ntp_roundtrip` gave for one server. */
  datatype Outcome = Replied(result: NtpResult) | Failed

  /** The servers `check_time` asks, in order. */
  const SERVERS: seq<string> := [
    "time.nist.gov",
    "time.apple.com",
    "time.euro.apple.com",
    "time.google.com",
    "time2.google.com"
  ]

  /** The samples of the servers that replied, in server order. */
  function Successes(servers: seq<string>, roundtrip: string -> Outcome): (times: seq<NtpResult>)
    ensures |times| <= |servers|
    ensures forall s :: s in times ==> exists k :: 0 <= k < |servers| && roundtrip(servers[k]) == Replied(s)
    ensures forall k :: 0 <= k < |servers| && roundtrip(servers[k]).Replied? ==> roundtrip(servers[k]).result in times
  {
    if servers == [] then []
    else
      var init := Successes(servers[..|servers| - 1], roundtrip);
      match roundtrip(servers[|servers| - 1])
      case Replied(time) => init + [time]
      case Failed => init
  }

  /** Collecting over two runs of servers is collecting over each in turn: server order is kept. */
  lemma {:induction false} SuccessesAppend(a: seq<string>, b: seq<string>, roundtrip: string -> Outcome)
    ensures Successes(a + b, roundtrip) == Successes(a, roundtrip) + Successes(b, roundtrip)
    decreases |b|
  {
    if b == [] {
      assert a + b == a;
    } else {
      var b' := b[..|b| - 1];
      assert (a + b)[..|a + b| - 1] == a + b';
      assert (a + b)[|a + b| - 1] == b[|b| - 1];
      SuccessesAppend(a, b', roundtrip);
    }
  }

  /**
   * The first loop of `check_time`: ask each server in turn and keep the
   * result of every exchange that succeeded.
   */
  method CollectSamples(servers: seq<string>, roundtrip: string -> Outcome) returns (times: seq<NtpResult>)
    ensures times == Successes(servers, roundtrip)
  {
    times := [];
    for i := 0 to |servers|
      invariant times == Successes(servers[..i], roundtrip)
    {
      assert servers[..i + 1][..i] == servers[..i];
      var outcome := roundtrip(servers[i]);
      match outcome {
        case Replied(time) => times := times + [time];
        case Failed =>
      }
    }
    assert servers[..|servers|] == servers;
  }

  // ---------------------------------------------------------------------------
  // Dropping samples whose weight is not finite

  /**
   * `(1_000_000.0 / (delay * delay)).is_finite()`: the weight is a number exactly
   * when the delay is not 0; a zero delay divides by zero and gives an infinity.
   */
  function WeightIsFinite(delay: int): (finite: bool)
    ensures finite <==> delay != 0
  {
    Divide(1_000_000.0, (delay * delay) as real).Finite?
  }

  /** The weight `1e6 / delay²` of a sample with a finite weight. */
  function Weight(delay: int): (w: real)
    requires WeightIsFinite(delay)
    ensures 0.0 < w <= 1_000_000.0
  {
    1_000_000.0 / ((delay * delay) as real)
  }

  /** The samples the second loop keeps, in order. */
  function Kept(times: seq<NtpResult>): (kept: seq<NtpResult>)
    ensures |kept| <= |times|
    ensures forall s :: s in kept ==> s in times && WeightIsFinite(Delay(s))
    ensures forall s :: s in times && WeightIsFinite(Delay(s)) ==> s in kept
  {
    if times == [] then []
    else
      var init := Kept(times[..|times| - 1]);
      var time := times[|times| - 1];
      if WeightIsFinite(Delay(time)) then init + [time] else init
  }

  function OffsetsOf(kept: seq<NtpResult>): (offsets: seq<real>)
    ensures |offsets| == |kept|
  {
    seq(|kept|, k requires 0 <= k < |kept| => Offset(kept[k]) as real)
  }

  function WeightsOf(kept: seq<NtpResult>): (weights: seq<real>)
    requires forall s :: s in kept ==> WeightIsFinite(Delay(s))
    ensures |weights| == |kept|
  {
    seq(|kept|, k requires 0 <= k < |kept| => Weight(Delay(kept[k])))
  }

  /**
   * The second loop of `check_time`: for every sample whose weight is finite,
   * push its offset and its weight together.
   */
  method FilterSamples(times: seq<NtpResult>) returns (offsets: seq<real>, offsetWeights: seq<real>)
    ensures |offsets| == |offsetWeights| <= |times|
    ensures offsets == OffsetsOf(Kept(times)) && offsetWeights == WeightsOf(Kept(times))
  {
    offsets, offsetWeights := [], [];
    for i := 0 to |times|
      invariant offsets == OffsetsOf(Kept(times[..i]))
      invariant offsetWeights == WeightsOf(Kept(times[..i]))
    {
      var time := times[i];
      KeptStep(times, i);
      var offset := Offset(time) as real;
      var delay := Delay(time);
      if WeightIsFinite(delay) {
        var weight := Weight(delay);
        PairsSnoc(Kept(times[..i]), time);
        offsets := offsets + [offset];
        offsetWeights := offsetWeights + [weight];
      }
    }
    assert times[..|times|] == times;
  }

  /** One more sample of the input is one more kept sample, or none. */
  lemma KeptStep(times: seq<NtpResult>, i: nat)
    requires i < |times|
    ensures Kept(times[..i + 1]) ==
      Kept(times[..i]) + if WeightIsFinite(Delay(times[i])) then [times[i]] else []
  {
    assert times[..i + 1][..i] == times[..i];
  }

  /** Keeping one more sample appends its offset and its weight. */
  lemma PairsSnoc(kept: seq<NtpResult>, s: NtpResult)
    requires forall t :: t in kept ==> WeightIsFinite(Delay(t))
    requires WeightIsFinite(Delay(s))
    ensures OffsetsOf(kept + [s]) == OffsetsOf(kept) + [Offset(s) as real]
    ensures WeightsOf(kept + [s]) == WeightsOf(kept) + [Weight(Delay(s))]
  {
  }

  /** A sample whose delay truncates to 0 ms never reaches the weighted mean. */
  lemma ZeroDelayDropped(times: seq<NtpResult>, s: NtpResult)
    requires Delay(s) == 0
    ensures s !in Kept(times)
  {
  }

  // ---------------------------------------------------------------------------
  // Weighted mean

  /** An `f64` outcome of a division: a finite value, NaN, or an infinity of either sign. */
  datatype F64 = Finite(value: real) | NaN | Infinite(negative: bool)

  /** IEEE division with the exact quotient standing in for the rounded one. */
  function Divide(a: real, b: real): (q: F64)
    ensures q.Finite? <==> b != 0.0
    ensures q.Finite? ==> q.value * b == a
  {
    if b != 0.0 then Finite(a / b)
    else if a == 0.0 then NaN
    else Infinite(a < 0.0)
  }

  function Min(a: int, b: int): int {
    if a <= b then a else b
  }

  /** The sum of `values[k] * weights[k]` for `k < n`. */
  function WeightedSum(values: seq<real>, weights: seq<real>, n: nat): real
    requires n <= |values| && n <= |weights|
  {
    if n == 0 then 0.0 else WeightedSum(values, weights, n - 1) + values[n - 1] * weights[n - 1]
  }

  /** The sum of `weights[k]` for `k < n`. */
  function WeightTotal(weights: seq<real>, n: nat): real
    requires n <= |weights|
  {
    if n == 0 then 0.0 else WeightTotal(weights, n - 1) + weights[n - 1]
  }

  /** The weighted mean over the pairs `zip` yields (as many as the shorter sequence holds). */
  function MeanOf(values: seq<real>, weights: seq<real>): F64 {
    var n := Min(|values|, |weights|);
    Divide(WeightedSum(values, weights, n), WeightTotal(weights, n))
  }

  /** `weighted_mean`: accumulate `v * w` and `w` over the zipped pairs, then divide. */
  method WeightedMean(values: seq<real>, weights: seq<real>) returns (m: F64)
    ensures m == MeanOf(values, weights)
  {
    var result := 0.0;
    var sumOfWeights := 0.0;
    var n := Min(|values|, |weights|);
    for i := 0 to n
      invariant result == WeightedSum(values, weights, i)
      invariant sumOfWeights == WeightTotal(weights, i)
    {
      var v, w := values[i], weights[i];
      result := result + v * w;
      sumOfWeights := sumOfWeights + w;
    }
    m := Divide(result, sumOfWeights);
  }

  /** With no pairs the mean is 0.0 / 0.0, NaN. */
  lemma MeanOfNothing(values: seq<real>, weights: seq<real>)
    requires values == [] || weights == []
    ensures MeanOf(values, weights) == NaN
  {
  }

  /** Positive weights keep both sums between the bounds of the values. */
  lemma {:induction false} SumsBetweenBounds(values: seq<real>, weights: seq<real>, n: nat, lo: real, hi: real)
    requires n <= |values| && n <= |weights|
    requires forall k :: 0 <= k < n ==> weights[k] > 0.0 && lo <= values[k] <= hi
    ensures n > 0 ==> WeightTotal(weights, n) > 0.0
    ensures lo * WeightTotal(weights, n) <= WeightedSum(values, weights, n) <= hi * WeightTotal(weights, n)
  {
    if n > 0 {
      SumsBetweenBounds(values, weights, n - 1, lo, hi);
      var v, w := values[n - 1], weights[n - 1];
      assert lo * w <= v * w <= hi * w;
    }
  }

  /** With positive weights the mean of at least one pair is finite and lies between the least and greatest value. */
  lemma MeanBetweenBounds(values: seq<real>, weights: seq<real>, lo: real, hi: real)
    requires 0 < |values| == |weights|
    requires forall k :: 0 <= k < |values| ==> weights[k] > 0.0 && lo <= values[k] <= hi
    ensures MeanOf(values, weights).Finite?
    ensures lo <= MeanOf(values, weights).value <= hi
  {
    var n := |values|;
    SumsBetweenBounds(values, weights, n, lo, hi);
    var s, t := WeightedSum(values, weights, n), WeightTotal(weights, n);
    QuotientBetween(s, t, lo, hi);
  }

  lemma QuotientBetween(s: real, t: real, lo: real, hi: real)
    requires t > 0.0 && lo * t <= s <= hi * t
    ensures lo <= s / t <= hi
  {
  }

  // ---------------------------------------------------------------------------
  // check_time

  /**
   * The estimate `check_time` returns for the samples of the servers that
   * answered: a number exactly when some sample survived the filter, and
   * otherwise NaN, never an infinity.
   */
  function Estimate(times: seq<NtpResult>): (e: F64)
    ensures e.Finite? <==> Kept(times) != []
    ensures Kept(times) == [] ==> e == NaN
  {
    var kept := Kept(times);
    KeptMeanFinite(kept);
    MeanOf(OffsetsOf(kept), WeightsOf(kept))
  }

  /** The weighted mean of some kept samples is a number exactly when there is one. */
  lemma KeptMeanFinite(kept: seq<NtpResult>)
    requires forall s :: s in kept ==> WeightIsFinite(Delay(s))
    ensures MeanOf(OffsetsOf(kept), WeightsOf(kept)).Finite? <==> kept != []
  {
    if kept != [] {
      var offsets, weights := OffsetsOf(kept), WeightsOf(kept);
      forall k | 0 <= k < |offsets|
        ensures weights[k] > 0.0 && 0.0 <= offsets[k] <= MaxOffset(kept) as real
      {
        assert kept[k] in kept;
      }
      MeanBetweenBounds(offsets, weights, 0.0, MaxOffset(kept) as real);
    }
  }

  /**
   * `check_time`: collect, filter, average. The source wraps the mean in an
   * `Ok` it never fails to return, so the model returns the mean itself.
   */
  method CheckTime(roundtrip: string -> Outcome) returns (avgOffset: F64)
    ensures avgOffset == Estimate(Successes(SERVERS, roundtrip))
  {
    var times := CollectSamples(SERVERS, roundtrip);
    var offsets, offsetWeights := FilterSamples(times);
    avgOffset := WeightedMean(offsets, offsetWeights);
  }

  /** The largest offset among some samples (0 for none). */
  function MaxOffset(samples: seq<NtpResult>): (m: nat)
    ensures forall s :: s in samples ==> Offset(s) <= m
  {
    if samples == [] then 0
    else
      var rest := MaxOffset(samples[1..]);
      if Offset(samples[0]) > rest then Offset(samples[0]) else rest
  }

  /** A finite estimate is never negative and never above the largest kept offset. */
  lemma EstimateWithinOffsets(times: seq<NtpResult>, hi: real)
    requires forall s :: s in Kept(times) ==> Offset(s) as real <= hi
    ensures Estimate(times).Finite? ==> 0.0 <= Estimate(times).value <= hi
  {
    var kept := Kept(times);
    if kept != [] {
      var offsets, weights := OffsetsOf(kept), WeightsOf(kept);
      forall k | 0 <= k < |offsets|
        ensures weights[k] > 0.0 && 0.0 <= offsets[k] <= hi
      {
        assert kept[k] in kept;
      }
      MeanBetweenBounds(offsets, weights, 0.0, hi);
    }
  }

  /** When every kept sample reports the same offset, that offset is the estimate. */
  lemma EstimateOfAgreeingSamples(times: seq<NtpResult>, c: nat)
    requires Kept(times) != []
    requires forall s :: s in Kept(times) ==> Offset(s) == c
    ensures Estimate(times) == Finite(c as real)
  {
    var kept := Kept(times);
    var offsets, weights := OffsetsOf(kept), WeightsOf(kept);
    forall k | 0 <= k < |offsets|
      ensures weights[k] > 0.0 && c as real <= offsets[k] <= c as real
    {
      assert kept[k] in kept;
    }
    MeanBetweenBounds(offsets, weights, c as real, c as real);
  }

  /** A single usable server decides the estimate on its own. */
  lemma EstimateOfSingleServer(times: seq<NtpResult>, s: NtpResult)
    requires Kept(times) == [s]
    ensures Estimate(times) == Finite(Offset(s) as real)
  {
    EstimateOfAgreeingSamples(times, Offset(s));
  }
}
