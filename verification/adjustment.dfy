/**
 * `match_check_ntp`: turn the estimate into an `isize` number of milliseconds,
 * cap it, scale it down and add it to the current time before it is handed to
 * the clock-setting call.
 */
module Adjustment {
  import opened Estimator

  const ISIZE_MIN: int := -0x8000_0000_0000_0000
  const ISIZE_MAX: int := 0x7FFF_FFFF_FFFF_FFFF

  /** The largest correction considered, in milliseconds, before scaling. */
  const CAP_MS: int := 200

  /** The scaling divisor. */
  const SCALE: int := 5

  /** `isize::signum`: the unit with the sign of `x`, or 0 for 0. */
  function Signum(x: int): (s: int)
    ensures -1 <= s <= 1 && s * x == Abs(x)
    ensures s == 0 <==> x == 0
  {
    if x > 0 then 1 else if x < 0 then -1 else 0
  }

  /** Rust's integer `/`: the quotient truncated toward zero. */
  function TruncatingDiv(a: int, b: int): (q: int)
    requires b > 0
    ensures Abs(q) == Abs(a) / b
    ensures (q > 0 ==> a > 0) && (q < 0 ==> a < 0)
  {
    if a >= 0 then a / b else -((-a) / b)
  }

  /** The adjustment expression: `offset.signum() * offset.abs().min(200) / 5`. */
  function Adjust(offset: int): (adj: int)
    ensures -CAP_MS / SCALE <= adj <= CAP_MS / SCALE
    ensures Abs(adj) == Min(Abs(offset), CAP_MS) / SCALE
    ensures (adj > 0 ==> offset > 0) && (adj < 0 ==> offset < 0)
  {
    TruncatingDiv(Signum(offset) * Min(Abs(offset), CAP_MS), SCALE)
  }

  /** From 200 ms on the correction is a full 40 ms step in the offset's direction. */
  lemma AdjustSaturates(offset: int)
    requires Abs(offset) >= CAP_MS
    ensures Adjust(offset) == 40 * Signum(offset)
  {
  }

  /** Offsets under 5 ms are ignored, and only those. */
  lemma AdjustDeadZone(offset: int)
    ensures Adjust(offset) == 0 <==> Abs(offset) < SCALE
  {
  }

  /** Opposite offsets get opposite corrections. */
  lemma AdjustOdd(offset: int)
    ensures Adjust(-offset) == -Adjust(offset)
  {
  }

  /** A larger offset never gets a smaller correction. */
  lemma AdjustMonotone(a: int, b: int)
    requires a <= b
    ensures Adjust(a) <= Adjust(b)
  {
    if 0 <= a {
      ScaleMonotone(Min(a, CAP_MS), Min(b, CAP_MS));
    } else if b <= 0 {
      ScaleMonotone(Min(-b, CAP_MS), Min(-a, CAP_MS));
    }
  }

  lemma ScaleMonotone(x: nat, y: nat)
    requires x <= y
    ensures x / SCALE <= y / SCALE
  {
  }

  /** A real truncated toward zero, as a float-to-integer cast does. */
  function TruncateReal(r: real): (n: int)
    ensures Abs(n) as real <= (if r < 0.0 then -r else r) < Abs(n) as real + 1.0
    ensures (n > 0 ==> r > 0.0) && (n < 0 ==> r < 0.0)
  {
    if r >= 0.0 then r.Floor else -((-r).Floor)
  }

  /** `f64 as isize`: truncate toward zero and saturate; NaN becomes 0. */
  function ToIsize(x: F64): (n: int)
    ensures ISIZE_MIN <= n <= ISIZE_MAX
    ensures x.NaN? ==> n == 0
    ensures x.Finite? && x.value >= 0.0 ==> n >= 0
    ensures x.Finite? && ISIZE_MIN <= TruncateReal(x.value) <= ISIZE_MAX ==> n == TruncateReal(x.value)
    ensures x.Finite? && TruncateReal(x.value) < ISIZE_MIN ==> n == ISIZE_MIN
    ensures x.Finite? && TruncateReal(x.value) > ISIZE_MAX ==> n == ISIZE_MAX
    ensures x.Infinite? ==> n == if x.negative then ISIZE_MIN else ISIZE_MAX
  {
    match x
    case NaN => 0
    case Infinite(negative) => if negative then ISIZE_MIN else ISIZE_MAX
    case Finite(r) =>
      var t := TruncateReal(r);
      if t < ISIZE_MIN then ISIZE_MIN else if t > ISIZE_MAX then ISIZE_MAX else t
  }

  /**
   * `match_check_ntp` up to the clock-setting call: `now` (nanoseconds since the
   * Unix epoch) is the present time, `roundtrip` the network, and the result the
   * instant handed to `Clock::set`.
   */
  method MatchCheckNtp(now: int, roundtrip: string -> Outcome) returns (newTime: int)
    ensures newTime - now == Adjust(ToIsize(Estimate(Successes(SERVERS, roundtrip)))) * NANOS_PER_MILLI
    ensures now <= newTime <= now + 40 * NANOS_PER_MILLI
  {
    var estimate := CheckTime(roundtrip);
    var offset := ToIsize(estimate);
    var adjustMs := Adjust(offset);
    EstimateWithinOffsets(Successes(SERVERS, roundtrip), MaxOffset(Kept(Successes(SERVERS, roundtrip))) as real);
    newTime := now + adjustMs * NANOS_PER_MILLI;
  }

  /** Without a single usable sample the clock is set to the present time, unchanged. */
  lemma NoSampleNoCorrection(roundtrip: string -> Outcome)
    requires Kept(Successes(SERVERS, roundtrip)) == []
    ensures Adjust(ToIsize(Estimate(Successes(SERVERS, roundtrip)))) == 0
  {
  }
}
