# NTP offset check of clock_cli, modelled in Dafny

`clock_cli` is a command-line clock utility. Its `check-ntp` mode asks five
public NTP servers for the time and turns each answer into a per-server
delay and offset. It then averages the offsets, weighting each by the
inverse square of its delay. Finally it steps the system clock by a capped
fraction of that average. This project models that path of `src/main.rs` and
proves properties about it:

- `wrappers.dfy` (module `Wrappers`): the `Result<T, std::io::Error>` that the byte reader returns.
- `timestamp.dfy` (module `Timestamp`): the 64-bit 32.32 timestamp of section 6 of RFC 5905. It is read
  with `byteorder`'s big-endian `read_u32` from a slice cursor. The module also holds the seconds arithmetic
  of the two `From` conversions between NTP seconds (since 1900) and Unix seconds.
- `message.dfy` (module `Message`): `NTPMessage` as a class over a 48-byte array
  (section 7.3 of RFC 5905). Covers `new`, `client`, `parse_timestamp`, `rx_time` and `tx_time`.
- `estimator.dfy` (module `Estimator`): `NTPResult` with four instants in integer nanoseconds.
  Covers `delay`, `offset`, the two loops of `check_time`, and `weighted_mean` over `real`.
- `adjustment.dfy` (module `Adjustment`): `match_check_ntp`. It casts the mean to `isize`, caps and
  scales it, and computes the instant handed to `Clock::set`.
- `roundtrip.dfy` (module `Roundtrip`): the decoding half of `ntp_roundtrip`, with the reply as a
  parameter. It has the code as written and a corrected version (see Findings).

Integer semantics are written out where they matter:
- `as u32` keeps the value modulo 2^32.
- chrono's `num_milliseconds` and Rust's integer `/` truncate toward zero.
- `f64 as isize` truncates toward zero, saturates, and sends NaN to 0.

The model keeps these behaviours of the code:
- The fraction-to-nanosecond conversion is a parameter of the model, not computed. The model keeps one
  consequence of the code's truncating `as u32`: the nanoseconds stay below 10^9. Rounding to nearest
  would break that bound for the fractions 2^32 − 2 and 2^32 − 1, which would give 10^9 ns.
- `parse_timestamp` always slices exactly 8 bytes of the 48, so its reads never run short.
- The offset is `|delay| / 2`, not the clock offset ((t2 − t1) + (t3 − t4)) / 2 of section 8 of RFC 5905. So every estimate is ≥ 0, and
  `MatchCheckNtp` proves that the clock is only ever moved forward, by 0 to 40 ms.
- With no usable sample, the mean is NaN. The cast turns NaN into 0, so the clock is still set,
  to the present time; `check_time` returns `Ok` in every case.

## Model

| member | source | states |
|---|---|---|
| `Timestamp.BigEndianU32` | src/main.rs:98-99 | the value `read_u32` computes: the first byte is the word's top eight bits, the second and third the middle ones, the last byte its bottom eight |
| `Timestamp.BigEndianOfEncoding` | src/main.rs:98-99 | reading four bytes big-endian gives back the word they encode |
| `Timestamp.EncodingOfBigEndian` | src/main.rs:98-99 | every four bytes are the big-endian encoding of the word read from them |
| `Timestamp.U32ToBigEndianInjective` | src/main.rs:98-99 | distinct words never share an encoding |
| `Timestamp.ReadU32BigEndian` | src/main.rs:97-99 | `read_u32` succeeds exactly when 4 bytes remain; the slice is then the word's encoding followed by the rest |
| `Timestamp.DecodeTimestamp` | src/main.rs:96-105 | two reads succeed exactly when 8 bytes are present; the first 8 bytes are the encoding of the (seconds, fraction) result |
| `Timestamp.DecodeEncodeTimestamp` | src/main.rs:96-105 | decoding an encoded timestamp returns it, whatever follows |
| `Timestamp.DecodeTimestampDeterministic` | src/main.rs:96-105 | the result depends only on the first 8 bytes |
| `Timestamp.EncodeTimestampInjective` | src/main.rs:96-105 | two timestamps with the same 8 bytes are equal |
| `Timestamp.ToUnixSeconds` | src/main.rs:52-54 | NTP seconds minus 2,208,988,800 lies in [−2,208,988,800, 2^32 − 2,208,988,800) |
| `Timestamp.FromUnixSeconds` | src/main.rs:63-72 | the u32 result is congruent to Unix seconds + 2,208,988,800 modulo 2^32 |
| `Timestamp.SecondsRoundTrip` | src/main.rs:52-75 | every u32 seconds field survives NTP → Unix → NTP |
| `Timestamp.UnixRoundTrip` | src/main.rs:52-75 | a Unix second survives Unix → NTP → Unix if and only if it lies in the 1900–2036 era |
| `Timestamp.FromUnixSecondsEraWrap` | src/main.rs:65-72 | Unix seconds 2^32 apart get the same NTP seconds (the `as u32` wrap) |
| `Timestamp.ToUnixSecondsMonotone` | src/main.rs:54 | the conversion keeps and reflects the order of seconds |
| `Timestamp.BillionthUnixSecond` | src/main.rs:19-72 | NTP second 2,208,988,800 + 10^9 is Unix second 10^9, both ways |
| `Message.BitOr` | src/main.rs:90-91 | `\|=` on a byte: each bit of the result is set exactly when it is set in either operand |
| `Message.PackHeader` | src/main.rs:84-91 | the first byte carries LI in bits 6–7, VN in bits 3–5, Mode in bits 0–2, each read back unchanged |
| `Message.NtpMessage.constructor` | src/main.rs:79-83 | `new` yields a fresh buffer of 48 zero bytes |
| `Message.NtpMessage.Client` | src/main.rs:84-94 | byte 0 is 0b00_011_011 (LI 0, VN 3, Mode 3) and bytes 1..48 are zero |
| `Message.NtpMessage.ParseTimestamp` | src/main.rs:96-105 | for any offset whose 8 bytes fit in the buffer the read succeeds, and those bytes are the encoding of the result |
| `Message.NtpMessage.RxTime` | src/main.rs:107-109 | succeeds, and returns the timestamp encoded at bytes 32..40 |
| `Message.NtpMessage.TxTime` | src/main.rs:111-113 | succeeds, and returns the timestamp encoded at bytes 40..48 |
| `Message.ClientRequestTimestamps` | src/main.rs:84-113 | a client request reads back zero in both its receive and transmit timestamps |
| `Estimator.MillisTowardZero` | src/main.rs:48 | the result's magnitude is the whole milliseconds in the duration, with the duration's sign |
| `Estimator.MillisTowardZeroOdd` | src/main.rs:48 | negating a duration negates its milliseconds |
| `Estimator.Delay` | src/main.rs:46-49 | the delay is (t4 − t1) − (t3 − t2) in whole milliseconds, truncated toward zero |
| `Estimator.Offset` | src/main.rs:41-44 | the offset is a natural number `o` with 2·o ≤ \|delay\| ≤ 2·o + 1 |
| `Estimator.DelayWithoutServerTime` | src/main.rs:41-49 | when t2 = t3 the delay is the local round trip t4 − t1 in ms, for any two wall-clock readings; when also t1 ≤ t4 it is non-negative and the offset is half of it |
| `Estimator.DelayIgnoresServerClock` | src/main.rs:46-49 | shifting both server instants by the same skew leaves the delay unchanged |
| `Estimator.OffsetIgnoresDelaySign` | src/main.rs:41-49 | the mirrored exchange has delay −d and the same offset |
| `Estimator.Successes` | src/main.rs:176-192 | at most one sample per server; a sample is present if and only if some server replied with it |
| `Estimator.SuccessesAppend` | src/main.rs:176-192 | collecting over two runs of servers concatenates the results, so server order is kept |
| `Estimator.CollectSamples` | src/main.rs:176-192 | the first loop pushes exactly the successful exchanges, in server order |
| `Estimator.WeightIsFinite` | src/main.rs:201-203 | `1e6 / (delay * delay)` is finite exactly when the delay is not 0 |
| `Estimator.Weight` | src/main.rs:201 | a finite weight 10^6 / delay² is positive and at most 10^6 |
| `Estimator.Kept` | src/main.rs:197-207 | the samples kept are no more than the input, and a sample is kept if and only if its delay is non-zero |
| `Estimator.FilterSamples` | src/main.rs:194-207 | offsets and weights are pushed together: equal lengths, at most the input's length, each the offset and weight of the kept samples in order |
| `Estimator.ZeroDelayDropped` | src/main.rs:201-206 | a sample whose delay is 0 ms never reaches the mean |
| `Estimator.Divide` | src/main.rs:124 | the quotient is finite exactly when the divisor is non-zero; then quotient × divisor = dividend |
| `Estimator.WeightedMean` | src/main.rs:115-125 | the loop's result is Σ v·w / Σ w over the zipped pairs |
| `Estimator.MeanOfNothing` | src/main.rs:115-125 | with no pairs the mean is NaN (0/0) |
| `Estimator.SumsBetweenBounds` | src/main.rs:119-122 | with positive weights, Σ w > 0 and lo·Σ w ≤ Σ v·w ≤ hi·Σ w |
| `Estimator.MeanBetweenBounds` | src/main.rs:115-125 | with positive weights and at least one pair, the mean is finite and between the least and greatest value |
| `Estimator.CheckTime` | src/main.rs:164-211 | collect, then filter, then average: the result is the weighted mean of the kept samples of the servers that replied |
| `Estimator.Estimate` | src/main.rs:194-210 | the value `check_time` returns is a number if and only if some sample was kept, and NaN otherwise, never an infinity |
| `Estimator.EstimateWithinOffsets` | src/main.rs:194-210 | a finite estimate is never negative and never above the largest kept offset |
| `Estimator.EstimateOfAgreeingSamples` | src/main.rs:194-210 | when all kept samples have offset c, the estimate is exactly c |
| `Estimator.EstimateOfSingleServer` | src/main.rs:194-210 | one usable server alone decides the estimate |
| `Adjustment.Signum` | src/main.rs:460 | `signum` is −1, 0 or 1, is 0 only for 0, and times the offset gives its magnitude |
| `Adjustment.TruncatingDiv` | src/main.rs:460 | Rust's `/`: the magnitude is \|a\| / b and the sign is that of `a` |
| `Adjustment.Adjust` | src/main.rs:460 | the correction lies in [−40, 40], has magnitude min(\|o\|, 200) / 5, and is 0 or has the sign of `o` |
| `Adjustment.AdjustSaturates` | src/main.rs:460 | from \|o\| ≥ 200 on, the correction is exactly ±40 |
| `Adjustment.AdjustDeadZone` | src/main.rs:460 | the correction is 0 if and only if \|o\| < 5 |
| `Adjustment.AdjustOdd` | src/main.rs:460 | opposite offsets get opposite corrections |
| `Adjustment.AdjustMonotone` | src/main.rs:460 | a larger offset never gets a smaller correction |
| `Adjustment.TruncateReal` | src/main.rs:458 | truncation toward zero: magnitude within 1 of \|r\|, no larger, same sign |
| `Adjustment.ToIsize` | src/main.rs:458 | `as isize`: a finite number truncated toward zero, clamped to isize bounds when out of range; ±∞ gives the matching bound; NaN gives 0; a non-negative number gives a non-negative result |
| `Adjustment.MatchCheckNtp` | src/main.rs:457-465 | the new instant is now + Adjust(cast estimate) ms, and lies between now and now + 40 ms |
| `Adjustment.NoSampleNoCorrection` | src/main.rs:457-465 | with no usable sample the correction is 0 |
| `Roundtrip.InstantOf` | src/main.rs:52-60 | the instant's whole Unix second is the NTP second shifted by 2,208,988,800, and its nanoseconds within that second are the fraction's (always under 10^9) |
| `Roundtrip.Received` | src/main.rs:149 | the buffer keeps its length; it holds the datagram's bytes where the datagram reaches, and its old bytes elsewhere |
| `Roundtrip.Receive` | src/main.rs:149 | `recv_from` leaves the buffer as `Received` describes |
| `Roundtrip.RoundtripAsWritten` | src/main.rs:127-162 | as written the exchange always succeeds; t2 and t3 are decoded from bytes 32..40 and 40..48 of the buffer: a full reply's timestamps, a short reply followed by zeros, and with nothing received both equal the zero timestamp's instant, which is exactly the NTP era's start (1900-01-01) when the fraction 0 converts to 0 ns, as it does in the source |
| `Roundtrip.ZeroBytesDecodeToZero` | src/main.rs:96-105 | eight zero bytes decode only to the zero timestamp |
| `Roundtrip.TimedOutSampleCounts` | src/main.rs:147-154 | as written, a server that times out after waiting at least 1 ms gives t2 = t3, a delay of the whole wait, and is kept and decides the estimate alone; a one-second wait gives delay 1000 ms and offset 500 ms |
| `Roundtrip.Exchange` | src/main.rs:127-162 | corrected: the exchange succeeds if and only if a full 48-byte reply arrived; its server instants are the timestamps at bytes 32..40 and 40..48 |
| `Roundtrip.NoServerReachableStepsForward` | src/main.rs:127-211 | as written, when every server's exchange ends with t2 = t3 after a wait of 1 s to 1.002 s, whatever the individual t1 and t4, one sample per server is collected, all are kept with offset 500 ms, the estimate is 500.0 and the clock is stepped 40 ms forward |

## Findings

| source | as written | input that shows it | evidently intended | confidence | as-written member | corrected member |
|---|---|---|---|---|---|---|
| src/main.rs:147-156 | the result of `recv_from` is discarded, so `ntp_roundtrip` returns `Ok` even when nothing arrived; t2 and t3 are decoded from the all-zero buffer | a server that does not answer: t2 = t3 = 1900-01-01, and waiting the full 1 s timeout gives delay 1000 ms and offset 500 ms, kept with weight 1 and averaged in; with all five servers unreachable the clock is stepped 40 ms forward. A short reply (say 10 bytes) leaves bytes 32..48 zero and is decoded and kept the same way | a server with no reply or with less than a full 48-byte message is an `Err`, reported as "response took too long" by the `Err` arm at src/main.rs:188-190 and skipped | high (not executed) | `Roundtrip.RoundtripAsWritten`, `Roundtrip.TimedOutSampleCounts`, `Roundtrip.NoServerReachableStepsForward` | `Roundtrip.Exchange` |

`CheckTime` and `MatchCheckNtp` take each server's outcome as a free parameter, so their
contracts hold for the exchange as written, where every outcome is `Replied`
(`Roundtrip.RoundtripAsWritten`), and for the corrected one (`Roundtrip.Exchange`) alike.

## Left out

- Sockets: binding, connecting, sending, the read timeout, and the panics at src/main.rs:140 and
  src/main.rs:143 are network I/O. The reply and the two local instants t1, t4 (`Utc::now()`) are
  parameters instead.
- The `unwrap`s at src/main.rs:152 and src/main.rs:154 are not modelled as panics, because
  `RxTime` and `TxTime` are proved never to fail.
- Fraction ↔ nanosecond conversion (src/main.rs:55-59 and src/main.rs:66-73): it is `f64` arithmetic
  followed by an `as u32` truncation. `Roundtrip.InstantOf` takes it as a parameter `fractionNanos`.
  The fraction half of `From<DateTime<Utc>>` is not modelled, and neither is the `unwrap` of
  `timestamp_opt`.
- `weighted_mean` and the weights are `f64` in the source and exact `real` here. Rounding, overflow and
  signed zero are not modelled; `Estimator.Divide` keeps only NaN (0/0) and the signed infinities.
- Estimator.WeightIsFinite: decided over exact reals, not IEEE arithmetic. For an `i64` delay the
  `f64` square is at most about 8.5·10^37, far below the largest `f64`, so rounding cannot make a
  non-zero delay's weight infinite.
- Fixed-width overflow is not modelled: instants, durations and offsets are unbounded integers.
  This covers chrono's `Duration` arithmetic panics, `abs()` of `i64::MIN` or `isize::MIN`, and the
  overflow of `Utc::now() + adjust_ms`.
- `Roundtrip.Receive` copies at most 48 bytes and drops the rest of a longer datagram. On Windows the
  buffer is filled the same way and `recv_from` also reports `WSAEMSGSIZE`. `ntp_roundtrip` discards that
  result (src/main.rs:149), so `Received` describes the code as written on both systems. Only the
  discarded error value itself is not modelled.
- `Clock::set` and `Clock::get` (src/main.rs:216-291) call into the operating system.
  `MatchCheckNtp` returns the instant it would hand to `Clock::set`.
- The command-line interface, printing, RFC 2822/3339 formatting and parsing, and `main`'s error report
  (src/main.rs:293-455, src/main.rs:470-495) are user interface and library wrappers.
