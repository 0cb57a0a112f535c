/**
 * The NTP timestamp codec: the 64-bit 32.32 fixed-point format of section 6
 * of RFC 5905, read big-endian from a byte slice, and the conversion of its
 * seconds field between the NTP era (1900-01-01) and the Unix epoch.
 */
module Timestamp {
  import opened Wrappers

  /** Rust's `u8`. */
  type byte = x: int | 0 <= x < 256

  const TWO_32: int := 0x1_0000_0000

  /** Rust's `u32`. */
  type u32 = x: int | 0 <= x < 0x1_0000_0000

  /** Seconds from 1900-01-01T00:00:00Z to 1970-01-01T00:00:00Z (`NTP_TD_UNIX_SECONDS`). */
  const NTP_TO_UNIX_SECONDS: int := 2_208_988_800

  /** `NTPTimeStamp`: whole seconds since the NTP era and a binary fraction (2^32 = one second). */
  datatype NtpTimestamp = NtpTimestamp(seconds: u32, fraction: u32)

  // ---------------------------------------------------------------------------
  // Big-endian 32-bit words

  /**
   * The value of four bytes read most significant first: the first byte is the
   * top eight bits of the word and the last byte the bottom eight.
   */
  function BigEndianU32(b: seq<byte>): (n: u32)
    requires |b| == 4
    ensures n / 0x100_0000 == b[0] && n / 0x1_0000 % 256 == b[1]
    ensures n / 256 % 256 == b[2] && n % 256 == b[3]
  {
    var a0: int, a1: int, a2: int, a3: int := b[0], b[1], b[2], b[3];
    var n2 := a0 * 256 + a1;
    var n1 := n2 * 256 + a2;
    ByteSplit(n1 * 256 + a3, n1, a3);
    ByteSplit(n1, n2, a2);
    ByteSplit(n2, a0, a1);
    n1 * 256 + a3
  }

  /** The four bytes that hold `n` most significant first (the writer's side of the format). */
  function U32ToBigEndian(n: u32): (b: seq<byte>)
    ensures |b| == 4
  {
    var n1 := n / 256;
    var n2 := n1 / 256;
    [n2 / 256, n2 % 256, n1 % 256, n % 256]
  }

  /** Splitting off the low byte: `x` is `q` bytes-shifted plus `r` exactly when `q, r` are its quotient and remainder. */
  lemma ByteSplit(x: int, q: int, r: int)
    requires 0 <= r < 256
    ensures x == q * 256 + r <==> x / 256 == q && x % 256 == r
  {
  }

  lemma BigEndianOfEncoding(n: u32)
    ensures BigEndianU32(U32ToBigEndian(n)) == n
  {
    var n1 := n / 256;
    var n2 := n1 / 256;
    ByteSplit(n, n1, n % 256);
    ByteSplit(n1, n2, n1 % 256);
    ByteSplit(n2, n2 / 256, n2 % 256);
    assert n1 < 0x100_0000 && n2 < 0x1_0000 && n2 / 256 < 256;
    var b := U32ToBigEndian(n);
    var a0: int, a1: int, a2: int, a3: int := b[0], b[1], b[2], b[3];
    assert a0 == n2 / 256 && a1 == n2 % 256 && a2 == n1 % 256 && a3 == n % 256;
    assert a0 * 256 + a1 == n2;
    assert (a0 * 256 + a1) * 256 + a2 == n1;
  }

  lemma EncodingOfBigEndian(b: seq<byte>)
    requires |b| == 4
    ensures U32ToBigEndian(BigEndianU32(b)) == b
  {
    var n := BigEndianU32(b);
    var a0: int, a1: int, a2: int, a3: int := b[0], b[1], b[2], b[3];
    var n2 := a0 * 256 + a1;
    var n1 := n2 * 256 + a2;
    assert n == n1 * 256 + a3;
    ByteSplit(n, n1, a3);
    ByteSplit(n1, n2, a2);
    ByteSplit(n2, a0, a1);
    var e := U32ToBigEndian(n);
    assert e[0] == a0 && e[1] == a1 && e[2] == a2 && e[3] == a3;
    assert e[0] == b[0] && e[1] == b[1] && e[2] == b[2] && e[3] == b[3];
  }

  /** The encoding is one-to-one: distinct words never share their four bytes. */
  lemma U32ToBigEndianInjective(m: u32, n: u32)
    ensures U32ToBigEndian(m) == U32ToBigEndian(n) <==> m == n
  {
    if U32ToBigEndian(m) == U32ToBigEndian(n) {
      BigEndianOfEncoding(m);
      BigEndianOfEncoding(n);
    }
  }

  /**
   * `byteorder`'s `read_u32::<BigEndian>` on a slice cursor: it fails when fewer
   * than four bytes remain and otherwise yields the word and the rest of the slice.
   */
  function ReadU32BigEndian(reader: seq<byte>): (r: Result<(u32, seq<byte>)>)
    ensures r.Ok? <==> |reader| >= 4
    ensures r.Ok? ==> reader == U32ToBigEndian(r.value.0) + r.value.1
  {
    if |reader| < 4 then Err(UnexpectedEof)
    else
      EncodingOfBigEndian(reader[..4]);
      assert reader == reader[..4] + reader[4..];
      Ok((BigEndianU32(reader[..4]), reader[4..]))
  }

  // ---------------------------------------------------------------------------
  // 64-bit timestamps

  /** The eight bytes of a timestamp on the wire: seconds, then fraction, each big-endian. */
  function EncodeTimestamp(ts: NtpTimestamp): (b: seq<byte>)
    ensures |b| == 8
  {
    U32ToBigEndian(ts.seconds) + U32ToBigEndian(ts.fraction)
  }

  /** Two successive big-endian reads from a slice, as `parse_timestamp` does them. */
  function DecodeTimestamp(reader: seq<byte>): (r: Result<NtpTimestamp>)
    ensures r.Ok? <==> |reader| >= 8
    ensures r.Ok? ==> reader[..8] == EncodeTimestamp(r.value)
  {
    var first :- ReadU32BigEndian(reader);
    var second :- ReadU32BigEndian(first.1);
    Ok(NtpTimestamp(first.0, second.0))
  }

  /** Decoding reads back any encoded timestamp, whatever bytes follow it. */
  lemma DecodeEncodeTimestamp(ts: NtpTimestamp, rest: seq<byte>)
    ensures DecodeTimestamp(EncodeTimestamp(ts) + rest) == Ok(ts)
  {
    var b := EncodeTimestamp(ts) + rest;
    var r := DecodeTimestamp(b);
    assert b[..8] == EncodeTimestamp(ts);
    EncodeTimestampInjective(r.value, ts);
  }

  /** Decoding sees only the first eight bytes: equal prefixes decode alike. */
  lemma DecodeTimestampDeterministic(a: seq<byte>, b: seq<byte>)
    requires |a| >= 8 && |b| >= 8 && a[..8] == b[..8]
    ensures DecodeTimestamp(a) == DecodeTimestamp(b)
  {
    var ra, rb := DecodeTimestamp(a), DecodeTimestamp(b);
    EncodeTimestampInjective(ra.value, rb.value);
  }

  lemma EncodeTimestampInjective(s: NtpTimestamp, t: NtpTimestamp)
    ensures EncodeTimestamp(s) == EncodeTimestamp(t) <==> s == t
  {
    if EncodeTimestamp(s) == EncodeTimestamp(t) {
      var es, et := EncodeTimestamp(s), EncodeTimestamp(t);
      assert es[..4] == U32ToBigEndian(s.seconds) && et[..4] == U32ToBigEndian(t.seconds);
      assert es[4..] == U32ToBigEndian(s.fraction) && et[4..] == U32ToBigEndian(t.fraction);
      U32ToBigEndianInjective(s.seconds, t.seconds);
      U32ToBigEndianInjective(s.fraction, t.fraction);
    }
  }

  // ---------------------------------------------------------------------------
  // Seconds field <-> Unix seconds

  /** The seconds arithmetic of `From<NTPTimeStamp> for DateTime<Utc>`. */
  function ToUnixSeconds(seconds: u32): (unix: int)
    ensures -NTP_TO_UNIX_SECONDS <= unix < TWO_32 - NTP_TO_UNIX_SECONDS
  {
    seconds - NTP_TO_UNIX_SECONDS
  }

  /**
   * The seconds arithmetic of `From<DateTime<Utc>> for NTPTimeStamp`: shift to the
   * NTP era, then `as u32`, which keeps the low 32 bits (wraps modulo 2^32).
   */
  function FromUnixSeconds(unix: int): (seconds: u32)
    ensures (unix + NTP_TO_UNIX_SECONDS - seconds) % TWO_32 == 0
  {
    (unix + NTP_TO_UNIX_SECONDS) % TWO_32
  }

  /** Every seconds field survives the trip to Unix time and back. */
  lemma SecondsRoundTrip(seconds: u32)
    ensures FromUnixSeconds(ToUnixSeconds(seconds)) == seconds
  {
  }

  /** A Unix time survives the trip exactly when it lies in the current NTP era (1900 to 2036). */
  lemma UnixRoundTrip(unix: int)
    ensures ToUnixSeconds(FromUnixSeconds(unix)) == unix
        <==> -NTP_TO_UNIX_SECONDS <= unix < TWO_32 - NTP_TO_UNIX_SECONDS
  {
  }

  /** Unix times one NTP era (2^32 seconds) apart share their seconds field. */
  lemma FromUnixSecondsEraWrap(unix: int)
    ensures FromUnixSeconds(unix + TWO_32) == FromUnixSeconds(unix)
  {
    var x := unix + NTP_TO_UNIX_SECONDS;
    var q, r := x / TWO_32, x % TWO_32;
    EraSplit(x, q, r);
    EraSplit(x + TWO_32, q + 1, r);
  }

  /** `x` is `q` whole eras plus `r` exactly when `q, r` are its quotient and remainder by 2^32. */
  lemma EraSplit(x: int, q: int, r: int)
    requires 0 <= r < TWO_32
    ensures x == q * TWO_32 + r <==> x / TWO_32 == q && x % TWO_32 == r
  {
  }

  /** The conversion keeps the order of instants. */
  lemma ToUnixSecondsMonotone(a: u32, b: u32)
    ensures a < b <==> ToUnixSeconds(a) < ToUnixSeconds(b)
  {
  }

  /** NTP second 2_208_988_800 + 1_000_000_000 is Unix second 1_000_000_000, and back. */
  lemma BillionthUnixSecond()
    ensures ToUnixSeconds(NTP_TO_UNIX_SECONDS + 1_000_000_000) == 1_000_000_000
    ensures FromUnixSeconds(1_000_000_000) == NTP_TO_UNIX_SECONDS + 1_000_000_000
  {
  }
}
