/**
 * `NTPMessage`: the fixed 48-byte NTP packet of section 7.3 of RFC 5905, built
 * as a client request and read for the server's receive and transmit timestamps.
 */
module Message {
  import opened Wrappers
  import opened Timestamp

  const NTP_MESSAGE_LENGTH: nat := 48

  /** Where the receive timestamp (the server's arrival time of the request) starts. */
  const RECEIVE_TIMESTAMP_AT: nat := 32

  /** Where the transmit timestamp (the server's departure time of the reply) starts. */
  const TRANSMIT_TIMESTAMP_AT: nat := 40

  /** Version number 3 in bits 3..5 of the first byte. */
  const VERSION: byte := 0x18  // 0b00_011_000

  /** Mode 3 (client) in bits 0..2 of the first byte. */
  const MODE: byte := 0x03  // 0b00_000_011

  function Pow2(n: nat): (p: nat)
    ensures p >= 1
  {
    if n == 0 then 1 else 2 * Pow2(n - 1)
  }

  /** Bit `k` of `x`, counting from 0 at the least significant. */
  predicate Bit(x: nat, k: nat) {
    if k == 0 then x % 2 == 1 else Bit(x / 2, k - 1)
  }

  /** The inclusive or of the low `width` bits of `a` and `b`, built from the least significant bit up. */
  function OrBits(a: nat, b: nat, width: nat): (r: nat)
    requires a < Pow2(width) && b < Pow2(width)
    ensures r < Pow2(width)
    ensures forall k :: 0 <= k < width ==> (Bit(r, k) <==> Bit(a, k) || Bit(b, k))
  {
    if width == 0 then 0
    else
      var low := if a % 2 == 1 || b % 2 == 1 then 1 else 0;
      OrBits(a / 2, b / 2, width - 1) * 2 + low
  }

  /** Rust's `|` on `u8`: each bit of the result is set exactly when it is set in either operand. */
  function BitOr(a: byte, b: byte): (r: byte)
    ensures forall k :: 0 <= k < 8 ==> (Bit(r, k) <==> Bit(a, k) || Bit(b, k))
  {
    assert Pow2(8) == 256;
    OrBits(a, b, 8)
  }

  // The three fields of the first byte: LI (2 bits), VN (3 bits), Mode (3 bits).

  function LeapIndicator(b: byte): int { b / 64 }

  function VersionNumber(b: byte): int { b / 8 % 8 }

  function ModeOf(b: byte): int { b % 8 }

  /** The first byte that carries the given leap indicator, version and mode. */
  function PackHeader(li: int, vn: int, mode: int): (b: byte)
    requires 0 <= li < 4 && 0 <= vn < 8 && 0 <= mode < 8
    ensures LeapIndicator(b) == li && VersionNumber(b) == vn && ModeOf(b) == mode
  {
    li * 64 + vn * 8 + mode
  }

  class NtpMessage {
    var data: array<byte>

    ghost predicate Valid()
      reads this
    {
      data.Length == NTP_MESSAGE_LENGTH
    }

    /** `NTPMessage::new`: 48 zero bytes. */
    constructor ()
      ensures Valid() && fresh(data)
      ensures forall k :: 0 <= k < NTP_MESSAGE_LENGTH ==> data[k] == 0
    {
      data := new byte[NTP_MESSAGE_LENGTH](_ => 0);
    }

    /**
     * `NTPMessage::client`: a zeroed message whose first byte has the version and
     * mode bits or-ed in, giving LI 0, version 3, mode 3 (client).
     */
    constructor Client()
      ensures Valid() && fresh(data)
      ensures data[0] == PackHeader(0, 3, 3) == 0x1B  // 0b00_011_011
      ensures forall k :: 1 <= k < NTP_MESSAGE_LENGTH ==> data[k] == 0
    {
      data := new byte[NTP_MESSAGE_LENGTH](_ => 0);
      new;
      data[0] := BitOr(data[0], VERSION);
      data[0] := BitOr(data[0], MODE);
    }

    /**
     * `parse_timestamp`: a cursor over `data[i..i + 8]` read twice, seconds then
     * fraction. Slicing past the end of the buffer panics in the source, so the
     * caller must keep `i + 8` within the 48 bytes; the two reads then cannot fail.
     */
    method ParseTimestamp(i: nat) returns (r: Result<NtpTimestamp>)
      requires Valid() && i + 8 <= NTP_MESSAGE_LENGTH
      ensures r.Ok? && EncodeTimestamp(r.value) == data[i..i + 8]
      ensures r == DecodeTimestamp(data[i..i + 8])
    {
      var reader := data[i..i + 8];
      var seconds, fraction;
      match ReadU32BigEndian(reader) {
        case Err(e) => return Err(e);
        case Ok((word, rest)) => seconds, reader := word, rest;
      }
      match ReadU32BigEndian(reader) {
        case Err(e) => return Err(e);
        case Ok((word, rest)) => fraction, reader := word, rest;
      }
      r := Ok(NtpTimestamp(seconds, fraction));
    }

    /** `rx_time`: the receive timestamp, bytes 32..40. */
    method RxTime() returns (r: Result<NtpTimestamp>)
      requires Valid()
      ensures r.Ok? && EncodeTimestamp(r.value) == data[RECEIVE_TIMESTAMP_AT..TRANSMIT_TIMESTAMP_AT]
      ensures r == DecodeTimestamp(data[RECEIVE_TIMESTAMP_AT..TRANSMIT_TIMESTAMP_AT])
    {
      r := ParseTimestamp(RECEIVE_TIMESTAMP_AT);
    }

    /** `tx_time`: the transmit timestamp, bytes 40..48. */
    method TxTime() returns (r: Result<NtpTimestamp>)
      requires Valid()
      ensures r.Ok? && EncodeTimestamp(r.value) == data[TRANSMIT_TIMESTAMP_AT..NTP_MESSAGE_LENGTH]
      ensures r == DecodeTimestamp(data[TRANSMIT_TIMESTAMP_AT..NTP_MESSAGE_LENGTH])
    {
      r := ParseTimestamp(TRANSMIT_TIMESTAMP_AT);
    }
  }

  /** A client request carries zero in both timestamps it is read for. */
  method ClientRequestTimestamps() returns (rx: Result<NtpTimestamp>, tx: Result<NtpTimestamp>)
    ensures rx == Ok(NtpTimestamp(0, 0)) && tx == Ok(NtpTimestamp(0, 0))
  {
    var msg := new NtpMessage.Client();
    rx := msg.RxTime();
    tx := msg.TxTime();
    assert msg.data[RECEIVE_TIMESTAMP_AT..TRANSMIT_TIMESTAMP_AT] == EncodeTimestamp(NtpTimestamp(0, 0));
    assert msg.data[TRANSMIT_TIMESTAMP_AT..NTP_MESSAGE_LENGTH] == EncodeTimestamp(NtpTimestamp(0, 0));
    EncodeTimestampInjective(rx.value, NtpTimestamp(0, 0));
    EncodeTimestampInjective(tx.value, NtpTimestamp(0, 0));
  }
}
