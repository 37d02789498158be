/*
 * The conversion from an RTP timestamp to the sender's NTP clock that the
 * RTCP receiver context offers (ARSTREAM2_RTCP_Receiver_GetNtpTimestampFromRtpTimestamp,
 * src/arstream2_rtcp.h): the linear map ntp = (rtp - b) * den / num, fitted
 * from the sender reports (section 6.4.1 of RFC 3550), rounded to nearest.
 */
module Rtcp {
  import opened CInt

  /** Sizes of the packed RTCP structures of src/arstream2_rtcp.h (section 6.4 of RFC 3550). */
  const SENDER_REPORT_SIZE: int := 28
  const RECEIVER_REPORT_SIZE: int := 8
  const RECEPTION_REPORT_BLOCK_SIZE: int := 24

  /** The fitted clock map of the receiver context: tsAnum, tsAden and tsB (int64 fields). */
  datatype ClockMap = ClockMap(tsAnum: int, tsAden: int, tsB: int)

  /** The int64 numerator of the conversion, before the rounding term. */
  function Scaled(context: ClockMap, rtpTimestamp: u32): int
  {
    (rtpTimestamp as int - context.tsB) * context.tsAden
  }

  /**
   * The NTP timestamp (microseconds) of an RTP timestamp: 0 while the map
   * is not known (a zero coefficient), else the scaled value plus half the
   * divisor, divided with C's truncating division and cast to uint64.
   */
  function NtpFromRtp(context: ClockMap, rtpTimestamp: u32): (r: u64)
    ensures context.tsAnum == 0 || context.tsAden == 0 ==> r == 0
  {
    if context.tsAnum != 0 && context.tsAden != 0 then
      U64(TruncDiv(Scaled(context, rtpTimestamp) + TruncDiv(context.tsAnum, 2), context.tsAnum))
    else
      0
  }

  /** For a non-negative scaled value and a positive divisor the truncations are plain divisions. */
  lemma NtpFromRtpQuotient(context: ClockMap, rtpTimestamp: u32)
    requires context.tsAnum > 0 && context.tsAden != 0 && Scaled(context, rtpTimestamp) >= 0
    requires (Scaled(context, rtpTimestamp) + context.tsAnum / 2) / context.tsAnum < TWO_64
    ensures NtpFromRtp(context, rtpTimestamp) as int ==
      (Scaled(context, rtpTimestamp) + context.tsAnum / 2) / context.tsAnum
  {
    var n, a := Scaled(context, rtpTimestamp), context.tsAnum;
    assert TruncDiv(a, 2) == a / 2;
    assert TruncDiv(n + a / 2, a) == (n + a / 2) / a;
  }

  /**
   * For a non-negative scaled value and a positive divisor the result is the
   * nearest integer to scaled / tsAnum (halves rounding up), as long as it
   * fits in 64 bits.
   */
  lemma NtpFromRtpRoundsToNearest(context: ClockMap, rtpTimestamp: u32)
    requires context.tsAnum > 0 && context.tsAden != 0 && Scaled(context, rtpTimestamp) >= 0
    requires (Scaled(context, rtpTimestamp) + context.tsAnum / 2) / context.tsAnum < TWO_64
    ensures var r, n, a := NtpFromRtp(context, rtpTimestamp) as int, Scaled(context, rtpTimestamp), context.tsAnum;
      r * a - a / 2 <= n < r * a + (a - a / 2)
  {
    NtpFromRtpQuotient(context, rtpTimestamp);
    DivBounds(Scaled(context, rtpTimestamp) + context.tsAnum / 2, context.tsAnum);
  }

  /** With positive coefficients a later RTP timestamp never maps to an earlier NTP time (before 64-bit wrap). */
  lemma NtpFromRtpMonotonic(context: ClockMap, t1: u32, t2: u32)
    requires context.tsAnum > 0 && context.tsAden > 0 && t1 <= t2 && Scaled(context, t1) >= 0
    requires (Scaled(context, t2) + context.tsAnum / 2) / context.tsAnum < TWO_64
    ensures NtpFromRtp(context, t1) <= NtpFromRtp(context, t2)
  {
    var a := context.tsAnum;
    var n1, n2 := Scaled(context, t1), Scaled(context, t2);
    MulLe(t1 as int - context.tsB, t2 as int - context.tsB, context.tsAden);
    DivMonotonic(n1 + a / 2, n2 + a / 2, a);
    NtpFromRtpQuotient(context, t1);
    NtpFromRtpQuotient(context, t2);
  }
}
