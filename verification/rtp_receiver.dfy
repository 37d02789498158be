/*
 * The RTP receiver record (src/arstream2_rtp_receiver.c,
 * src/arstream2_rtp_receiver.h): the argument checks and derived settings
 * of New, the Delete guard, the recvmmsg fallback, the monitoring ring and
 * the integer part of GetMonitoring. The resender pool and array the record
 * holds are declared here and managed in RtpReceiverResender.
 */
module RtpReceiver {
  import opened CInt
  import opened CText
  import opened MonitoringRing
  import opened ArStream2Error
  import RtpPacketFifo
  import Rtcp
  import RtpSender

  const DEFAULT_CLIENT_STREAM_PORT: int := 55004
  const DEFAULT_CLIENT_CONTROL_PORT: int := 55005
  /** ARSTREAM2_RTP_RECEIVER_RTP_RESENDER_MAX_COUNT */
  const RESENDER_MAX_COUNT: int := 4
  /** ARSTREAM2_RTP_RECEIVER_RTP_RESENDER_MAX_NALU_BUFFER_COUNT */
  const MAX_NALU_BUFFER_COUNT: int := 1024
  /** A receiver report with one reception report block: the smallest RTCP packet the receiver sends. */
  const MIN_PAYLOAD_SIZE: int := Rtcp.RECEIVER_REPORT_SIZE + Rtcp.RECEPTION_REPORT_BLOCK_SIZE

  // ---------------------------------------------------------------------------
  // Configuration (ARSTREAM2_RtpReceiver_New)

  /** The fields of ARSTREAM2_RtpReceiver_Config_t that New reads; a pointer is a flag saying whether it is set. */
  datatype Config = Config(
    hasAuFifo: bool, hasNaluFifo: bool, hasFifoMutex: bool, hasAuCallback: bool,
    maxPacketSize: i32, maxBitrate: i32, maxLatencyMs: i32, maxNetworkLatencyMs: i32,
    insertStartCodes: i32, generateReceiverReports: i32)

  /** ARSTREAM2_RtpReceiver_NetConfig_t; a NULL string is None. */
  datatype NetConfig = NetConfig(
    serverAddr: Option<string>, mcastAddr: Option<string>,
    serverStreamPort: i32, serverControlPort: i32, clientStreamPort: i32, clientControlPort: i32)

  /** ARSTREAM2_RtpReceiver_MuxConfig_t: whether it names a mux context. */
  datatype MuxConfig = MuxConfig(hasMux: bool)

  /**
   * The argument checks of New: a configuration with its FIFOs, mutex and
   * callback; exactly one of a network and a mux configuration; a server
   * address and server ports for the network; a mux context, and a library
   * built with mux support (`muxSupport`), for the mux.
   */
  predicate ArgsValid(config: Option<Config>, net: Option<NetConfig>, mux: Option<MuxConfig>, muxSupport: bool)
  {
    config.Some? && config.value.hasAuFifo && config.value.hasNaluFifo && config.value.hasFifoMutex &&
    config.value.hasAuCallback && net.Some? != mux.Some? &&
    (net.Some? ==> (
      net.value.serverAddr.Some? && |net.value.serverAddr.value| > 0 &&
      net.value.serverStreamPort > 0 && net.value.serverControlPort > 0)) &&
    (mux.Some? ==> muxSupport && mux.value.hasMux)
  }

  /** The payload size New derives: the configured packet size less the headers, or the largest UDP payload. */
  function PayloadSize(configured: i32): int
  {
    if configured > 0 then configured - RtpPacketFifo.TOTAL_HEADERS_SIZE else RtpPacketFifo.MAX_PAYLOAD_SIZE
  }

  /**
   * The size check as written: the derived size is compared with two
   * `sizeof`s, so in size_t, where a negative size wraps to a huge one.
   */
  predicate TooSmallAsWritten(configured: i32)
  {
    U64(PayloadSize(configured)) < MIN_PAYLOAD_SIZE
  }

  /** The size check as intended: the derived size cannot hold a receiver report. */
  predicate TooSmall(configured: i32)
  {
    PayloadSize(configured) < MIN_PAYLOAD_SIZE
  }

  /** A configured packet size below the headers' 40 bytes passes the check as written, with no room at all. */
  lemma TooSmallAsWrittenMissesUnderflow(configured: i32)
    requires 0 < configured < RtpPacketFifo.TOTAL_HEADERS_SIZE
    ensures !TooSmallAsWritten(configured) && TooSmall(configured) && PayloadSize(configured) < 0
  {
  }

  /** The corrected check accepts exactly the unset sizes and those that hold the headers and a receiver report. */
  lemma TooSmallBoundary(configured: i32)
    ensures !TooSmall(configured) <==>
      configured <= 0 || configured >= RtpPacketFifo.TOTAL_HEADERS_SIZE + MIN_PAYLOAD_SIZE
    ensures configured <= 0 || configured >= RtpPacketFifo.TOTAL_HEADERS_SIZE ==>
      TooSmallAsWritten(configured) == TooSmall(configured)
  {
  }

  /** What New stores from the configuration. */
  datatype Settings = Settings(
    maxPacketSize: int, maxBitrate: i32, maxLatencyMs: i32, maxNetworkLatencyMs: i32,
    insertStartCodes: bool, generateReceiverReports: bool,
    serverStreamPort: int, serverControlPort: int, clientStreamPort: int, clientControlPort: int)

  /**
   * The settings of New: positive bitrate and latencies are kept, others
   * become 0; the flags are set by positive values; with a network
   * configuration its ports are kept and the client ports default to
   * 55004 and 55005 (a mux configuration leaves the ports 0).
   */
  function Derive(c: Config, net: Option<NetConfig>): (r: Settings)
    ensures r.maxPacketSize == PayloadSize(c.maxPacketSize)
    ensures r.maxBitrate >= 0 && r.maxLatencyMs >= 0 && r.maxNetworkLatencyMs >= 0
    ensures c.maxBitrate > 0 ==> r.maxBitrate == c.maxBitrate
    ensures c.maxLatencyMs > 0 ==> r.maxLatencyMs == c.maxLatencyMs
    ensures c.maxNetworkLatencyMs > 0 ==> r.maxNetworkLatencyMs == c.maxNetworkLatencyMs
    ensures r.insertStartCodes <==> c.insertStartCodes > 0
    ensures r.generateReceiverReports <==> c.generateReceiverReports > 0
    ensures net.Some? ==> r.clientStreamPort > 0 && r.clientControlPort > 0
    ensures net.Some? && net.value.clientStreamPort > 0 ==> r.clientStreamPort == net.value.clientStreamPort
    ensures net.Some? && net.value.clientControlPort > 0 ==> r.clientControlPort == net.value.clientControlPort
  {
    Settings(
      PayloadSize(c.maxPacketSize),
      RtpSender.OrDefault(c.maxBitrate, 0),
      RtpSender.OrDefault(c.maxLatencyMs, 0),
      RtpSender.OrDefault(c.maxNetworkLatencyMs, 0),
      c.insertStartCodes > 0,
      c.generateReceiverReports > 0,
      if net.Some? then net.value.serverStreamPort else 0,
      if net.Some? then net.value.serverControlPort else 0,
      if net.Some? then RtpSender.OrDefault(net.value.clientStreamPort, DEFAULT_CLIENT_STREAM_PORT) else 0,
      if net.Some? then RtpSender.OrDefault(net.value.clientControlPort, DEFAULT_CLIENT_CONTROL_PORT) else 0)
  }

  // ---------------------------------------------------------------------------
  // The multicast test of the stream socket setup

  /** The digits atoi reads, from the left, onto the value `acc` already read; it stops at the first non-digit. */
  function ReadDigits(s: string, acc: int): int
  {
    if s == [] || !IsDigit(s[0]) then acc else ReadDigits(s[1..], acc * 10 + Digit(s[0]))
  }

  /** C's atoi: leading white space, an optional sign, then decimal digits (overflow is not modelled). */
  function Atoi(s: string): int
  {
    var t := SkipSpaces(s);
    if t != [] && t[0] == '-' then -ReadDigits(t[1..], 0)
    else if t != [] && t[0] == '+' then ReadDigits(t[1..], 0)
    else ReadDigits(t, 0)
  }

  /**
   * The multicast test of StreamSocketSetup: a non-empty address whose
   * leading number (atoi) lies in 224..239, the class D range.
   */
  predicate IsMulticast(mcastAddr: Option<string>)
  {
    mcastAddr.Some? && |mcastAddr.value| > 0 && 224 <= Atoi(mcastAddr.value) <= 239
  }

  /** atoi stops at the first non-digit: what follows the digits is not read. */
  lemma {:induction false} ReadDigitsStops(d: string, rest: string, acc: int)
    requires AllDigits(d)
    requires rest == [] || !IsDigit(rest[0])
    ensures ReadDigits(d + rest, acc) == ReadDigits(d, acc)
  {
    if d != [] {
      assert (d + rest)[1..] == d[1..] + rest;
      ReadDigitsStops(d[1..], rest, acc * 10 + Digit(d[0]));
    } else {
      assert d + rest == rest;
    }
  }

  function Power10(n: nat): nat
  {
    if n == 0 then 1 else 10 * Power10(n - 1)
  }

  /** Reading digits left to right, onto `acc`, agrees with their value read right to left. */
  lemma {:induction false} ReadDigitsValue(d: string, acc: int)
    requires AllDigits(d)
    ensures ReadDigits(d, acc) == acc * Power10(|d|) + DecimalValue(d)
  {
    if d != [] {
      var a := acc * 10 + Digit(d[0]);
      ReadDigitsValue(d[1..], a);
      DecimalValueCons(d);
      var p := Power10(|d| - 1);
      assert a * p == acc * (10 * p) + Digit(d[0]) * p;
    }
  }

  /** The value of digits is that of the first one, shifted, plus that of the others. */
  lemma {:induction false} DecimalValueCons(d: string)
    requires d != [] && AllDigits(d)
    ensures DecimalValue(d) == Digit(d[0]) * Power10(|d| - 1) + DecimalValue(d[1..])
  {
    if |d| > 1 {
      var p := d[..|d| - 1];
      assert p[1..] == d[1..][..|d[1..]| - 1];
      DecimalValueCons(p);
      var x, q, b := Digit(d[0]), Power10(|d| - 2), DecimalValue(p[1..]);
      MulShift(x, q, b);
    } else {
      assert d[1..] == [];
    }
  }

  lemma MulShift(x: int, q: int, b: int)
    ensures (x * q + b) * 10 == x * (10 * q) + b * 10
  {
  }

  /**
   * For a dotted address the multicast test reads the first octet: an
   * address starting with the decimal number n and a non-digit is
   * multicast exactly when 224 <= n <= 239.
   */
  lemma MulticastReadsFirstOctet(octet: string, rest: string)
    requires 0 < |octet| && AllDigits(octet)
    requires rest == [] || !IsDigit(rest[0])
    ensures IsMulticast(Some(octet + rest)) <==> 224 <= DecimalValue(octet) <= 239
  {
    ReadDigitsStops(octet, rest, 0);
    ReadDigitsValue(octet, 0);
    var s := octet + rest;
    assert s[0] == octet[0];
    assert SkipSpaces(s) == s;
  }

  // ---------------------------------------------------------------------------
  // The record

  /** ARSTREAM2_RtpReceiver_MonitoringPoint_t */
  datatype MonitoringPoint = MonitoringPoint(
    recvTimestamp: u64, rtpTimestamp: u32, ntpTimestamp: u64, ntpTimestampLocal: u64,
    seqNum: u16, markerBit: u16, bytes: u32)

  const ZeroPoint: MonitoringPoint := MonitoringPoint(0, 0, 0, 0, 0, 0, 0)

  /** ARSTREAM2_RtpReceiver_NaluBuffer_t; the buffer's bytes are named by where they were copied from. */
  datatype NaluBuffer = NaluBuffer(
    useCount: int, naluBufferSize: int, naluSize: int, auTimestamp: u64, isLastNaluInAu: int, copiedFrom: Ptr)

  const EmptyNaluBuffer: NaluBuffer := NaluBuffer(0, 0, 0, 0, 0, Null)

  /** ARSTREAM2_RtpReceiver_RtpResender_t */
  class Resender {
    var receiver: Receiver?
    var sender: RtpSender.Sender?
    const useRtpHeaderExtensions: bool
    var senderRunning: bool

    /** The zeroed record ResenderNew fills. */
    constructor Init(useRtpHeaderExtensions: bool)
      ensures receiver == null && sender == null && this.useRtpHeaderExtensions == useRtpHeaderExtensions
      ensures !senderRunning
    {
      receiver := null;
      sender := null;
      this.useRtpHeaderExtensions := useRtpHeaderExtensions;
      senderRunning := false;
    }
  }

  /** ARSTREAM2_RtpReceiver_t: its settings, thread flag, monitoring ring, NALU buffer pool and resenders. */
  class Receiver {
    const settings: Settings
    /** Set by the receiving thread while it runs; the thread is not part of this model. */
    var threadStarted: bool
    const monitoring: Ring<MonitoringPoint>
    const naluBuffers: array<NaluBuffer>
    var naluBufferCount: int
    const resenders: array<Resender?>
    var resenderCount: int

    ghost predicate Valid()
      reads this, monitoring
    {
      monitoring.Valid() &&
      naluBuffers.Length == MAX_NALU_BUFFER_COUNT && 0 <= naluBufferCount <= MAX_NALU_BUFFER_COUNT &&
      resenders.Length == RESENDER_MAX_COUNT && 0 <= resenderCount <= RESENDER_MAX_COUNT
    }

    /** The zeroed record New fills with the settings. */
    constructor Init(settings: Settings)
      ensures Valid() && this.settings == settings && !threadStarted
      ensures monitoring.count == 0 && naluBufferCount == 0 && resenderCount == 0
      ensures fresh(monitoring) && fresh(monitoring.points) && fresh(naluBuffers) && fresh(resenders)
      ensures forall i :: 0 <= i < RESENDER_MAX_COUNT ==> resenders[i] == null
    {
      this.settings := settings;
      threadStarted := false;
      monitoring := new Ring<MonitoringPoint>.Init(ZeroPoint);
      naluBuffers := new NaluBuffer[MAX_NALU_BUFFER_COUNT](_ => EmptyNaluBuffer);
      naluBufferCount := 0;
      resenders := new Resender?[RESENDER_MAX_COUNT](_ => null);
      resenderCount := 0;
    }
  }

  /**
   * ARSTREAM2_RtpReceiver_New: BAD_PARAMETERS for failed argument checks and
   * for a packet size that cannot hold a receiver report (checked as
   * intended; see TooSmallAsWritten); otherwise a record with the derived
   * settings.
   */
  method New(config: Option<Config>, net: Option<NetConfig>, mux: Option<MuxConfig>, muxSupport: bool)
    returns (receiver: Receiver?, error: Error)
    ensures !ArgsValid(config, net, mux, muxSupport) ==> receiver == null && error == ErrorBadParameters
    ensures ArgsValid(config, net, mux, muxSupport) && TooSmall(config.value.maxPacketSize) ==>
      receiver == null && error == ErrorBadParameters
    ensures ArgsValid(config, net, mux, muxSupport) && !TooSmall(config.value.maxPacketSize) ==> (
      error == Ok && receiver != null && fresh(receiver) && receiver.Valid() &&
      receiver.settings == Derive(config.value, net) && !receiver.threadStarted &&
      receiver.monitoring.count == 0 && receiver.naluBufferCount == 0 && receiver.resenderCount == 0)
  {
    if config.None? {
      return null, ErrorBadParameters;
    }
    var c := config.value;
    if !c.hasAuFifo || !c.hasNaluFifo || !c.hasFifoMutex || !c.hasAuCallback {
      return null, ErrorBadParameters;
    }
    if net.None? && mux.None? {
      return null, ErrorBadParameters;
    }
    if net.Some? && mux.Some? {
      return null, ErrorBadParameters;
    }
    if net.Some? {
      if net.value.serverAddr.None? || |net.value.serverAddr.value| == 0 {
        return null, ErrorBadParameters;
      }
      if net.value.serverStreamPort <= 0 || net.value.serverControlPort <= 0 {
        return null, ErrorBadParameters;
      }
    }
    if mux.Some? {
      if !muxSupport || !mux.value.hasMux {
        return null, ErrorBadParameters;
      }
    }
    var settings := Derive(c, net);
    if settings.maxPacketSize < MIN_PAYLOAD_SIZE {
      return null, ErrorBadParameters;
    }
    receiver := new Receiver.Init(settings);
    error := Ok;
  }

  /** A resender Delete removes: present, stopped, and with a sender that RtpSender.Delete accepts. */
  predicate Deletable(r: Resender?)
    reads if r == null then {} else {r}
    reads if r == null || r.sender == null then {} else {r.sender}
  {
    r != null && !r.senderRunning && r.sender != null && !r.sender.threadStarted
  }

  /**
   * ARSTREAM2_RtpReceiver_Delete: BAD_PARAMETERS without a receiver, BUSY
   * while its thread runs (nothing changes); otherwise every stopped
   * resender whose sender can be deleted leaves its slot, the others stay,
   * and the record is released.
   */
  method Delete(receiver: Receiver?) returns (ret: Error)
    requires receiver != null ==> receiver.Valid()
    modifies if receiver == null then {} else {receiver.resenders}
    ensures receiver == null ==> ret == ErrorBadParameters
    ensures receiver != null && receiver.threadStarted ==> ret == ErrorBusy && unchanged(receiver.resenders)
    ensures receiver != null && !receiver.threadStarted ==> (ret == Ok &&
      forall i :: 0 <= i < RESENDER_MAX_COUNT ==>
        receiver.resenders[i] == if i < receiver.resenderCount && Deletable(old(receiver.resenders[i])) then null
                                 else old(receiver.resenders[i]))
  {
    if receiver == null {
      return ErrorBadParameters;
    }
    if receiver.threadStarted {
      return ErrorBusy;
    }
    DeleteResenders(receiver);
    ret := Ok;
  }

  /** The resender loop of Delete. */
  method DeleteResenders(receiver: Receiver)
    requires receiver.Valid()
    modifies receiver.resenders
    ensures forall i :: 0 <= i < RESENDER_MAX_COUNT ==>
      receiver.resenders[i] == if i < receiver.resenderCount && Deletable(old(receiver.resenders[i])) then null
                               else old(receiver.resenders[i])
  {
    var a := receiver.resenders;
    var i := 0;
    while i < receiver.resenderCount
      invariant 0 <= i <= receiver.resenderCount
      invariant forall j :: 0 <= j < RESENDER_MAX_COUNT ==>
        a[j] == if j < i && Deletable(old(a[j])) then null else old(a[j])
    {
      var resender := a[i];
      if resender != null && !resender.senderRunning {
        var retVal := RtpSender.Delete(resender.sender);
        if retVal == Ok {
          a[i] := null;
        }
      }
      i := i + 1;
    }
  }

  // ---------------------------------------------------------------------------
  // The recvmmsg fallback

  /** How many results, from the first, are not errors. */
  function Received(results: seq<int>): (n: nat)
    ensures n <= |results|
  {
    if results == [] || results[0] < 0 then 0 else 1 + Received(results[1..])
  }

  /** The messages received are the results up to the first error, and that error ends them. */
  lemma {:induction false} ReceivedPrefix(results: seq<int>)
    ensures forall i :: 0 <= i < Received(results) ==> results[i] >= 0
    ensures Received(results) < |results| ==> results[Received(results)] < 0
  {
    if results != [] && results[0] >= 0 {
      ReceivedPrefix(results[1..]);
    }
  }

  /**
   * The recvmmsg fallback without HAVE_MMSG: -1 without a message vector;
   * else recvmsg per message (`results[i]` is what it returns for message
   * i, vlen being |results|), stopping at the first error. The error is
   * returned only when nothing was received; otherwise the count, with
   * each message's length stored as an unsigned int.
   */
  method RecvMmsg(hasMsgVec: bool, results: seq<int>) returns (ret: int, lens: seq<u32>)
    ensures !hasMsgVec ==> ret == -1 && lens == []
    ensures hasMsgVec ==> (
      var n := Received(results);
      ret == (if n == 0 && |results| > 0 then results[0] else n) &&
      |lens| == n && forall k :: 0 <= k < n ==> lens[k] == U32(results[k]))
  {
    if !hasMsgVec {
      return -1, [];
    }
    var count := 0;
    var i := 0;
    lens := [];
    while i < |results|
      invariant 0 <= i <= |results| && count == i
      invariant Received(results) == i + Received(results[i..])
      invariant |lens| == i && forall k :: 0 <= k < i ==> lens[k] == U32(results[k])
    {
      assert results[i..][1..] == results[i + 1..];
      var r := results[i];
      if r < 0 {
        if count == 0 {
          return r, lens;
        } else {
          break;
        }
      } else {
        count := count + 1;
        lens := lens + [U32(r)];
      }
      i := i + 1;
    }
    ret := count;
  }

  // ---------------------------------------------------------------------------
  // Monitoring (UpdateMonitoring, GetMonitoring)

  /** ARSTREAM2_RtpReceiver_UpdateMonitoring: the point becomes the newest of the ring; no other slot changes. */
  method UpdateMonitoring(receiver: Receiver, p: MonitoringPoint)
    requires receiver.monitoring.Valid()
    modifies receiver.monitoring, receiver.monitoring.points
    ensures var m := receiver.monitoring;
      m.Valid() && m.count == (if old(m.count) < MAX_POINTS then old(m.count) + 1 else MAX_POINTS) &&
      m.index == (old(m.index) + 1) % MAX_POINTS && m.points[..] == old(m.points[..])[m.index := p] &&
      m.Recent() == [p] + old(m.Recent())[..m.count - 1]
  {
    receiver.monitoring.Push(p);
  }

  function RecvTime(p: MonitoringPoint): int
  {
    p.recvTimestamp
  }

  /** The accumulators of GetMonitoring's scan (the reception time sum only feeds the jitter). */
  datatype Stats = Stats(bytesSum: u32, gapsInSeqNum: int, usefulPoints: nat, previousSeqNum: int)

  const NoStats: Stats := Stats(0, 0, 0, -1)

  /**
   * The sequence number step from a newer packet to an older one: the
   * difference, plus 65536 when below -32768 (the 16-bit wrap of section
   * 5.1 of RFC 3550); 1 for the first packet.
   */
  function SeqNumDelta(previousSeqNum: int, seqNum: u16): int
  {
    var delta := if previousSeqNum != -1 then previousSeqNum - seqNum else 1;
    if delta < -32768 then delta + 65536 else delta
  }

  /** One point of the window taken in: its bytes (uint32 sum) and the packets missing before it. */
  function AddPoint(t: Stats, p: MonitoringPoint): Stats
  {
    Stats(U32(t.bytesSum + p.bytes), t.gapsInSeqNum + SeqNumDelta(t.previousSeqNum, p.seqNum) - 1,
          t.usefulPoints + 1, p.seqNum)
  }

  /** The accumulators after a window, taken newest first. */
  function StatsOf(w: seq<MonitoringPoint>): Stats
  {
    if w == [] then NoStats else AddPoint(StatsOf(w[..|w| - 1]), w[|w| - 1])
  }

  lemma StatsOfSnoc(w: seq<MonitoringPoint>, p: MonitoringPoint)
    ensures StatsOf(w + [p]) == AddPoint(StatsOf(w), p)
  {
    assert (w + [p])[..|w|] == w;
  }

  /** The bytes a window received, without wrap-around. */
  function ReceivedBytes(w: seq<MonitoringPoint>): nat
  {
    if w == [] then 0 else ReceivedBytes(w[..|w| - 1]) + w[|w| - 1].bytes
  }

  /**
   * The packet count is the window's size, the byte count the window's
   * bytes modulo 2^32, and the sequence number carried is the oldest one.
   */
  lemma {:induction false} StatsCounts(w: seq<MonitoringPoint>)
    ensures var t := StatsOf(w);
      t.usefulPoints == |w| && t.bytesSum == ReceivedBytes(w) % TWO_32 &&
      t.previousSeqNum == if w == [] then -1 else w[|w| - 1].seqNum
  {
    if w != [] {
      StatsCounts(w[..|w| - 1]);
      var s := ReceivedBytes(w[..|w| - 1]);
      ModAdd(s, w[|w| - 1].bytes);
    }
  }

  lemma ModAdd(s: int, b: int)
    ensures (s % TWO_32 + b) % TWO_32 == (s + b) % TWO_32
  {
    var q := s / TWO_32;
    assert s + b == (s % TWO_32 + b) + q * TWO_32;
  }

  /**
   * The missing packet count counts the sequence numbers skipped between
   * the newest and the oldest packet of the window, modulo 2^16: it and
   * the packets received span the sequence numbers from the oldest to the
   * newest.
   */
  lemma {:induction false} MissedSpansSeqNums(w: seq<MonitoringPoint>)
    requires w != []
    ensures (StatsOf(w).gapsInSeqNum + |w| - 1) % 0x1_0000 == (w[0].seqNum - w[|w| - 1].seqNum) % 0x1_0000
  {
    var v := w[..|w| - 1];
    if v == [] {
      assert w[0] == w[|w| - 1];
    } else {
      MissedSpansSeqNums(v);
      StatsCounts(v);
      assert v[0] == w[0];
      var g, d := StatsOf(v).gapsInSeqNum + |v| - 1, SeqNumDelta(v[|v| - 1].seqNum, w[|w| - 1].seqNum);
      assert StatsOf(w).gapsInSeqNum + |w| - 1 == g + d;
      ModShift(g, w[0].seqNum - v[|v| - 1].seqNum, d, v[|v| - 1].seqNum - w[|w| - 1].seqNum);
    }
  }

  /** Sums of values congruent modulo 2^16 are congruent. */
  lemma ModShift(a: int, a': int, d: int, d': int)
    requires a % 0x1_0000 == a' % 0x1_0000
    requires d == d' || d == d' + 0x1_0000
    ensures (a + d) % 0x1_0000 == (a' + d') % 0x1_0000
  {
    var q, q' := a / 0x1_0000, a' / 0x1_0000;
    assert a + d == (a' + d') + (q - q') * 0x1_0000 + (d - d');
  }

  /**
   * Without a sequence number wrap in the window, the missing packet count
   * is the packets expected (the span from the oldest to the newest
   * sequence number) less the packets received, as section 6.4.1 of
   * RFC 3550 counts packets lost.
   */
  lemma {:induction false} MissedWithoutWrap(w: seq<MonitoringPoint>)
    requires w != []
    requires forall i :: 0 < i < |w| ==> w[i - 1].seqNum - w[i].seqNum >= -32768
    ensures StatsOf(w).gapsInSeqNum == (w[0].seqNum - w[|w| - 1].seqNum + 1) - |w|
  {
    var v := w[..|w| - 1];
    if v != [] {
      assert forall i :: 0 <= i < |v| ==> v[i] == w[i];
      MissedWithoutWrap(v);
      StatsCounts(v);
      assert v[0] == w[0] && v[|v| - 1] == w[|w| - 2];
    }
  }

  /** ARSTREAM2_RtpReceiver_GetMonitoring's outputs without the jitter and the standard deviation. */
  datatype MonitoringData = MonitoringData(
    realTimeIntervalUs: u32, bytesReceived: u32, meanPacketSize: u32, packetsReceived: u32, packetsMissed: u32)

  /** Where the scan ended: the receive time of the oldest point of the window, or `start`. */
  function EndTime(w: seq<MonitoringPoint>, start: u64): u64
  {
    if w == [] then start else w[|w| - 1].recvTimestamp
  }

  /** The outputs filled from the accumulators (the int counters stored in uint32_t outputs). */
  function Report(t: Stats, start: u64, endTime: u64): MonitoringData
  {
    MonitoringData(
      U32(start as int - endTime as int), t.bytesSum,
      if t.usefulPoints > 0 then t.bytesSum / t.usefulPoints else 0,
      U32(t.usefulPoints), U32(t.gapsInSeqNum))
  }

  /** What GetMonitoring reports for a window. */
  function Summary(w: seq<MonitoringPoint>, start: u64): MonitoringData
  {
    Report(StatsOf(w), start, EndTime(w, start))
  }

  /**
   * ARSTREAM2_RtpReceiver_GetMonitoring, corrected: BAD_PARAMETERS without a
   * receiver or an interval; otherwise the summary of the points of the
   * window ending at startTime (the clock reading `now` when startTime is
   * 0) and reaching timeIntervalUs back. The function as written reads the
   * wrong slots; see ScanAsWritten.
   */
  method GetMonitoring(receiver: Receiver?, startTime: u64, timeIntervalUs: u32, now: u64)
    returns (ret: Error, data: Option<MonitoringData>)
    requires receiver != null ==> receiver.monitoring.Valid()
    ensures receiver == null || timeIntervalUs == 0 ==> ret == ErrorBadParameters && data == None
    ensures receiver != null && timeIntervalUs != 0 ==> (
      var start := if startTime == 0 then now else startTime;
      ret == Ok &&
      data == Some(Summary(Window(receiver.monitoring.Recent(), RecvTime, start, timeIntervalUs), start)))
  {
    if receiver == null || timeIntervalUs == 0 {
      return ErrorBadParameters, None;
    }
    var start := startTime;
    if start == 0 {
      start := now;
    }
    var t, endTime := ScanWindow(receiver.monitoring, start, timeIntervalUs);
    var meanPacketSize := if t.usefulPoints > 0 then t.bytesSum / t.usefulPoints else 0;
    data := Some(MonitoringData(U32(start as int - endTime as int), t.bytesSum, meanPacketSize,
                                U32(t.usefulPoints), U32(t.gapsInSeqNum)));
    ret := Ok;
  }

  /**
   * The backward scan of GetMonitoring, reading each point once: skip
   * points received after `start`, stop at the first one older than the
   * interval, and accumulate the others.
   */
  method ScanWindow(ring: Ring<MonitoringPoint>, start: u64, interval: u32) returns (t: Stats, endTime: u64)
    requires ring.Valid()
    ensures var w := Window(ring.Recent(), RecvTime, start, interval);
      t == StatsOf(w) && endTime == EndTime(w, start)
  {
    ghost var rec := ring.Recent();
    ghost var w: seq<MonitoringPoint> := [];
    t := NoStats;
    endTime := start;
    var points := 0;
    var idx := ring.index;
    while points < ring.count
      invariant 0 <= points <= ring.count && idx == Behind(ring.index, points)
      invariant Window(rec, RecvTime, start, interval) == w + Window(rec[points..], RecvTime, start, interval)
      invariant t == StatsOf(w) && endTime == EndTime(w, start)
    {
      var p := ring.points[idx];
      assert p == rec[points];
      ScanStep(rec, RecvTime, start, interval, points, w);
      var curTime := p.recvTimestamp;
      PrevBehind(ring.index, points);
      if curTime > start {
        points := points + 1;
        idx := Prev(idx);
        continue;
      }
      if start - curTime > interval {
        return;
      }
      t := Accumulate(t, p);
      StatsOfSnoc(w, p);
      w := w + [p];
      endTime := curTime;
      points := points + 1;
      idx := Prev(idx);
    }
    ScanEnd(rec, RecvTime, start, interval, w);
  }

  /** The loop body of GetMonitoring for a point in the window, as AddPoint states it. */
  method Accumulate(t: Stats, p: MonitoringPoint) returns (t': Stats)
    ensures t' == AddPoint(t, p)
  {
    var bytesSum := U32(t.bytesSum as int + p.bytes);
    var currentSeqNum := p.seqNum as int;
    var seqNumDelta := if t.previousSeqNum != -1 then t.previousSeqNum - currentSeqNum else 1;
    if seqNumDelta < -32768 {
      seqNumDelta := seqNumDelta + 65536;
    }
    var gapsInSeqNum := t.gapsInSeqNum + seqNumDelta - 1;
    t' := Stats(bytesSum, gapsInSeqNum, t.usefulPoints + 1, currentSeqNum);
  }

  /**
   * The scan as written, over the ring's slots `s`: after `points` points,
   * `extra` of them taken, the slot checked against the window is
   * `points + extra` behind the newest, and a point in the window has its
   * statistics read from the slot after it (one more step back), so each
   * point taken moves the scan two slots. Returns the points whose
   * statistics are read.
   */
  function ScanAsWritten(s: seq<MonitoringPoint>, index: int, count: int, points: nat, extra: nat,
                         start: u64, interval: u32): seq<MonitoringPoint>
    requires |s| == MAX_POINTS
    decreases count - points
  {
    if points >= count then []
    else
      var checked := s[Behind(index, points + extra)];
      if checked.recvTimestamp > start then ScanAsWritten(s, index, count, points + 1, extra, start, interval)
      else if start - checked.recvTimestamp > interval then []
      else [s[Behind(index, points + extra + 1)]] + ScanAsWritten(s, index, count, points + 1, extra + 1, start, interval)
  }

  /** What GetMonitoring as written reports for a ring holding `count` points, the newest at `index`. */
  function SummaryAsWritten(s: seq<MonitoringPoint>, index: int, count: int, start: u64, interval: u32): MonitoringData
    requires |s| == MAX_POINTS
  {
    Summary(ScanAsWritten(s, index, count, 0, 0, start, interval), start)
  }

  /** The two points of the example below: the newer in slot 1, the older in slot 0. */
  const Newer: MonitoringPoint := MonitoringPoint(100, 0, 0, 0, 2, 0, 10)
  const Older: MonitoringPoint := MonitoringPoint(90, 0, 0, 0, 1, 0, 20)

  function ExampleSlots(): (s: seq<MonitoringPoint>)
    ensures |s| == MAX_POINTS && s[1] == Newer && s[0] == Older && s[2047] == ZeroPoint && s[2046] == ZeroPoint
  {
    seq(MAX_POINTS, i => if i == 1 then Newer else if i == 0 then Older else ZeroPoint)
  }

  /** As written, the scan of the example reads the older point and then a zeroed slot. */
  lemma ExampleScanAsWritten()
    ensures ScanAsWritten(ExampleSlots(), 1, 2, 0, 0, 100, 1000) == [Older, ZeroPoint]
  {
    var s := ExampleSlots();
    assert Behind(1, 0) == 1 && Behind(1, 1) == 0 && Behind(1, 2) == 2047 && Behind(1, 3) == 2046;
    assert ScanAsWritten(s, 1, 2, 2, 2, 100, 1000) == [];
    assert ScanAsWritten(s, 1, 2, 1, 1, 100, 1000) == [ZeroPoint];
  }

  /** Both points of the example are in the window. */
  lemma ExampleWindow()
    ensures Window(RecentOf(ExampleSlots(), 1, 2), RecvTime, 100, 1000) == [Newer, Older]
  {
    var r := RecentOf(ExampleSlots(), 1, 2);
    assert r == [Newer, Older];
    assert r[1..][1..] == [];
  }

  /**
   * Two points 10 us apart, both in the window: as written the scan checks
   * the newest, reads the older one's bytes, checks the zeroed slot behind
   * it and reads the next zeroed slot, reporting 20 bytes over 100 us
   * where the window received 30 bytes over 10 us.
   */
  lemma GetMonitoringAsWrittenSkipsPoints()
    ensures var asWritten := SummaryAsWritten(ExampleSlots(), 1, 2, 100, 1000);
      var intended := Summary(Window(RecentOf(ExampleSlots(), 1, 2), RecvTime, 100, 1000), 100);
      asWritten.bytesReceived == 20 && asWritten.realTimeIntervalUs == 100 &&
      intended.bytesReceived == 30 && intended.realTimeIntervalUs == 10 &&
      asWritten.packetsReceived == intended.packetsReceived == 2
  {
    ExampleScanAsWritten();
    ExampleWindow();
    StatsOfSnoc([Newer], Older);
    StatsOfSnoc([Older], ZeroPoint);
    StatsOfSnoc([], Newer);
    StatsOfSnoc([], Older);
    assert [Newer] + [Older] == [Newer, Older] && [Older] + [ZeroPoint] == [Older, ZeroPoint];
  }
}
