/*
 * The RTP sender of libARStream2 (src/arstream2_rtp_sender.c): the
 * configuration New derives, the NALU FIFO the application feeds with
 * SendNewNalu/SendNNewNalu and FlushNaluQueue empties, and the monitoring
 * ring the packetiser feeds and GetMonitoring summarises.
 *
 * Sockets, pipes, mutexes, the sending thread and the monitor file are not
 * modelled; the callbacks into the application are recorded as events.
 */
module RtpSender {
  import opened CInt
  import opened LinkedFifo
  import opened RtpH264
  import opened MonitoringRing
  import opened ArStream2Error
  import RtpPacketFifo
  import Rtcp

  const DEFAULT_SERVER_STREAM_PORT: int := 5004
  const DEFAULT_SERVER_CONTROL_PORT: int := 5005
  const DEFAULT_NALU_FIFO_SIZE: int := 1024
  /** 50 ms at 5 Mbit/s. */
  const DEFAULT_MIN_STREAM_SOCKET_SEND_BUFFER_SIZE: int := 31250

  // ---------------------------------------------------------------------------
  // Configuration (ARSTREAM2_RtpSender_New)

  /** The fields of ARSTREAM2_RtpSender_Config_t that New reads; a NULL string is None. */
  datatype Config = Config(
    clientAddr: Option<string>,
    serverStreamPort: i32, serverControlPort: i32, clientStreamPort: i32, clientControlPort: i32,
    naluFifoSize: i32, maxPacketSize: i32, targetPacketSize: i32,
    maxBitrate: i32, maxLatencyMs: i32, maxNetworkLatencyMs: i32)

  /** What New stores from the configuration. */
  datatype Settings = Settings(
    serverStreamPort: int, serverControlPort: int, clientStreamPort: int, clientControlPort: int,
    naluFifoSize: int, maxPacketSize: u32, targetPacketSize: u32, maxBitrate: int,
    streamSocketSendBufferSize: int, maxLatencyUs: u32, maxNetworkLatencyUs: u32, naluFifoBufferSize: int)

  datatype Result<T> = Success(value: T) | Failure(error: Error)

  /** A configured value when positive, else the default. */
  function OrDefault(x: int, default: int): (r: int)
    ensures r == x || r == default
    ensures r > 0 <== x > 0 || default > 0
  {
    if x > 0 then x else default
  }

  /**
   * The stream socket send buffer and the NALU FIFO byte budget: the total
   * is the bytes of maxNetworkLatencyMs (or, without it, maxLatencyMs) at
   * maxBitrate; the socket buffer is a quarter (a sixth) of it, but at least
   * 50 ms of maxBitrate (31250 bytes without a bitrate); the rest is the
   * FIFO's. Returns (total, minimum, socket buffer).
   */
  function BufferSizes(maxBitrate: int, maxLatencyMs: int, maxNetworkLatencyMs: int): (r: (int, int, int))
    requires maxBitrate >= 0
    ensures r.0 >= 0 && r.1 >= 0 && r.2 >= r.1
    ensures maxNetworkLatencyMs > 0 ==> r.2 >= r.0 / 4 && (r.2 == r.1 || r.2 == r.0 / 4)
    ensures maxNetworkLatencyMs <= 0 ==> r.2 >= r.0 / 6 && (r.2 == r.1 || r.2 == r.0 / 6)
    ensures maxNetworkLatencyMs <= 0 && maxLatencyMs <= 0 ==> r.0 == 0
  {
    var minimum := if maxBitrate > 0 then maxBitrate * 50 / 1000 / 8 else DEFAULT_MIN_STREAM_SOCKET_SEND_BUFFER_SIZE;
    if maxNetworkLatencyMs > 0 then
      var total := maxBitrate * maxNetworkLatencyMs / 1000 / 8;
      (total, minimum, if total / 4 > minimum then total / 4 else minimum)
    else
      var total := if maxLatencyMs > 0 then maxBitrate * maxLatencyMs / 1000 / 8 else 0;
      (total, minimum, if total / 6 > minimum then total / 6 else minimum)
  }

  /**
   * A latency budget in microseconds minus the time the socket buffer takes
   * to drain at maxBitrate, stored in a uint32; 0 when there is no budget.
   */
  function LatencyUs(latencyMs: int, maxBitrate: int, socketBufferSize: int): (r: u32)
    requires maxBitrate >= 0 && socketBufferSize >= 0
    ensures latencyMs <= 0 ==> r == 0
  {
    if latencyMs > 0 then
      U32(latencyMs * 1000 - (if maxBitrate > 0 then socketBufferSize * 8 * 1000000 / maxBitrate else 0))
    else 0
  }

  /** maxPacketSize as written: `(uint32_t)config->maxPacketSize - TOTAL_HEADERS_SIZE`, wrapping below 40. */
  function MaxPacketSizeAsWritten(configured: i32): (r: u32)
  {
    if configured > 0 then U32(configured - RtpPacketFifo.TOTAL_HEADERS_SIZE) else RtpPacketFifo.MAX_PAYLOAD_SIZE
  }

  /**
   * The size check as written lets through a maximum packet size of 1 to 39
   * bytes, which cannot even hold the headers: the subtraction wraps to
   * nearly 4 GiB, which is not below the sender report size.
   */
  lemma MaxPacketSizeAsWrittenWraps(configured: int)
    requires 0 < configured < RtpPacketFifo.TOTAL_HEADERS_SIZE
    ensures MaxPacketSizeAsWritten(configured) == TWO_32 - (RtpPacketFifo.TOTAL_HEADERS_SIZE - configured)
    ensures MaxPacketSizeAsWritten(configured) >= Rtcp.SENDER_REPORT_SIZE
  {
  }

  /** The payload size left by a configured packet size: the headers are taken off, signed. */
  function PayloadSize(configured: int, default: int): (r: int)
    ensures configured > 0 ==> r + RtpPacketFifo.TOTAL_HEADERS_SIZE == configured
  {
    if configured > 0 then configured - RtpPacketFifo.TOTAL_HEADERS_SIZE else default
  }

  /**
   * The settings New stores once the checks pass: defaults for the server
   * ports, FIFO size and bitrate, payload sizes without the headers, the
   * buffer split and the latency budgets left after draining the socket.
   */
  function Derive(c: Config, maxPacketSize: int): (r: Settings)
    requires Rtcp.SENDER_REPORT_SIZE <= maxPacketSize < TWO_32
    ensures r.naluFifoSize > 0 && r.maxPacketSize >= Rtcp.SENDER_REPORT_SIZE && r.maxBitrate >= 0
    ensures r.streamSocketSendBufferSize + r.naluFifoBufferSize ==
      BufferSizes(r.maxBitrate, c.maxLatencyMs, c.maxNetworkLatencyMs).0
  {
    var maxBitrate := OrDefault(c.maxBitrate, 0);
    var sizes := BufferSizes(maxBitrate, c.maxLatencyMs, c.maxNetworkLatencyMs);
    Settings(
      OrDefault(c.serverStreamPort, DEFAULT_SERVER_STREAM_PORT),
      OrDefault(c.serverControlPort, DEFAULT_SERVER_CONTROL_PORT),
      c.clientStreamPort, c.clientControlPort,
      OrDefault(c.naluFifoSize, DEFAULT_NALU_FIFO_SIZE),
      U32(maxPacketSize), U32(PayloadSize(c.targetPacketSize, maxPacketSize)), maxBitrate,
      sizes.2,
      LatencyUs(c.maxLatencyMs, maxBitrate, sizes.2),
      LatencyUs(c.maxNetworkLatencyMs, maxBitrate, sizes.2),
      sizes.0 - sizes.2)
  }

  /** The argument checks of New, before the packet size check. */
  predicate ConfigPresent(config: Option<Config>)
  {
    config.Some? && config.value.clientAddr.Some? && config.value.clientAddr.value != [] &&
    config.value.clientStreamPort > 0 && config.value.clientControlPort > 0
  }

  /**
   * ARSTREAM2_RtpSender_New up to its resource allocations: BAD_PARAMETERS
   * for a missing configuration, client address or client port, and for a
   * maximum packet size whose payload cannot hold a sender report; otherwise
   * the settings derived from the configuration.
   */
  function NewSettings(config: Option<Config>): (r: Result<Settings>)
    ensures r.Failure? ==> r.error == ErrorBadParameters
    ensures r.Success? <==>
      ConfigPresent(config) &&
      PayloadSize(config.value.maxPacketSize, RtpPacketFifo.MAX_PAYLOAD_SIZE) >= Rtcp.SENDER_REPORT_SIZE
    ensures r.Success? ==> r.value.naluFifoSize > 0 && r.value.maxPacketSize >= Rtcp.SENDER_REPORT_SIZE
  {
    if config.None? then Failure(ErrorBadParameters)
    else
      var c := config.value;
      if c.clientAddr.None? || c.clientAddr.value == [] then Failure(ErrorBadParameters)
      else if c.clientStreamPort <= 0 || c.clientControlPort <= 0 then Failure(ErrorBadParameters)
      else
        var maxPacketSize := PayloadSize(c.maxPacketSize, RtpPacketFifo.MAX_PAYLOAD_SIZE);
        if maxPacketSize < Rtcp.SENDER_REPORT_SIZE then Failure(ErrorBadParameters)
        else Success(Derive(c, maxPacketSize))
  }

  /**
   * New as written creates the NALU FIFO with the configured size rather
   * than the one it stored, so a size left at 0 for the default makes
   * FifoInit fail and New report ALLOC.
   */
  function NewAsWritten(config: Option<Config>): (r: Result<Settings>)
    ensures r.Success? ==> NewSettings(config) == r
  {
    var s := NewSettings(config);
    if s.Success? && config.value.naluFifoSize <= 0 then Failure(ErrorAlloc) else s
  }

  /** Leaving naluFifoSize at 0 selects the default of 1024 items, yet New as written fails. */
  lemma NewAsWrittenRejectsDefaultFifoSize(config: Config)
    requires NewSettings(Some(config)).Success? && config.naluFifoSize == 0
    ensures NewSettings(Some(config)).value.naluFifoSize == DEFAULT_NALU_FIFO_SIZE
    ensures NewAsWritten(Some(config)) == Failure(ErrorAlloc)
  {
  }

  /**
   * A latency budget shorter than the socket buffer's drain time wraps
   * around: 40 ms at 1 Mbit/s leaves a budget of 2^32 - 10000 microseconds.
   */
  lemma LatencyBudgetWraps()
    ensures BufferSizes(1000000, 40, 0) == (5000, 6250, 6250)
    ensures LatencyUs(40, 1000000, 6250) == TWO_32 - 10000
  {
  }

  // ---------------------------------------------------------------------------
  // The sender record, New and Delete, and sending NAL units (SendNewNalu, SendNNewNalu)

  /** ARSTREAM2_RtpSender_H264NaluDesc_t as the sender reads it. */
  datatype NaluDesc = NaluDesc(
    naluBuffer: Ptr, naluSize: u32, auMetadata: Ptr, auMetadataSize: u32, auTimestamp: u64,
    isLastNaluInAu: u32, seqNumForcedDiscontinuity: u32, auUserPtr: Ptr, naluUserPtr: Ptr)

  /** The descriptor checks: a buffer, a non-zero size and a non-zero AU timestamp. */
  predicate DescValid(d: NaluDesc)
  {
    d.naluBuffer != Null && d.naluSize != 0 && d.auTimestamp != 0
  }

  /**
   * The NALU's deadline: the AU timestamp plus maxLatencyUs and the input
   * time plus maxNetworkLatencyUs, each only when its budget (and the input
   * time) is set, whichever is later; uint64 sums.
   */
  function TimeoutTimestamp(auTimestamp: u64, inputTime: u64, maxLatencyUs: u32, maxNetworkLatencyUs: u32): (r: u64)
    ensures maxLatencyUs > 0 ==> r >= U64(auTimestamp + maxLatencyUs)
    ensures maxNetworkLatencyUs > 0 && inputTime > 0 ==> r >= U64(inputTime + maxNetworkLatencyUs)
    ensures r == 0 || (maxLatencyUs > 0 && r == U64(auTimestamp + maxLatencyUs)) ||
      (maxNetworkLatencyUs > 0 && inputTime > 0 && r == U64(inputTime + maxNetworkLatencyUs))
  {
    var t1: u64 := if maxLatencyUs > 0 then U64(auTimestamp + maxLatencyUs) else 0;
    var t2: u64 := if maxNetworkLatencyUs > 0 && inputTime > 0 then U64(inputTime + maxNetworkLatencyUs) else 0;
    if t1 > t2 then t1 else t2
  }

  /** Without a latency budget a NALU never times out (its deadline is 0). */
  lemma NoBudgetNoTimeout(auTimestamp: u64, inputTime: u64)
    ensures TimeoutTimestamp(auTimestamp, inputTime, 0, 0) == 0
  {
  }

  /**
   * The FIFO item filled from a descriptor: every field SendNewNalu assigns.
   * Importance and priority are not assigned and keep whatever the recycled
   * item held.
   */
  predicate Describes(n: Nalu, d: NaluDesc, inputTime: u64, maxLatencyUs: u32, maxNetworkLatencyUs: u32)
  {
    n.inputTimestamp == inputTime &&
    n.timeoutTimestamp == TimeoutTimestamp(d.auTimestamp, inputTime, maxLatencyUs, maxNetworkLatencyUs) &&
    n.ntpTimestamp == d.auTimestamp && n.isLastInAu == d.isLastNaluInAu &&
    n.seqNumForcedDiscontinuity == d.seqNumForcedDiscontinuity &&
    n.metadata == d.auMetadata && n.metadataSize == d.auMetadataSize &&
    n.nalu == d.naluBuffer && n.naluSize == d.naluSize &&
    n.auUserPtr == d.auUserPtr && n.naluUserPtr == d.naluUserPtr
  }

  /** The item fields SendNewNalu writes over a recycled item. */
  function Fill(old_: Nalu, d: NaluDesc, inputTime: u64, maxLatencyUs: u32, maxNetworkLatencyUs: u32): (r: Nalu)
    ensures Describes(r, d, inputTime, maxLatencyUs, maxNetworkLatencyUs)
    ensures r.importance == old_.importance && r.priority == old_.priority
  {
    old_.(inputTimestamp := inputTime,
          timeoutTimestamp := TimeoutTimestamp(d.auTimestamp, inputTime, maxLatencyUs, maxNetworkLatencyUs),
          ntpTimestamp := d.auTimestamp, isLastInAu := d.isLastNaluInAu,
          seqNumForcedDiscontinuity := d.seqNumForcedDiscontinuity,
          metadata := d.auMetadata, metadataSize := d.auMetadataSize,
          nalu := d.naluBuffer, naluSize := d.naluSize,
          auUserPtr := d.auUserPtr, naluUserPtr := d.naluUserPtr)
  }

  /** What the application is told through its callbacks (ARSTREAM2_RTP_SENDER_STATUS_CANCELLED). */
  datatype Event = NaluCancelled(naluUserPtr: Ptr) | AuCancelled(auUserPtr: Ptr, ntpTimestamp: u64)

  /** ARSTREAM2_RtpSender_MonitoringPoint_t: one packet sent or dropped. */
  datatype MonitoringPoint = MonitoringPoint(
    inputTimestamp: u64, outputTimestamp: u64, ntpTimestamp: u64, rtpTimestamp: u32,
    seqNum: u16, markerBit: u16, bytesSent: u32, bytesDropped: u32)

  /** A slot of the memset record. */
  const ZeroPoint: MonitoringPoint := MonitoringPoint(0, 0, 0, 0, 0, 0, 0, 0)

  /** The sender record: its latency budgets, callbacks, NALU FIFO and monitoring ring. */
  class Sender {
    const maxLatencyUs: u32
    const maxNetworkLatencyUs: u32
    const naluCallback: bool
    const auCallback: bool
    const naluFifo: Fifo<Nalu>
    const monitoring: Ring<MonitoringPoint>
    /** Set by the sending thread while it runs; the thread is not part of this model. */
    var threadStarted: bool
    var lastAuCallbackTimestamp: u64

    ghost predicate Ready()
      reads this, naluFifo, naluFifo.pool, monitoring
    {
      naluFifo.Valid() && naluFifo.Conserved() && monitoring.Valid()
    }

    /** The record New fills: the settings, a fresh monitoring ring, no thread yet. */
    constructor Init(settings: Settings, fifo: Fifo<Nalu>, naluCallback: bool, auCallback: bool)
      requires fifo.Valid() && fifo.Conserved()
      ensures Ready() && naluFifo == fifo && monitoring.count == 0 && fresh(monitoring) && fresh(monitoring.points)
      ensures maxLatencyUs == settings.maxLatencyUs && maxNetworkLatencyUs == settings.maxNetworkLatencyUs
      ensures this.naluCallback == naluCallback && this.auCallback == auCallback
      ensures !threadStarted && lastAuCallbackTimestamp == 0
    {
      maxLatencyUs := settings.maxLatencyUs;
      maxNetworkLatencyUs := settings.maxNetworkLatencyUs;
      this.naluCallback := naluCallback;
      this.auCallback := auCallback;
      naluFifo := fifo;
      monitoring := new Ring<MonitoringPoint>.Init(ZeroPoint);
      threadStarted := false;
      lastAuCallbackTimestamp := 0;
    }
  }

  /**
   * New: the checks and settings of NewSettings, then the NALU FIFO with
   * the stored size (New as written passes the configured one; see
   * NewAsWritten), then the record.
   */
  method New(config: Option<Config>, naluCallback: bool, auCallback: bool) returns (sender: Sender?, error: Error)
    ensures NewSettings(config).Failure? ==> sender == null && error == NewSettings(config).error
    ensures NewSettings(config).Success? ==> error == Ok && sender != null && fresh(sender) && sender.Ready()
    ensures NewSettings(config).Success? ==>
      var s := NewSettings(config).value;
      sender.naluFifo.size == s.naluFifoSize && sender.naluFifo.Contents() == [] && sender.monitoring.count == 0 &&
      sender.maxLatencyUs == s.maxLatencyUs && sender.maxNetworkLatencyUs == s.maxNetworkLatencyUs &&
      !sender.threadStarted
  {
    var settings := NewSettings(config);
    if settings.Failure? {
      return null, settings.error;
    }
    var ret, fifo := FifoInit(settings.value.naluFifoSize);
    // cannot fail: the stored size is positive
    sender := new Sender.Init(settings.value, fifo, naluCallback, auCallback);
    error := Ok;
  }

  /**
   * ARSTREAM2_RtpSender_Delete: BAD_PARAMETERS without a sender, BUSY while
   * its thread runs (nothing is freed), OK once it is stopped.
   */
  method Delete(sender: Sender?) returns (ret: Error)
    ensures sender == null ==> ret == ErrorBadParameters
    ensures sender != null ==> ret == (if sender.threadStarted then ErrorBusy else Ok)
  {
    ret := ErrorBadParameters;
    if sender != null {
      var canDelete := !sender.threadStarted;
      if canDelete {
        ret := Ok;
      } else {
        ret := ErrorBusy;
      }
    }
  }

  /**
   * Pop a free item, fill it from the descriptor and enqueue it: QUEUE_FULL
   * when no item is free, which in a conserved pool is when the queue
   * holds `size` NALUs.
   */
  method EnqueueDesc(fifo: Fifo<Nalu>, d: NaluDesc, inputTime: u64, maxLatencyUs: u32, maxNetworkLatencyUs: u32)
    returns (ret: Error)
    requires fifo.Valid() && fifo.Conserved()
    modifies fifo, fifo.pool
    ensures fifo.Valid() && fifo.Conserved() && fifo.size == old(fifo.size) && fifo.pool == old(fifo.pool)
    ensures ret == (if old(fifo.count) >= fifo.size then ErrorQueueFull else Ok)
    ensures ret != Ok ==> fifo.Contents() == old(fifo.Contents())
    ensures ret == Ok ==> (
      |fifo.Contents()| == |old(fifo.Contents())| + 1 &&
      fifo.Contents()[..|old(fifo.Contents())|] == old(fifo.Contents()) &&
      Describes(fifo.Contents()[|old(fifo.Contents())|], d, inputTime, maxLatencyUs, maxNetworkLatencyUs))
  {
    var item := fifo.PopFree();
    if item == NIL {
      return ErrorQueueFull;
    }
    fifo.SetValue(item, Fill(fifo.pool[item].value, d, inputTime, maxLatencyUs, maxNetworkLatencyUs));
    var res := fifo.EnqueueItem(item);
    // cannot fail: the item came off the free list, so the queue was not full
    ret := Ok;
  }

  /**
   * ARSTREAM2_RtpSender_SendNewNalu: BAD_PARAMETERS for a missing sender or
   * descriptor, an invalid descriptor or a sender whose thread is not
   * running; QUEUE_FULL when the FIFO is full; otherwise the NALU is queued
   * behind the others.
   */
  method SendNewNalu(sender: Sender?, nalu: Option<NaluDesc>, inputTime: u64) returns (ret: Error)
    requires sender != null ==> sender.Ready()
    modifies if sender == null then {} else {sender.naluFifo, sender.naluFifo.pool}
    ensures sender != null ==> sender.Ready() && sender.naluFifo.size == old(sender.naluFifo.size)
    ensures !(sender != null && nalu.Some? && DescValid(nalu.value) && sender.threadStarted) ==>
      ret == ErrorBadParameters
    ensures ret != Ok ==> sender == null || sender.naluFifo.Contents() == old(sender.naluFifo.Contents())
    ensures sender != null && nalu.Some? && DescValid(nalu.value) && sender.threadStarted ==> (
      var before := old(sender.naluFifo.Contents());
      ret == (if old(sender.naluFifo.count) >= sender.naluFifo.size then ErrorQueueFull else Ok) &&
      (ret == Ok ==>
        |sender.naluFifo.Contents()| == |before| + 1 && sender.naluFifo.Contents()[..|before|] == before &&
        Describes(sender.naluFifo.Contents()[|before|], nalu.value, inputTime,
                  sender.maxLatencyUs, sender.maxNetworkLatencyUs)))
  {
    if sender == null || nalu.None? || !DescValid(nalu.value) {
      return ErrorBadParameters;
    }
    if !sender.threadStarted {
      return ErrorBadParameters;
    }
    ret := EnqueueDesc(sender.naluFifo, nalu.value, inputTime, sender.maxLatencyUs, sender.maxNetworkLatencyUs);
  }

  /** The argument checks of SendNNewNalu: an array of naluCount > 0 valid descriptors. */
  predicate BatchValid(nalus: Option<seq<NaluDesc>>, naluCount: int)
    requires nalus.Some? ==> naluCount <= |nalus.value|
  {
    nalus.Some? && naluCount > 0 && forall k :: 0 <= k < naluCount ==> DescValid(nalus.value[k])
  }

  /**
   * ARSTREAM2_RtpSender_SendNNewNalu: every descriptor is checked before any
   * is queued; then they are queued in order until the FIFO is full, which
   * reports QUEUE_FULL and leaves the NALUs already queued in place.
   */
  method SendNNewNalu(sender: Sender?, nalus: Option<seq<NaluDesc>>, naluCount: int, inputTime: u64)
    returns (ret: Error)
    requires nalus.Some? ==> naluCount <= |nalus.value|
    requires sender != null ==> sender.Ready()
    modifies if sender == null then {} else {sender.naluFifo, sender.naluFifo.pool}
    ensures sender != null ==> sender.Ready() && sender.naluFifo.size == old(sender.naluFifo.size)
    ensures !(sender != null && BatchValid(nalus, naluCount) && sender.threadStarted) ==> (
      ret == ErrorBadParameters &&
      (sender == null || sender.naluFifo.Contents() == old(sender.naluFifo.Contents())))
    ensures sender != null && BatchValid(nalus, naluCount) && sender.threadStarted ==> (
      var before := old(sender.naluFifo.Contents());
      var room := sender.naluFifo.size - |before|;
      var queued := if naluCount <= room then naluCount else room;
      ret == (if naluCount <= room then Ok else ErrorQueueFull) &&
      |sender.naluFifo.Contents()| == |before| + queued && sender.naluFifo.Contents()[..|before|] == before &&
      forall k :: 0 <= k < queued ==>
        Describes(sender.naluFifo.Contents()[|before| + k], nalus.value[k], inputTime,
                  sender.maxLatencyUs, sender.maxNetworkLatencyUs))
  {
    ret := Ok;
    if sender == null || nalus.None? || naluCount <= 0 {
      ret := ErrorBadParameters;
    }
    if nalus.Some? {
      var k := 0;
      while k < naluCount
        invariant 0 <= k <= if naluCount < 0 then 0 else naluCount
        invariant ret == Ok || ret == ErrorBadParameters
        invariant (ret == Ok) == (sender != null && naluCount > 0 &&
                                  forall j :: 0 <= j < k ==> DescValid(nalus.value[j]))
      {
        if !DescValid(nalus.value[k]) {
          ret := ErrorBadParameters;
        }
        k := k + 1;
      }
    }
    if ret == Ok && !sender.threadStarted {
      ret := ErrorBadParameters;
    }
    if ret == Ok {
      ret := EnqueueAll(sender, nalus.value[..naluCount], inputTime);
    }
  }

  /** How many of n NALUs fit in a FIFO with room for `room` more. */
  function Queued(n: int, room: int): int
  {
    if n <= room then n else room
  }

  /** One more NALU queued after the first k keeps the queue's prefix and its description of the batch. */
  lemma DescribedAppend(before: seq<Nalu>, c: seq<Nalu>, c': seq<Nalu>, descs: seq<NaluDesc>, k: nat,
                        inputTime: u64, maxLatencyUs: u32, maxNetworkLatencyUs: u32)
    requires k < |descs| && |c| == |before| + k && c[..|before|] == before
    requires forall j :: 0 <= j < k ==> Describes(c[|before| + j], descs[j], inputTime, maxLatencyUs, maxNetworkLatencyUs)
    requires |c'| == |c| + 1 && c'[..|c|] == c && Describes(c'[|c|], descs[k], inputTime, maxLatencyUs, maxNetworkLatencyUs)
    ensures c'[..|before|] == before
    ensures forall j :: 0 <= j < k + 1 ==> Describes(c'[|before| + j], descs[j], inputTime, maxLatencyUs, maxNetworkLatencyUs)
  {
    forall j | 0 <= j < k
      ensures Describes(c'[|before| + j], descs[j], inputTime, maxLatencyUs, maxNetworkLatencyUs)
    {
      assert c'[..|c|][|before| + j] == c'[|before| + j];
    }
    assert c'[..|before|] == c'[..|c|][..|before|];
  }

  /** The enqueue loop of SendNNewNalu, stopping at the first full FIFO. */
  method EnqueueAll(sender: Sender, descs: seq<NaluDesc>, inputTime: u64) returns (ret: Error)
    requires sender.Ready()
    modifies sender.naluFifo, sender.naluFifo.pool
    ensures sender.Ready() && sender.naluFifo.size == old(sender.naluFifo.size)
    ensures ret == (if |descs| <= sender.naluFifo.size - |old(sender.naluFifo.Contents())| then Ok else ErrorQueueFull)
    ensures |sender.naluFifo.Contents()| == |old(sender.naluFifo.Contents())| + Queued(|descs|, sender.naluFifo.size - |old(sender.naluFifo.Contents())|)
    ensures sender.naluFifo.Contents()[..|old(sender.naluFifo.Contents())|] == old(sender.naluFifo.Contents())
    ensures forall k :: 0 <= k < Queued(|descs|, sender.naluFifo.size - |old(sender.naluFifo.Contents())|) ==>
        Describes(sender.naluFifo.Contents()[|old(sender.naluFifo.Contents())| + k], descs[k], inputTime,
                  sender.maxLatencyUs, sender.maxNetworkLatencyUs)
  {
    ghost var before := sender.naluFifo.Contents();
    var fifo := sender.naluFifo;
    ret := Ok;
    var k := 0;
    while k < |descs|
      invariant 0 <= k <= |descs| && ret == Ok && fifo.Valid() && fifo.Conserved() && fifo.size == old(fifo.size)
      invariant fifo.pool == old(fifo.pool) && fifo.count == |fifo.Contents()|
      invariant |fifo.Contents()| == |before| + k <= fifo.size && fifo.Contents()[..|before|] == before
      invariant forall j :: 0 <= j < k ==>
        Describes(fifo.Contents()[|before| + j], descs[j], inputTime, sender.maxLatencyUs, sender.maxNetworkLatencyUs)
    {
      ghost var c := fifo.Contents();
      ret := EnqueueDesc(fifo, descs[k], inputTime, sender.maxLatencyUs, sender.maxNetworkLatencyUs);
      if ret != Ok {
        return;
      }
      DescribedAppend(before, c, fifo.Contents(), descs, k, inputTime, sender.maxLatencyUs, sender.maxNetworkLatencyUs);
      k := k + 1;
    }
  }

  // ---------------------------------------------------------------------------
  // Flushing the NALU FIFO (FlushNaluFifo, FlushNaluQueue)

  /**
   * The callbacks a flush makes for the queued NALUs, in order, and the
   * lastAuCallbackTimestamp it leaves: each NALU is cancelled through the
   * NALU callback, and a NALU that ends its AU cancels the AU through the
   * AU callback unless the AU callback was last called for its timestamp.
   */
  function FlushEvents(nalus: seq<Nalu>, naluCallback: bool, auCallback: bool, last: u64): (r: (seq<Event>, u64))
  {
    if nalus == [] then ([], last)
    else
      var h := HeadEvents(nalus[0], naluCallback, auCallback, last);
      var rest := FlushEvents(nalus[1..], naluCallback, auCallback, h.1);
      (h.0 + rest.0, rest.1)
  }

  /** The NALU user pointers a sequence of callbacks cancels, in order. */
  function CancelledNalus(events: seq<Event>): seq<Ptr>
  {
    if events == [] then []
    else (if events[0].NaluCancelled? then [events[0].naluUserPtr] else []) + CancelledNalus(events[1..])
  }

  /** The AU timestamps a sequence of callbacks cancels, in order. */
  function CancelledAus(events: seq<Event>): seq<u64>
  {
    if events == [] then []
    else (if events[0].AuCancelled? then [events[0].ntpTimestamp] else []) + CancelledAus(events[1..])
  }

  function UserPtrs(nalus: seq<Nalu>): seq<Ptr>
  {
    if nalus == [] then [] else [nalus[0].naluUserPtr] + UserPtrs(nalus[1..])
  }

  lemma {:induction false} CancelledAppend(a: seq<Event>, b: seq<Event>)
    ensures CancelledNalus(a + b) == CancelledNalus(a) + CancelledNalus(b)
    ensures CancelledAus(a + b) == CancelledAus(a) + CancelledAus(b)
  {
    if a != [] {
      assert (a + b)[1..] == a[1..] + b;
      CancelledAppend(a[1..], b);
    } else {
      assert a + b == b;
    }
  }

  /** With a NALU callback, a flush cancels every queued NALU once, in queue order; without one, none. */
  lemma {:induction false} FlushCancelsEveryNalu(nalus: seq<Nalu>, naluCallback: bool, auCallback: bool, last: u64)
    ensures CancelledNalus(FlushEvents(nalus, naluCallback, auCallback, last).0) ==
      if naluCallback then UserPtrs(nalus) else []
  {
    if nalus != [] {
      var n := nalus[0];
      var h := HeadEvents(n, naluCallback, auCallback, last);
      FlushCancelsEveryNalu(nalus[1..], naluCallback, auCallback, h.1);
      CancelledAppend(h.0, FlushEvents(nalus[1..], naluCallback, auCallback, h.1).0);
      HeadCancels(n, naluCallback, auCallback, last);
    }
  }

  /** No value follows an equal one, and the first differs from `last`. */
  predicate NoRepeats(s: seq<u64>, last: u64)
  {
    (s != [] ==> s[0] != last) && forall i :: 0 < i < |s| ==> s[i - 1] != s[i]
  }

  lemma NoRepeatsCons(x: u64, tail: seq<u64>, last: u64)
    requires x != last && NoRepeats(tail, x)
    ensures NoRepeats([x] + tail, last)
  {
    var s := [x] + tail;
    forall i | 0 < i < |s|
      ensures s[i - 1] != s[i]
    {
      if i > 1 {
        assert s[i - 1] == tail[i - 2] && s[i] == tail[i - 1];
      }
    }
  }

  /**
   * The AU callback is never called twice in a row for the same timestamp,
   * nor first for the timestamp it was last called for; and only with an
   * AU callback.
   */
  lemma {:induction false} FlushCancelsAuOncePerTimestamp(nalus: seq<Nalu>, naluCallback: bool, auCallback: bool, last: u64)
    ensures var aus := CancelledAus(FlushEvents(nalus, naluCallback, auCallback, last).0);
      (!auCallback ==> aus == []) &&
      (aus != [] ==> aus[0] != last) &&
      (forall i :: 0 < i < |aus| ==> aus[i - 1] != aus[i])
  {
    if nalus != [] {
      var n := nalus[0];
      var h := HeadEvents(n, naluCallback, auCallback, last);
      FlushCancelsAuOncePerTimestamp(nalus[1..], naluCallback, auCallback, h.1);
      var rest := FlushEvents(nalus[1..], naluCallback, auCallback, h.1).0;
      CancelledAppend(h.0, rest);
      HeadCancels(n, naluCallback, auCallback, last);
      var tail := CancelledAus(rest);
      if h.1 != last {
        NoRepeatsCons(n.ntpTimestamp, tail, last);
      }
    }
  }

  /** The callbacks of the head NALU: what FlushEvents adds for it, and the timestamp it leaves. */
  function HeadEvents(n: Nalu, naluCallback: bool, auCallback: bool, last: u64): (r: (seq<Event>, u64))
  {
    var fire := auCallback && n.isLastInAu != 0 && n.ntpTimestamp != last;
    ((if naluCallback then [NaluCancelled(n.naluUserPtr)] else []) +
     (if fire then [AuCancelled(n.auUserPtr, n.ntpTimestamp)] else []),
     if fire then n.ntpTimestamp else last)
  }

  /** What the head NALU's callbacks cancel: its NALU, and its AU when the AU callback fires. */
  lemma HeadCancels(n: Nalu, naluCallback: bool, auCallback: bool, last: u64)
    ensures var h := HeadEvents(n, naluCallback, auCallback, last);
      CancelledNalus(h.0) == (if naluCallback then [n.naluUserPtr] else []) &&
      CancelledAus(h.0) == (if h.1 != last then [n.ntpTimestamp] else []) &&
      (h.1 != last ==> auCallback && h.1 == n.ntpTimestamp)
  {
    var e1: seq<Event> := if naluCallback then [NaluCancelled(n.naluUserPtr)] else [];
    var e2: seq<Event> := if HeadEvents(n, naluCallback, auCallback, last).1 != last then [AuCancelled(n.auUserPtr, n.ntpTimestamp)] else [];
    CancelledAppend(e1, e2);
  }

  /** The flush of a queue is the head's callbacks followed by the flush of the rest. */
  lemma FlushSplit(nalus: seq<Nalu>, naluCallback: bool, auCallback: bool, last: u64, events: seq<Event>, g: (seq<Event>, u64))
    requires nalus != []
    requires var f := FlushEvents(nalus, naluCallback, auCallback, last); events + f.0 == g.0 && f.1 == g.1
    ensures var h := HeadEvents(nalus[0], naluCallback, auCallback, last);
      var f := FlushEvents(nalus[1..], naluCallback, auCallback, h.1);
      (events + h.0) + f.0 == g.0 && f.1 == g.1
  {
  }

  /**
   * One iteration of the flush: dequeue the head NALU and make its
   * callbacks; `events` and the FIFO together still account for the whole
   * flush.
   */
  method FlushStep(sender: Sender, ghost all: seq<Nalu>, ghost last0: u64, events: seq<Event>)
    returns (events': seq<Event>)
    requires sender.Ready() && sender.naluFifo.Contents() != []
    requires var f := FlushEvents(sender.naluFifo.Contents(), sender.naluCallback, sender.auCallback,
                                  sender.lastAuCallbackTimestamp);
      var g := FlushEvents(all, sender.naluCallback, sender.auCallback, last0);
      events + f.0 == g.0 && f.1 == g.1
    modifies sender`lastAuCallbackTimestamp, sender.naluFifo, sender.naluFifo.pool
    ensures sender.Ready() && sender.naluFifo.size == old(sender.naluFifo.size)
    ensures sender.naluFifo.pool == old(sender.naluFifo.pool)
    ensures sender.naluFifo.Contents() == old(sender.naluFifo.Contents())[1..]
    ensures var f := FlushEvents(sender.naluFifo.Contents(), sender.naluCallback, sender.auCallback,
                                 sender.lastAuCallbackTimestamp);
      var g := FlushEvents(all, sender.naluCallback, sender.auCallback, last0);
      events' + f.0 == g.0 && f.1 == g.1
  {
    FlushSplit(sender.naluFifo.Contents(), sender.naluCallback, sender.auCallback, sender.lastAuCallbackTimestamp,
               events, FlushEvents(all, sender.naluCallback, sender.auCallback, last0));
    var ret, nalu := DequeueNalu(sender.naluFifo);
    var h := Callbacks(nalu, sender.naluCallback, sender.auCallback, sender.lastAuCallbackTimestamp);
    events' := events + h.0;
    sender.lastAuCallbackTimestamp := h.1;
  }

  /** The callback calls of one dequeued NALU, in the order the flush loop makes them. */
  method Callbacks(nalu: Nalu, naluCallback: bool, auCallback: bool, last: u64) returns (r: (seq<Event>, u64))
    ensures r == HeadEvents(nalu, naluCallback, auCallback, last)
  {
    var events: seq<Event> := [];
    var last' := last;
    if naluCallback {
      events := events + [NaluCancelled(nalu.naluUserPtr)];
    }
    assert events == if naluCallback then [NaluCancelled(nalu.naluUserPtr)] else [];
    assert events + [] == events;
    if auCallback && nalu.isLastInAu != 0 {
      if nalu.ntpTimestamp != last' {
        last' := nalu.ntpTimestamp;
        events := events + [AuCancelled(nalu.auUserPtr, nalu.ntpTimestamp)];
      }
    }
    r := (events, last');
  }

  /**
   * ARSTREAM2_RtpSender_FlushNaluFifo: -1 without a sender; otherwise every
   * queued NALU is dequeued, with the callbacks FlushEvents lists.
   */
  method FlushNaluFifo(sender: Sender?) returns (ret: int, events: seq<Event>)
    requires sender != null ==> sender.Ready()
    modifies if sender == null then {} else {sender, sender.naluFifo, sender.naluFifo.pool}
    ensures sender == null ==> ret == -1 && events == []
    ensures sender != null ==> (
      ret == 0 && sender.Ready() && sender.naluFifo.size == old(sender.naluFifo.size) &&
      sender.naluFifo.Contents() == [] && sender.threadStarted == old(sender.threadStarted) &&
      var f := FlushEvents(old(sender.naluFifo.Contents()), sender.naluCallback, sender.auCallback,
                           old(sender.lastAuCallbackTimestamp));
      events == f.0 && sender.lastAuCallbackTimestamp == f.1)
  {
    if sender == null {
      return -1, [];
    }
    events := FlushAll(sender);
    ret := 0;
  }

  /** The dequeue loop of FlushNaluFifo. */
  method FlushAll(sender: Sender) returns (events: seq<Event>)
    requires sender.Ready()
    modifies sender`lastAuCallbackTimestamp, sender.naluFifo, sender.naluFifo.pool
    ensures sender.Ready() && sender.naluFifo.size == old(sender.naluFifo.size) && sender.naluFifo.Contents() == []
    ensures var f := FlushEvents(old(sender.naluFifo.Contents()), sender.naluCallback, sender.auCallback,
                                 old(sender.lastAuCallbackTimestamp));
      events == f.0 && sender.lastAuCallbackTimestamp == f.1
  {
    events := [];
    ghost var all := sender.naluFifo.Contents();
    ghost var last0 := sender.lastAuCallbackTimestamp;
    sender.naluFifo.EmptyIff();
    while sender.naluFifo.head != NIL
      invariant sender.Ready() && sender.naluFifo.size == old(sender.naluFifo.size)
      invariant sender.naluFifo.pool == old(sender.naluFifo.pool)
      invariant (sender.naluFifo.head == NIL) == (sender.naluFifo.Contents() == [])
      invariant var f := FlushEvents(sender.naluFifo.Contents(), sender.naluCallback, sender.auCallback,
                                     sender.lastAuCallbackTimestamp);
        var g := FlushEvents(all, sender.naluCallback, sender.auCallback, last0);
        events + f.0 == g.0 && f.1 == g.1
      decreases |sender.naluFifo.Contents()|
    {
      events := FlushStep(sender, all, last0, events);
      sender.naluFifo.EmptyIff();
    }
    assert events + [] == events;
  }

  /** ARSTREAM2_RtpSender_FlushNaluQueue: FlushNaluFifo, with BAD_PARAMETERS for a missing sender. */
  method FlushNaluQueue(sender: Sender?) returns (ret: Error, events: seq<Event>)
    requires sender != null ==> sender.Ready()
    modifies if sender == null then {} else {sender, sender.naluFifo, sender.naluFifo.pool}
    ensures sender == null ==> ret == ErrorBadParameters && events == []
    ensures sender != null ==> (
      ret == Ok && sender.Ready() && sender.naluFifo.Contents() == [] &&
      events == FlushEvents(old(sender.naluFifo.Contents()), sender.naluCallback, sender.auCallback,
                            old(sender.lastAuCallbackTimestamp)).0)
  {
    var r;
    r, events := FlushNaluFifo(sender);
    ret := if r != 0 then ErrorBadParameters else Ok;
  }

  // ---------------------------------------------------------------------------
  // Monitoring (UpdateMonitoring, GetMonitoring)

  /**
   * ARSTREAM2_RtpSender_UpdateMonitoring: nothing without a sender; else
   * the point becomes the newest of the ring and no other slot changes.
   */
  method UpdateMonitoring(sender: Sender?, p: MonitoringPoint)
    requires sender != null ==> sender.monitoring.Valid()
    modifies if sender == null then {} else {sender.monitoring, sender.monitoring.points}
    ensures sender != null ==> (
      var m := sender.monitoring;
      m.Valid() && m.count == (if old(m.count) < MAX_POINTS then old(m.count) + 1 else MAX_POINTS) &&
      m.index == (old(m.index) + 1) % MAX_POINTS && m.points[..] == old(m.points[..])[m.index := p] &&
      m.Recent() == [p] + old(m.Recent())[..m.count - 1])
  {
    if sender == null {
      return;
    }
    sender.monitoring.Push(p);
  }

  function OutputTime(p: MonitoringPoint): int
  {
    p.outputTimestamp
  }

  /** Acquisition to network time: output minus NTP timestamp, uint64 difference stored in a uint32. */
  function AcqToNetworkTime(p: MonitoringPoint): u32
  {
    U32(p.outputTimestamp as int - p.ntpTimestamp as int)
  }

  /** Network time: output minus input timestamp, uint64 difference stored in a uint32. */
  function NetworkTime(p: MonitoringPoint): u32
  {
    U32(p.outputTimestamp as int - p.inputTimestamp as int)
  }

  /** The accumulators of GetMonitoring's scan. */
  datatype Stats = Stats(
    bytesSentSum: u32, packetsSent: nat, acqToNetworkSum: u64, networkSum: u64,
    acqToNetworkMin: u32, acqToNetworkMax: u32, networkMin: u32, networkMax: u32,
    packetSizeMin: u32, packetSizeMax: u32, bytesDroppedSum: u32, packetsDropped: nat)

  const NoStats: Stats := Stats(0, 0, 0, 0, 0xFFFF_FFFF, 0, 0xFFFF_FFFF, 0, 0xFFFF_FFFF, 0, 0, 0)

  function Min(a: u32, b: u32): u32 { if b < a then b else a }
  function Max(a: u32, b: u32): u32 { if b > a then b else a }

  /**
   * One point of the window taken into the accumulators: its bytes are
   * summed (uint32), and a point that sent bytes counts as a packet with its
   * times and size in the sums (uint64) and the minima and maxima; a point
   * that dropped bytes counts as a dropped packet.
   */
  function AddPoint(t: Stats, p: MonitoringPoint): Stats
  {
    var sent := p.bytesSent != 0;
    var acq, net := AcqToNetworkTime(p), NetworkTime(p);
    Stats(
      U32(t.bytesSentSum + p.bytesSent),
      if sent then t.packetsSent + 1 else t.packetsSent,
      if sent then U64(t.acqToNetworkSum + acq) else t.acqToNetworkSum,
      if sent then U64(t.networkSum + net) else t.networkSum,
      if sent then Min(t.acqToNetworkMin, acq) else t.acqToNetworkMin,
      if sent then Max(t.acqToNetworkMax, acq) else t.acqToNetworkMax,
      if sent then Min(t.networkMin, net) else t.networkMin,
      if sent then Max(t.networkMax, net) else t.networkMax,
      if sent then Min(t.packetSizeMin, p.bytesSent) else t.packetSizeMin,
      if sent then Max(t.packetSizeMax, p.bytesSent) else t.packetSizeMax,
      U32(t.bytesDroppedSum + p.bytesDropped),
      if p.bytesDropped != 0 then t.packetsDropped + 1 else t.packetsDropped)
  }

  /** The accumulators after a window, taken newest first. */
  function StatsOf(w: seq<MonitoringPoint>): Stats
  {
    if w == [] then NoStats else AddPoint(StatsOf(w[..|w| - 1]), w[|w| - 1])
  }

  /** The points of a window that sent bytes, oldest last. */
  function Sent(w: seq<MonitoringPoint>): seq<MonitoringPoint>
  {
    if w == [] then []
    else Sent(w[..|w| - 1]) + (if w[|w| - 1].bytesSent != 0 then [w[|w| - 1]] else [])
  }

  /** The points of a window that dropped bytes, oldest last. */
  function Dropped(w: seq<MonitoringPoint>): seq<MonitoringPoint>
  {
    if w == [] then []
    else Dropped(w[..|w| - 1]) + (if w[|w| - 1].bytesDropped != 0 then [w[|w| - 1]] else [])
  }

  /** The bytes a window sent, without wrap-around. */
  function SentBytes(w: seq<MonitoringPoint>): nat
  {
    if w == [] then 0 else SentBytes(w[..|w| - 1]) + w[|w| - 1].bytesSent
  }

  /** The packet counts are the numbers of points that sent, and that dropped, bytes. */
  lemma {:induction false} StatsCounts(w: seq<MonitoringPoint>)
    ensures StatsOf(w).packetsSent == |Sent(w)| && StatsOf(w).packetsDropped == |Dropped(w)|
  {
    if w != [] {
      StatsCounts(w[..|w| - 1]);
    }
  }

  /**
   * The minima and maxima bound the size and times of every point that sent
   * bytes; with no such point they keep their initial values.
   */
  lemma {:induction false} StatsBounds(w: seq<MonitoringPoint>)
    ensures var t := StatsOf(w);
      forall i :: 0 <= i < |w| && w[i].bytesSent != 0 ==> (
        t.packetSizeMin <= w[i].bytesSent <= t.packetSizeMax &&
        t.acqToNetworkMin <= AcqToNetworkTime(w[i]) <= t.acqToNetworkMax &&
        t.networkMin <= NetworkTime(w[i]) <= t.networkMax)
    ensures var t := StatsOf(w);
      t.packetsSent == 0 ==> (
        t.packetSizeMin == 0xFFFF_FFFF && t.packetSizeMax == 0 &&
        t.acqToNetworkMin == 0xFFFF_FFFF && t.acqToNetworkMax == 0 &&
        t.networkMin == 0xFFFF_FFFF && t.networkMax == 0)
  {
    if w != [] {
      var v := w[..|w| - 1];
      StatsBounds(v);
      forall i | 0 <= i < |w| - 1
        ensures w[i] == v[i]
      {
      }
    }
  }

  /** The smallest and the largest packet size belong to packets of the window. */
  lemma {:induction false} SizeBoundsAttained(w: seq<MonitoringPoint>)
    ensures var t := StatsOf(w);
      t.packetsSent > 0 ==> (
        (exists i :: 0 <= i < |w| && w[i].bytesSent != 0 && w[i].bytesSent == t.packetSizeMin) &&
        (exists i :: 0 <= i < |w| && w[i].bytesSent != 0 && w[i].bytesSent == t.packetSizeMax))
  {
    if w != [] {
      var v := w[..|w| - 1];
      SizeBoundsAttained(v);
      StatsBounds(v);
      if StatsOf(v).packetsSent > 0 {
        var i :| 0 <= i < |v| && v[i].bytesSent != 0 && v[i].bytesSent == StatsOf(v).packetSizeMin;
        var j :| 0 <= j < |v| && v[j].bytesSent != 0 && v[j].bytesSent == StatsOf(v).packetSizeMax;
        assert w[i] == v[i] && w[j] == v[j];
      }
      var n := |w| - 1;
      if w[n].bytesSent != 0 {
        assert w[n] == w[|w| - 1];
      }
    }
  }

  /** Taking in one more packet size keeps the sum between the count times the extremes. */
  lemma RangeStep(k: nat, lo: int, hi: int, s: int, b: int)
    requires k * lo <= s <= k * hi
    ensures (k + 1) * Min'(lo, b) <= s + b <= (k + 1) * Max'(hi, b)
  {
    if k > 0 {
      MulLe(Min'(lo, b), lo, k);
      MulLe(hi, Max'(hi, b), k);
    }
    assert (k + 1) * Min'(lo, b) == k * Min'(lo, b) + Min'(lo, b);
    assert (k + 1) * Max'(hi, b) == k * Max'(hi, b) + Max'(hi, b);
  }

  function Min'(a: int, b: int): int { if b < a then b else a }
  function Max'(a: int, b: int): int { if b > a then b else a }

  /**
   * Without wrap-around the byte sum is exact and lies between the packet
   * count times the smallest and times the largest packet size.
   */
  lemma {:induction false} SentBytesBounds(w: seq<MonitoringPoint>)
    requires SentBytes(w) < TWO_32
    ensures var t := StatsOf(w);
      t.bytesSentSum == SentBytes(w) &&
      t.packetsSent * t.packetSizeMin <= SentBytes(w) <= t.packetsSent * t.packetSizeMax
  {
    if w != [] {
      var v, p := w[..|w| - 1], w[|w| - 1];
      SentBytesBounds(v);
      var t := StatsOf(v);
      if p.bytesSent != 0 {
        RangeStep(t.packetsSent, t.packetSizeMin, t.packetSizeMax, SentBytes(v), p.bytesSent);
      }
    }
  }

  /** Without wrap-around the mean packet size lies between the smallest and the largest. */
  lemma MeanSizeWithinBounds(w: seq<MonitoringPoint>)
    requires SentBytes(w) < TWO_32 && StatsOf(w).packetsSent > 0
    ensures var t := StatsOf(w);
      t.packetSizeMin <= Mean(t.bytesSentSum, t.packetsSent) <= t.packetSizeMax
  {
    SentBytesBounds(w);
    var t := StatsOf(w);
    MeanBetween(t.packetsSent, t.packetSizeMin, t.packetSizeMax, t.bytesSentSum);
  }

  /** A sum between k times lo and k times hi has its quotient by k between lo and hi. */
  lemma MeanBetween(k: int, lo: int, hi: int, s: int)
    requires k > 0 && k * lo <= s <= k * hi
    ensures lo <= s / k <= hi
  {
    var q := s / k;
    DivBounds(s, k);
    assert (q + 1) * k == q * k + k && lo * k == k * lo;
    assert (hi + 1) * k == hi * k + k && hi * k == k * hi;
    if q < lo {
      MulLe(q + 1, lo, k);
      assert false;
    }
    if q > hi {
      MulLe(hi + 1, q, k);
      assert false;
    }
  }

  lemma StatsOfSnoc(w: seq<MonitoringPoint>, p: MonitoringPoint)
    ensures StatsOf(w + [p]) == AddPoint(StatsOf(w), p)
  {
    assert (w + [p])[..|w|] == w;
  }

  /** ARSTREAM2_RtpSender_MonitoringData_t without the jitters and the standard deviation. */
  datatype MonitoringData = MonitoringData(
    realTimeIntervalUs: u32,
    acqToNetworkTimeMin: u32, acqToNetworkTimeMax: u32, acqToNetworkTimeMean: u32,
    networkTimeMin: u32, networkTimeMax: u32, networkTimeMean: u32,
    bytesSent: u32, packetSizeMin: u32, packetSizeMax: u32, packetSizeMean: u32, packetsSent: int,
    bytesDropped: u32, packetsDropped: int)

  /** A sum over the packets sent, divided by their number; 0 without packets. */
  function Mean(sum: int, packets: int): int
    requires sum >= 0
  {
    if packets > 0 then sum / packets else 0
  }

  /** Where the scan ended: the output time of the oldest point of the window, or `start`. */
  function EndTime(w: seq<MonitoringPoint>, start: u64): u64
  {
    if w == [] then start else w[|w| - 1].outputTimestamp
  }

  /** The record filled from the accumulators: the time spanned back from `start`, and the means. */
  function Report(t: Stats, start: u64, endTime: u64): MonitoringData
  {
    MonitoringData(
      U32(start as int - endTime as int),
      t.acqToNetworkMin, t.acqToNetworkMax, U32(Mean(t.acqToNetworkSum, t.packetsSent)),
      t.networkMin, t.networkMax, U32(Mean(t.networkSum, t.packetsSent)),
      t.bytesSentSum, t.packetSizeMin, t.packetSizeMax, U32(Mean(t.bytesSentSum, t.packetsSent)), t.packetsSent,
      t.bytesDroppedSum, t.packetsDropped)
  }

  /** What GetMonitoring reports for a window. */
  function Summary(w: seq<MonitoringPoint>, start: u64): MonitoringData
  {
    Report(StatsOf(w), start, EndTime(w, start))
  }

  /**
   * ARSTREAM2_RtpSender_GetMonitoring: BAD_PARAMETERS without a sender, an
   * output record or an interval; otherwise the summary of the points of
   * the window ending at startTime (the clock reading `now` when startTime
   * is 0) and reaching timeIntervalUs back.
   */
  method GetMonitoring(sender: Sender?, startTime: u64, timeIntervalUs: u32, hasOutput: bool, now: u64)
    returns (ret: Error, data: Option<MonitoringData>)
    requires sender != null ==> sender.monitoring.Valid()
    ensures sender == null || timeIntervalUs == 0 || !hasOutput ==> ret == ErrorBadParameters && data == None
    ensures sender != null && timeIntervalUs != 0 && hasOutput ==> (
      var start := if startTime == 0 then now else startTime;
      ret == Ok &&
      data == Some(Summary(Window(sender.monitoring.Recent(), OutputTime, start, timeIntervalUs), start)))
  {
    if sender == null || timeIntervalUs == 0 || !hasOutput {
      return ErrorBadParameters, None;
    }
    var start := startTime;
    if start == 0 {
      start := now;
    }
    var t, endTime := ScanWindow(sender.monitoring, start, timeIntervalUs);
    var report := MakeReport(t, start, endTime);
    data := Some(report);
    ret := Ok;
  }

  /** The end of GetMonitoring: the record filled from the accumulators, as Report says. */
  method MakeReport(t: Stats, start: u64, endTime: u64) returns (d: MonitoringData)
    ensures d == Report(t, start, endTime)
  {
    var acqToNetworkTimeMean, networkTimeMean, packetSizeMean := 0, 0, 0;
    if t.packetsSent > 0 {
      acqToNetworkTimeMean := U32(t.acqToNetworkSum / t.packetsSent);
      networkTimeMean := U32(t.networkSum / t.packetsSent);
      packetSizeMean := U32(t.bytesSentSum / t.packetsSent);
    }
    d := MonitoringData(
      U32(start as int - endTime as int),
      t.acqToNetworkMin, t.acqToNetworkMax, acqToNetworkTimeMean,
      t.networkMin, t.networkMax, networkTimeMean,
      t.bytesSentSum, t.packetSizeMin, t.packetSizeMax, packetSizeMean, t.packetsSent,
      t.bytesDroppedSum, t.packetsDropped);
  }

  /**
   * The backward scan of GetMonitoring: from the newest point, skip points
   * newer than `start`, stop at the first one older than the interval, and
   * accumulate the others; endTime is the output time of the last one kept.
   */
  method ScanWindow(ring: Ring<MonitoringPoint>, start: u64, interval: u32) returns (t: Stats, endTime: u64)
    requires ring.Valid()
    ensures var w := Window(ring.Recent(), OutputTime, start, interval);
      t == StatsOf(w) && endTime == EndTime(w, start)
  {
    ghost var rec := ring.Recent();
    ghost var w: seq<MonitoringPoint> := [];
    t := NoStats;
    endTime := start;
    var points := 0;
    var idx := ring.index;
    while points < ring.count
      invariant 0 <= points <= ring.count && idx == Behind(ring.index, points)
      invariant Window(rec, OutputTime, start, interval) == w + Window(rec[points..], OutputTime, start, interval)
      invariant t == StatsOf(w) && endTime == EndTime(w, start)
    {
      var p := ring.points[idx];
      assert p == rec[points];
      ScanStep(rec, OutputTime, start, interval, points, w);
      var curTime := p.outputTimestamp;
      PrevBehind(ring.index, points);
      if curTime > start {
        points := points + 1;
        idx := Prev(idx);
        continue;
      }
      if start - curTime > interval {
        return;
      }
      t := Accumulate(t, p);
      StatsOfSnoc(w, p);
      w := w + [p];
      endTime := curTime;
      points := points + 1;
      idx := Prev(idx);
    }
    ScanEnd(rec, OutputTime, start, interval, w);
  }

  /** The loop body of GetMonitoring for a point in the window, as AddPoint states it. */
  method Accumulate(t: Stats, p: MonitoringPoint) returns (t': Stats)
    ensures t' == AddPoint(t, p)
  {
    var bytesSentSum, packetsSent, acqToNetworkSum, networkSum := t.bytesSentSum, t.packetsSent, t.acqToNetworkSum, t.networkSum;
    var acqToNetworkMin, acqToNetworkMax, networkMin, networkMax := t.acqToNetworkMin, t.acqToNetworkMax, t.networkMin, t.networkMax;
    var packetSizeMin, packetSizeMax := t.packetSizeMin, t.packetSizeMax;
    var bytesSent := p.bytesSent;
    bytesSentSum := U32(bytesSentSum as int + bytesSent);
    if bytesSent != 0 {
      packetsSent := packetsSent + 1;
      var acqToNetworkTime := U32(p.outputTimestamp as int - p.ntpTimestamp as int);
      acqToNetworkSum := U64(acqToNetworkSum as int + acqToNetworkTime);
      var networkTime := U32(p.outputTimestamp as int - p.inputTimestamp as int);
      networkSum := U64(networkSum as int + networkTime);
      if acqToNetworkTime < acqToNetworkMin { acqToNetworkMin := acqToNetworkTime; }
      if acqToNetworkTime > acqToNetworkMax { acqToNetworkMax := acqToNetworkTime; }
      if networkTime < networkMin { networkMin := networkTime; }
      if networkTime > networkMax { networkMax := networkTime; }
      if bytesSent < packetSizeMin { packetSizeMin := bytesSent; }
      if bytesSent > packetSizeMax { packetSizeMax := bytesSent; }
    }
    var bytesDroppedSum, packetsDropped := U32(t.bytesDroppedSum as int + p.bytesDropped), t.packetsDropped;
    if p.bytesDropped != 0 {
      packetsDropped := packetsDropped + 1;
    }
    t' := Stats(bytesSentSum, packetsSent, acqToNetworkSum, networkSum, acqToNetworkMin, acqToNetworkMax,
                networkMin, networkMax, packetSizeMin, packetSizeMax, bytesDroppedSum, packetsDropped);
  }

}
