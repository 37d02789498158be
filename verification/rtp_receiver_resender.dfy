/*
 * The resenders of an RTP receiver (src/arstream2_rtp_receiver_resender.c):
 * the pool of NALU buffers the received NAL units are copied into, shared
 * by reference count between the senders that resend them, and the array
 * of resenders with its append and order-preserving removal.
 */
module RtpReceiverResender {
  import opened CInt
  import opened ArStream2Error
  import opened RtpReceiver
  import RtpSender

  /** ARSTREAM2_RTP_RECEIVER_RTP_RESENDER_NALU_BUFFER_MALLOC_CHUNK_SIZE */
  const NALU_BUFFER_MALLOC_CHUNK_SIZE: int := 4096
  /** ARSTREAM2_H264_BYTE_STREAM_NALU_START_CODE_LENGTH */
  const START_CODE_LENGTH: int := 4

  // ---------------------------------------------------------------------------
  // The NALU buffer pool (GetAvailableNaluBuffer)

  /** A buffer no resender holds. */
  predicate Free(b: NaluBuffer)
  {
    b.useCount <= 0
  }

  /** A free buffer large enough for the NALU. */
  predicate Fits(b: NaluBuffer, naluSize: int)
  {
    Free(b) && b.naluBufferSize >= naluSize
  }

  /** The index of the first buffer that fits, or -1. */
  function FirstFit(bufs: seq<NaluBuffer>, naluSize: int): (i: int)
    ensures -1 <= i < |bufs|
    ensures i >= 0 ==> Fits(bufs[i], naluSize) && forall j :: 0 <= j < i ==> !Fits(bufs[j], naluSize)
    ensures i == -1 ==> forall j :: 0 <= j < |bufs| ==> !Fits(bufs[j], naluSize)
  {
    if bufs == [] then -1
    else if Fits(bufs[0], naluSize) then 0
    else var r := FirstFit(bufs[1..], naluSize); if r < 0 then -1 else r + 1
  }

  /** The index of the first free buffer, or -1. */
  function FirstFree(bufs: seq<NaluBuffer>): (i: int)
    ensures -1 <= i < |bufs|
    ensures i >= 0 ==> Free(bufs[i]) && forall j :: 0 <= j < i ==> !Free(bufs[j])
    ensures i == -1 ==> forall j :: 0 <= j < |bufs| ==> !Free(bufs[j])
  {
    if bufs == [] then -1
    else if Free(bufs[0]) then 0
    else var r := FirstFree(bufs[1..]); if r < 0 then -1 else r + 1
  }

  /**
   * A NALU size rounded up to a multiple of 4096 with C's truncating
   * division: never below the size, and for a positive size less than
   * 4096 above it.
   */
  function RoundUp(naluSize: int): (r: int)
    ensures r >= naluSize && r % NALU_BUFFER_MALLOC_CHUNK_SIZE == 0
    ensures naluSize > 0 ==> r < naluSize + NALU_BUFFER_MALLOC_CHUNK_SIZE
  {
    var a := naluSize + NALU_BUFFER_MALLOC_CHUNK_SIZE - 1;
    var q := TruncDiv(a, NALU_BUFFER_MALLOC_CHUNK_SIZE);
    RoundUpBounds(a, q);
    q * NALU_BUFFER_MALLOC_CHUNK_SIZE
  }

  lemma RoundUpBounds(a: int, q: int)
    requires q == TruncDiv(a, NALU_BUFFER_MALLOC_CHUNK_SIZE)
    ensures a - (NALU_BUFFER_MALLOC_CHUNK_SIZE - 1) <= q * NALU_BUFFER_MALLOC_CHUNK_SIZE
    ensures a >= 0 ==> q * NALU_BUFFER_MALLOC_CHUNK_SIZE <= a
  {
    var d := NALU_BUFFER_MALLOC_CHUNK_SIZE;
    if a >= 0 {
      DivBounds(a, d);
    } else {
      DivBounds(-a, d);
      assert q == -((-a) / d);
    }
  }

  /** The buffer a fresh allocation gives: `naluBufferSize` bytes, nothing copied in yet. */
  function Allocated(b: NaluBuffer, naluSize: int): NaluBuffer
  {
    b.(naluBufferSize := RoundUp(naluSize), copiedFrom := Null)
  }

  /**
   * GetAvailableNaluBuffer on the pool `bufs` of which `count` are in use:
   * the index of the buffer returned (-1 for NULL), the pool after, the
   * count after. The first free buffer that is large enough; failing that,
   * the first free buffer, reallocated; failing that, a new buffer appended
   * while the pool has room.
   */
  function Acquire(bufs: seq<NaluBuffer>, count: int, naluSize: int): (r: (int, seq<NaluBuffer>, int))
    requires |bufs| == MAX_NALU_BUFFER_COUNT && 0 <= count <= MAX_NALU_BUFFER_COUNT
    ensures |r.1| == MAX_NALU_BUFFER_COUNT && count <= r.2 <= count + 1 && r.2 <= MAX_NALU_BUFFER_COUNT
    ensures -1 <= r.0 < r.2
    ensures r.0 == -1 <==> count == MAX_NALU_BUFFER_COUNT && forall j :: 0 <= j < count ==> !Free(bufs[j])
    ensures r.0 == -1 ==> r.1 == bufs
    ensures r.0 >= 0 ==> (Fits(r.1[r.0], naluSize) &&
      forall j :: 0 <= j < MAX_NALU_BUFFER_COUNT && j != r.0 ==> r.1[j] == bufs[j])
    ensures r.0 >= 0 ==> r.1[r.0] == bufs[r.0] || r.1[r.0].naluBufferSize == RoundUp(naluSize)
    ensures r.2 == count + 1 ==> (r.0 == count && r.1[count].useCount == 0 &&
      forall j :: 0 <= j < count ==> !Free(bufs[j]))
  {
    var fit := FirstFit(bufs[..count], naluSize);
    if fit >= 0 then (fit, bufs, count)
    else
      var free := FirstFree(bufs[..count]);
      if free >= 0 then (free, bufs[free := Allocated(bufs[free], naluSize)], count)
      else if count < MAX_NALU_BUFFER_COUNT then
        (count, bufs[count := Allocated(bufs[count], naluSize).(useCount := 0)], count + 1)
      else (-1, bufs, count)
  }

  /**
   * A reused buffer is taken only when no earlier free buffer fits, and a
   * buffer is reallocated only when no free buffer fits at all.
   */
  lemma AcquirePrefersFit(bufs: seq<NaluBuffer>, count: int, naluSize: int)
    requires |bufs| == MAX_NALU_BUFFER_COUNT && 0 <= count <= MAX_NALU_BUFFER_COUNT
    ensures var r := Acquire(bufs, count, naluSize);
      r.0 >= 0 && r.1[r.0] == bufs[r.0] ==> forall j :: 0 <= j < r.0 ==> !Fits(bufs[j], naluSize)
    ensures var r := Acquire(bufs, count, naluSize);
      r.0 >= 0 && r.1[r.0] != bufs[r.0] ==> forall j :: 0 <= j < count ==> !Fits(bufs[j], naluSize)
  {
    var fit := FirstFit(bufs[..count], naluSize);
    assert forall j :: 0 <= j < count ==> bufs[..count][j] == bufs[j];
    if fit < 0 {
      var free := FirstFree(bufs[..count]);
      if free >= 0 {
        assert forall j :: 0 <= j < free ==> !Free(bufs[j]);
      }
    }
  }

  /** The pool as GetAvailableNaluBuffer sees it. */
  ghost function Pool(receiver: Receiver): seq<NaluBuffer>
    reads receiver, receiver.naluBuffers
  {
    receiver.naluBuffers[..]
  }

  /**
   * ARSTREAM2_RtpReceiverResender_GetAvailableNaluBuffer (allocation
   * assumed to succeed): the buffer Acquire chooses, as an index into the
   * pool, and the pool and count it leaves.
   */
  method GetAvailableNaluBuffer(receiver: Receiver, naluSize: int) returns (idx: int)
    requires receiver.Valid()
    modifies receiver`naluBufferCount, receiver.naluBuffers
    ensures receiver.Valid()
    ensures (idx, Pool(receiver), receiver.naluBufferCount) ==
      Acquire(old(Pool(receiver)), old(receiver.naluBufferCount), naluSize)
  {
    var a := receiver.naluBuffers;
    var fit, availableCount := FindFit(a, receiver.naluBufferCount, naluSize);
    if fit >= 0 {
      return fit;
    }
    if availableCount > 0 {
      var free := FindFree(a, receiver.naluBufferCount);
      a[free] := Allocated(a[free], naluSize);
      return free;
    }
    if receiver.naluBufferCount < MAX_NALU_BUFFER_COUNT {
      idx := receiver.naluBufferCount;
      receiver.naluBufferCount := receiver.naluBufferCount + 1;
      a[idx] := Allocated(a[idx], naluSize).(useCount := 0);
      return idx;
    }
    idx := -1;
  }

  /** How many of the buffers are free. */
  function CountFree(bufs: seq<NaluBuffer>): (n: nat)
    ensures n <= |bufs|
    ensures n > 0 <==> FirstFree(bufs) >= 0
  {
    if bufs == [] then 0 else CountFree(bufs[..|bufs| - 1]) + (if Free(bufs[|bufs| - 1]) then 1 else 0)
  }

  /**
   * The first loop of GetAvailableNaluBuffer: the first buffer that fits,
   * and, when there is none, how many buffers are free.
   */
  method FindFit(a: array<NaluBuffer>, count: int, naluSize: int) returns (fit: int, availableCount: nat)
    requires 0 <= count <= a.Length
    ensures fit == FirstFit(a[..count], naluSize)
    ensures fit == -1 ==> availableCount == CountFree(a[..count])
  {
    fit := -1;
    availableCount := 0;
    var i := 0;
    while i < count
      invariant 0 <= i <= count
      invariant forall j :: 0 <= j < i ==> !Fits(a[j], naluSize)
      invariant availableCount == CountFree(a[..i])
    {
      assert a[..i + 1][..i] == a[..i];
      if a[i].useCount <= 0 {
        availableCount := availableCount + 1;
        if a[i].naluBufferSize >= naluSize {
          fit := i;
          break;
        }
      }
      i := i + 1;
    }
    assert forall j :: 0 <= j < count ==> a[..count][j] == a[j];
  }

  /** The second loop of GetAvailableNaluBuffer: the first free buffer, which exists. */
  method FindFree(a: array<NaluBuffer>, count: int) returns (free: int)
    requires 0 <= count <= a.Length && CountFree(a[..count]) > 0
    ensures free == FirstFree(a[..count]) && 0 <= free < count
  {
    assert forall j :: 0 <= j < count ==> a[..count][j] == a[j];
    var i := 0;
    while i < count
      invariant 0 <= i <= count
      invariant forall j :: 0 <= j < i ==> !Free(a[j])
    {
      if a[i].useCount <= 0 {
        return i;
      }
      i := i + 1;
    }
    assert false;
  }

  // ---------------------------------------------------------------------------
  // Resending (ResendNalu, NaluCallback)

  /** Which resenders of the array are running. */
  function Running(rs: seq<Resender?>): (r: seq<bool>)
    reads rs
    ensures |r| == |rs| && forall i :: 0 <= i < |rs| ==> r[i] == (rs[i] != null && rs[i].senderRunning)
  {
    if rs == [] then [] else Running(rs[..|rs| - 1]) + [rs[|rs| - 1] != null && rs[|rs| - 1].senderRunning]
  }

  /** How many of the resenders are running and accepted the NALU (`accepted[i]`: SendNewNalu returned OK). */
  function Sent(running: seq<bool>, accepted: seq<bool>): (n: nat)
    requires |running| <= |accepted|
    ensures n <= |running|
  {
    if running == [] then 0
    else Sent(running[..|running| - 1], accepted) + (if running[|running| - 1] && accepted[|running| - 1] then 1 else 0)
  }

  /** One more resender counted: it adds one exactly when it runs and accepted. */
  lemma SentStep(running: seq<bool>, i: int, accepted: seq<bool>)
    requires 0 <= i < |running| <= |accepted|
    ensures Sent(running[..i + 1], accepted) == Sent(running[..i], accepted) + (if running[i] && accepted[i] then 1 else 0)
  {
    assert running[..i + 1][..i] == running[..i];
  }

  /** The NALU as the resenders get it: the start code stripped when the receiver inserts them. */
  function Stripped(insertStartCodes: bool, naluBuffer: Ptr, naluSize: u32): (r: (Ptr, u32))
    ensures insertStartCodes && naluSize >= START_CODE_LENGTH ==> r.1 == naluSize - START_CODE_LENGTH
    ensures !insertStartCodes ==> r == (naluBuffer, naluSize)
  {
    if insertStartCodes then (Advance(naluBuffer, START_CODE_LENGTH), U32(naluSize - START_CODE_LENGTH))
    else (naluBuffer, naluSize)
  }

  /** A buffer holding the NALU, used `uses` more times. */
  function Copied(b: NaluBuffer, uses: int, nalu: (Ptr, u32), auTimestamp: u64, isLastNaluInAu: int): NaluBuffer
  {
    NaluBuffer(b.useCount + uses, b.naluBufferSize, nalu.1, auTimestamp, isLastNaluInAu, nalu.0)
  }

  function Advance(p: Ptr, k: int): Ptr
  {
    Ptr((if p.Null? then 0 else p.address) + k)
  }

  /**
   * ARSTREAM2_RtpReceiver_ResendNalu, the SendNewNalu outcome of resender i
   * being `accepted[i]`: -1 when the pool has no buffer for the NALU;
   * otherwise 0, with the NALU copied into the buffer Acquire chose, whose
   * use count has grown by exactly the number of running resenders that
   * accepted it, so that it is free again once each of them has called
   * NaluCallback.
   */
  method ResendNalu(receiver: Receiver, naluBuffer: Ptr, naluSize: u32, auTimestamp: u64, isLastNaluInAu: int,
                    accepted: seq<bool>)
    returns (ret: int, buf: int)
    requires receiver.Valid() && |accepted| == RESENDER_MAX_COUNT
    modifies receiver`naluBufferCount, receiver.naluBuffers
    ensures receiver.Valid()
    ensures (ret == -1 || ret == 0) && (ret == -1 <==> buf == -1)
    ensures var nalu := Stripped(receiver.settings.insertStartCodes, naluBuffer, naluSize);
      buf == Acquire(old(Pool(receiver)), old(receiver.naluBufferCount), I32(nalu.1)).0
    ensures ret == -1 ==> Pool(receiver) == old(Pool(receiver)) && receiver.naluBufferCount == old(receiver.naluBufferCount)
    ensures var nalu := Stripped(receiver.settings.insertStartCodes, naluBuffer, naluSize);
      var acq := Acquire(old(Pool(receiver)), old(receiver.naluBufferCount), I32(nalu.1));
      var sent := old(Sent(Running(receiver.resenders[..receiver.resenderCount]), accepted));
      ret == 0 ==> (
        receiver.naluBufferCount == acq.2 &&
        Pool(receiver) == acq.1[buf := Copied(acq.1[buf], sent, nalu, auTimestamp, isLastNaluInAu)] &&
        Pool(receiver)[buf].useCount - sent <= 0)
  {
    ghost var running := Running(receiver.resenders[..receiver.resenderCount]);
    ghost var sent := Sent(running, accepted);
    var nalu := Stripped(receiver.settings.insertStartCodes, naluBuffer, naluSize);
    buf := GetAvailableNaluBuffer(receiver, I32(nalu.1));
    if buf < 0 {
      return -1, buf;
    }
    var a := receiver.naluBuffers;
    ghost var acquired := a[..];
    ghost var acq := Acquire(old(Pool(receiver)), old(receiver.naluBufferCount), I32(nalu.1));
    assert acquired == acq.1 && buf == acq.0;
    var b := a[buf];
    a[buf] := Copied(b, 1, nalu, auTimestamp, isLastNaluInAu);
    AcceptAll(receiver, buf, accepted, running);
    a[buf] := a[buf].(useCount := a[buf].useCount - 1);
    ghost var target := acquired[buf := Copied(b, sent, nalu, auTimestamp, isLastNaluInAu)];
    assert forall j :: 0 <= j < a.Length ==> a[j] == target[j];
    assert Pool(receiver) == target;
    ret := 0;
  }

  /** The loop of ResendNalu over the resenders: one more use of the buffer per running resender that accepted it. */
  method AcceptAll(receiver: Receiver, buf: int, accepted: seq<bool>, ghost running: seq<bool>)
    requires receiver.Valid() && |accepted| == RESENDER_MAX_COUNT && 0 <= buf < MAX_NALU_BUFFER_COUNT
    requires |running| == receiver.resenderCount && forall i :: 0 <= i < |running| ==>
      running[i] == (receiver.resenders[i] != null && receiver.resenders[i].senderRunning)
    modifies receiver.naluBuffers
    ensures var a := receiver.naluBuffers;
      a[buf] == old(a[buf]).(useCount := old(a[buf]).useCount + Sent(running, accepted))
    ensures forall j :: 0 <= j < receiver.naluBuffers.Length && j != buf ==> receiver.naluBuffers[j] == old(receiver.naluBuffers[j])
  {
    var a := receiver.naluBuffers;
    ghost var b := a[buf];
    var i := 0;
    while i < receiver.resenderCount
      invariant 0 <= i <= receiver.resenderCount
      invariant a[buf] == b.(useCount := b.useCount + Sent(running[..i], accepted))
      invariant forall j :: 0 <= j < a.Length && j != buf ==> a[j] == old(a[j])
    {
      var resender := receiver.resenders[i];
      SentStep(running, i, accepted);
      if resender != null && resender.senderRunning {
        if accepted[i] {
          a[buf] := a[buf].(useCount := a[buf].useCount + 1);
        }
      }
      i := i + 1;
    }
    assert running[..i] == running;
  }

  /**
   * ARSTREAM2_RtpReceiverResender_NaluCallback, with the NALU's user pointer
   * the index of its buffer in the pool of the resender's receiver: that
   * buffer's use count drops by exactly one; nothing changes without a
   * resender, a pointer or a receiver.
   */
  method NaluCallback(resender: Resender?, naluUserPtr: Option<int>)
    requires resender != null && resender.receiver != null && naluUserPtr.Some? ==>
      0 <= naluUserPtr.value < resender.receiver.naluBuffers.Length
    modifies if resender == null || resender.receiver == null then {} else {resender.receiver.naluBuffers}
    ensures resender != null && resender.receiver != null && naluUserPtr.Some? ==> (
      var a, i := resender.receiver.naluBuffers, naluUserPtr.value;
      a[..] == old(a[..])[i := old(a[i]).(useCount := old(a[i]).useCount - 1)])
    ensures resender != null && resender.receiver != null && naluUserPtr.None? ==>
      unchanged(resender.receiver.naluBuffers)
  {
    if resender == null || naluUserPtr.None? {
      return;
    }
    var receiver := resender.receiver;
    if receiver == null {
      return;
    }
    var a, i := receiver.naluBuffers, naluUserPtr.value;
    a[i] := a[i].(useCount := a[i].useCount - 1);
  }

  // ---------------------------------------------------------------------------
  // The resender array (ResenderNew, ResenderStop, ResenderDelete)

  /** The fields of ARSTREAM2_RtpReceiver_RtpResender_Config_t that ResenderNew reads; a NULL string is None. */
  datatype ResenderConfig = ResenderConfig(
    clientAddr: Option<string>,
    serverStreamPort: i32, serverControlPort: i32, clientStreamPort: i32, clientControlPort: i32,
    maxPacketSize: i32, targetPacketSize: i32, maxLatencyMs: i32, maxNetworkLatencyMs: i32,
    useRtpHeaderExtensions: i32)

  /** The sender configuration of a resender: the resender's own, a 1024-NALU FIFO and the receiver's bitrate. */
  function SenderConfig(c: ResenderConfig, maxBitrate: i32): (r: RtpSender.Config)
    ensures r.naluFifoSize == MAX_NALU_BUFFER_COUNT && r.maxBitrate == maxBitrate
    ensures r.clientAddr == c.clientAddr && r.maxPacketSize == c.maxPacketSize
  {
    RtpSender.Config(c.clientAddr, c.serverStreamPort, c.serverControlPort, c.clientStreamPort, c.clientControlPort,
                     MAX_NALU_BUFFER_COUNT, c.maxPacketSize, c.targetPacketSize,
                     maxBitrate, c.maxLatencyMs, c.maxNetworkLatencyMs)
  }

  /**
   * ARSTREAM2_RtpReceiverResender_New: BAD_PARAMETERS without a receiver or
   * a configuration, or with the array full; the sender's error when
   * RtpSender.New fails (nothing changes); otherwise a running resender of
   * this receiver, with a fresh sender, appended to the array.
   */
  method ResenderNew(receiver: Receiver?, config: Option<ResenderConfig>) returns (resender: Resender?, error: Error)
    requires receiver != null ==> receiver.Valid()
    modifies if receiver == null then {} else {receiver, receiver.resenders}
    ensures receiver == null || config.None? ==> resender == null && error == ErrorBadParameters
    ensures receiver != null ==> receiver.Valid()
    ensures receiver != null && config.Some? && old(receiver.resenderCount) >= RESENDER_MAX_COUNT ==>
      resender == null && error == ErrorBadParameters && unchanged(receiver, receiver.resenders)
    ensures receiver != null && config.Some? && old(receiver.resenderCount) < RESENDER_MAX_COUNT ==>
      var s := RtpSender.NewSettings(Some(SenderConfig(config.value, receiver.settings.maxBitrate)));
      (s.Failure? ==> resender == null && error == s.error && unchanged(receiver, receiver.resenders)) &&
      (s.Success? ==> (
        error == Ok && resender != null && fresh(resender) &&
        resender.receiver == receiver && resender.senderRunning &&
        resender.sender != null && fresh(resender.sender) &&
        resender.useRtpHeaderExtensions == (config.value.useRtpHeaderExtensions != 0) &&
        receiver.resenderCount == old(receiver.resenderCount) + 1 &&
        receiver.resenders[..] == old(receiver.resenders[..])[old(receiver.resenderCount) := resender] &&
        receiver.naluBufferCount == old(receiver.naluBufferCount) && receiver.threadStarted == old(receiver.threadStarted)))
  {
    if receiver == null || config.None? || receiver.resenderCount >= RESENDER_MAX_COUNT {
      return null, ErrorBadParameters;
    }
    var r := new Resender.Init(config.value.useRtpHeaderExtensions != 0);
    var sender, error2 := RtpSender.New(Some(SenderConfig(config.value, receiver.settings.maxBitrate)), true, false);
    if error2 != Ok {
      return null, error2;
    }
    r.sender := sender;
    Register(receiver, r);
    resender := r;
    error := Ok;
  }

  /**
   * The end of ResenderNew, under the resender mutex: the resender, now of
   * this receiver and running, takes the next slot of the array. (The count
   * is checked again there; without concurrency it cannot have grown.)
   */
  method Register(receiver: Receiver, r: Resender)
    requires receiver.Valid() && receiver.resenderCount < RESENDER_MAX_COUNT
    modifies r`receiver, r`senderRunning, receiver`resenderCount, receiver.resenders
    ensures receiver.Valid() && r.receiver == receiver && r.senderRunning
    ensures receiver.resenderCount == old(receiver.resenderCount) + 1
    ensures receiver.resenders[..] == old(receiver.resenders[..])[old(receiver.resenderCount) := r]
  {
    r.receiver := receiver;
    r.senderRunning := true;
    receiver.resenders[receiver.resenderCount] := r;
    receiver.resenderCount := receiver.resenderCount + 1;
  }

  /**
   * ARSTREAM2_RtpReceiverResender_Stop: a resender with a sender stops
   * running (the sender is asked to stop its thread, which this model does
   * not have).
   */
  method ResenderStop(resender: Resender?)
    modifies if resender == null then {} else {resender}
    ensures resender != null ==> (
      resender.senderRunning == (old(resender.senderRunning) && resender.sender == null) &&
      resender.sender == old(resender.sender) && resender.receiver == old(resender.receiver))
  {
    if resender != null {
      if resender.sender != null {
        resender.senderRunning := false;
      }
    }
  }

  /** The index of the first occurrence of `r` in `rs`, or -1. */
  function IndexOf(rs: seq<Resender?>, r: Resender?): (i: int)
    ensures -1 <= i < |rs|
    ensures i >= 0 ==> rs[i] == r && r !in rs[..i]
    ensures i == -1 <==> r !in rs
  {
    if rs == [] then -1
    else if rs[0] == r then 0
    else var k := IndexOf(rs[1..], r); if k < 0 then -1 else (assert rs[..k + 1] == [rs[0]] + rs[1..][..k]; k + 1)
  }

  /** The resender array without its entry at `i`, the others in order. */
  function RemoveAt(rs: seq<Resender?>, i: int): (r: seq<Resender?>)
    requires 0 <= i < |rs|
    ensures |r| == |rs| - 1
    ensures forall j :: 0 <= j < i ==> r[j] == rs[j]
    ensures forall j :: i <= j < |r| ==> r[j] == rs[j + 1]
  {
    rs[..i] + rs[i + 1..]
  }

  /** Removing an entry takes exactly one occurrence of it out of the array. */
  lemma RemoveAtMultiset(rs: seq<Resender?>, i: int)
    requires 0 <= i < |rs|
    ensures multiset(RemoveAt(rs, i)) == multiset(rs) - multiset{rs[i]}
  {
    assert rs == rs[..i] + [rs[i]] + rs[i + 1..];
  }

  /**
   * ARSTREAM2_RtpReceiverResender_Delete: BAD_PARAMETERS without a
   * resender or its receiver, or when the resender is not in its
   * receiver's array; BAD_PARAMETERS too, leaving it in place, while it
   * runs; otherwise RtpSender.Delete's result, and on OK the resender
   * leaves the array, the later ones moving down one place in order.
   */
  method ResenderDelete(resender: Resender?) returns (ret: Error)
    requires resender != null && resender.receiver != null ==> resender.receiver.Valid()
    modifies if resender == null || resender.receiver == null then {} else {resender.receiver, resender.receiver.resenders}
    ensures resender == null || resender.receiver == null ==> ret == ErrorBadParameters
    ensures resender != null && resender.receiver != null ==> (
      var receiver, a, n := resender.receiver, resender.receiver.resenders, old(resender.receiver.resenderCount);
      var i := IndexOf(old(a[..n]), resender);
      receiver.Valid() &&
      (i == -1 || resender.senderRunning ==> ret == ErrorBadParameters && unchanged(receiver, a)) &&
      (i >= 0 && !resender.senderRunning ==> (
        ret == (if resender.sender == null then ErrorBadParameters
                else if resender.sender.threadStarted then ErrorBusy else Ok) &&
        (ret != Ok ==> unchanged(receiver, a)) &&
        (ret == Ok ==> (
          receiver.resenderCount == n - 1 &&
          a[..n - 1] == RemoveAt(old(a[..n]), i) &&
          a[n - 1] == (if i == n - 1 then null else old(a[n - 1])) &&
          a[n..] == old(a[n..]) && receiver.naluBufferCount == old(receiver.naluBufferCount) &&
          receiver.threadStarted == old(receiver.threadStarted))))))
  {
    if resender == null {
      return ErrorBadParameters;
    }
    var receiver := resender.receiver;
    if receiver == null {
      return ErrorBadParameters;
    }
    var idx := Find(receiver.resenders, receiver.resenderCount, resender);
    if idx < 0 {
      return ErrorBadParameters;
    }
    ret := ErrorBadParameters;
    if !resender.senderRunning {
      ret := RtpSender.Delete(resender.sender);
      if ret == Ok {
        ShiftOut(receiver.resenders, receiver.resenderCount, idx);
        receiver.resenderCount := receiver.resenderCount - 1;
      }
    }
  }

  /** The search loop of ResenderDelete. */
  method Find(a: array<Resender?>, count: int, r: Resender) returns (idx: int)
    requires 0 <= count <= a.Length
    ensures idx == IndexOf(a[..count], r)
  {
    idx := -1;
    var i := 0;
    while i < count
      invariant 0 <= i <= count
      invariant r !in a[..i]
    {
      assert a[..i + 1] == a[..i] + [a[i]];
      if r == a[i] {
        idx := i;
        break;
      }
      i := i + 1;
    }
    assert i < count ==> a[..count][..i] == a[..i];
    assert i == count ==> a[..count] == a[..i];
  }

  /** The removal of ResenderDelete: the slot is cleared, then the later entries move down one place. */
  method ShiftOut(a: array<Resender?>, count: int, idx: int)
    requires 0 <= idx < count <= a.Length
    modifies a
    ensures a[..count - 1] == RemoveAt(old(a[..count]), idx)
    ensures a[count - 1] == (if idx == count - 1 then null else old(a[count - 1]))
    ensures a[count..] == old(a[count..])
  {
    a[idx] := null;
    var i := idx;
    while i < count - 1
      invariant idx <= i <= count - 1
      invariant forall j :: 0 <= j < idx ==> a[j] == old(a[j])
      invariant forall j :: idx <= j < i ==> a[j] == old(a[j + 1])
      invariant a[i] == (if i == idx then null else old(a[i]))
      invariant forall j :: i < j < a.Length ==> a[j] == old(a[j])
    {
      a[i] := a[i + 1];
      i := i + 1;
    }
  }
}
