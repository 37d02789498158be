/*
 * The H.264 filter of libBeaver (src/beaver_filter.c): the FIFO of output
 * access units, kept in a fixed array of slots each flagged used or not and
 * linked into one doubly linked queue, and the filter state the NALU
 * callback updates: the SPS/PPS synchronisation and the access unit being
 * assembled.
 *
 * The H.264 parser, the user callbacks and malloc are outside the model:
 * what they return comes in as parameters (ParseResult, BufferGrant,
 * allocOk) and what the filter hands them comes out as results.
 */
module BeaverFilter {
  import opened LinkedFifo
  import opened CInt

  /* BEAVER_Filter_H264NaluType_t. */
  const NALU_TYPE_UNKNOWN: int := 0
  const NALU_TYPE_SLICE: int := 1
  const NALU_TYPE_SLICE_IDR: int := 5
  const NALU_TYPE_SEI: int := 6
  const NALU_TYPE_SPS: int := 7
  const NALU_TYPE_PPS: int := 8
  const NALU_TYPE_AUD: int := 9
  const NALU_TYPE_FILLER_DATA: int := 12

  /** Size of the buffer that holds the first access units while waiting for the SPS and PPS. */
  const TEMP_AU_BUFFER_SIZE: int := 1024 * 1024

  /** BEAVER_Filter_AuSyncType_t. */
  datatype AuSyncType = SyncNone | SyncIdr | SyncIFrame | SyncPirStart

  /** An output access unit (BEAVER_Filter_Au_t without its links and used flag). */
  datatype FilterAu = FilterAu(
    buffer: Ptr, size: u32, timestamp: u64, timestampShifted: u64,
    syncType: AuSyncType, userPtr: Ptr)

  /** The payload of one FIFO slot: the access unit and the used flag. */
  datatype Entry = Entry(au: FilterAu, used: bool)

  /** A slot after the memset of the pool. */
  const ZeroAu: FilterAu := FilterAu(Null, 0, 0, 0, SyncNone, Null)

  /**
   * The pool s holds the queue q carrying c: q is a NULL-terminated list of
   * slots of s, the i-th one holding c[i], and a slot is used exactly when
   * it is on q.
   */
  ghost predicate Holds(s: seq<Slot<Entry>>, q: seq<int>, c: seq<FilterAu>) {
    Chain(s, q) && InRange(q, |s|) && |c| == |q| &&
    (forall i {:trigger s[q[i]]} :: 0 <= i < |q| ==> s[q[i]].value.au == c[i]) &&
    (forall j :: 0 <= j < |s| ==> (s[j].value.used <==> j in q))
  }

  /** Filling an unused slot and linking it at the tail appends its access unit. */
  lemma EnqueueHolds(s: seq<Slot<Entry>>, q: seq<int>, c: seq<FilterAu>, k: int, au: FilterAu)
    requires Holds(s, q, c) && 0 <= k < |s| && !s[k].value.used
    ensures k !in q
    ensures Holds(PushBackLinks(s[k := Slot(Entry(au, true), NIL, NIL)], q, NIL, k), q + [k], c + [au])
  {
    var s1 := s[k := Slot(Entry(au, true), NIL, NIL)];
    LinkedFrame(s, s1, q, NIL);
    PushBackChain(s1, q, NIL, k);
    var t := PushBackLinks(s1, q, NIL, k);
    var r := q + [k];
    forall j | 0 <= j < |t| ensures t[j].value.used <==> j in r {
      assert t[j].value == s1[j].value;
    }
    forall i | 0 <= i < |r| ensures t[r[i]].value.au == (c + [au])[i] {
      if i < |q| {
        assert r[i] == q[i] && r[i] != k;
      }
    }
  }

  /** Unlinking the head slot and marking it unused drops the first access unit. */
  lemma DequeueHolds(s: seq<Slot<Entry>>, q: seq<int>, c: seq<FilterAu>)
    requires Holds(s, q, c) && q != []
    ensures 0 <= q[0] < |s| && s[q[0]].next == First(q[1..])
    ensures var t := PopFrontLinks(s, q);
      Holds(t[q[0] := Slot(t[q[0]].value.(used := false), NIL, NIL)], q[1..], c[1..]) &&
      t[q[0]].value == Entry(c[0], true)
  {
    ChainAt(s, q, 0);
    PopFrontChain(s, q);
    var t := PopFrontLinks(s, q);
    var u := t[q[0] := Slot(t[q[0]].value.(used := false), NIL, NIL)];
    var r := q[1..];
    LinkedFrame(t, u, r, NIL);
    forall j | 0 <= j < |u| ensures u[j].value.used <==> j in r {
      assert j in q <==> j == q[0] || j in r;
    }
    forall i | 0 <= i < |r| ensures u[r[i]].value.au == c[1..][i] {
      assert r[i] == q[i + 1];
    }
  }

  /**
   * The access unit FIFO: auFifoSize slots, the used ones linked from
   * fifoHead to fifoTail. `queue` lists the linked slots in order and
   * `contents` their access units.
   */
  class AuFifo {
    const pool: array<Slot<Entry>>
    var fifoCount: int
    var fifoHead: int
    var fifoTail: int
    ghost var queue: seq<int>
    ghost var contents: seq<FilterAu>

    /**
     * The queue is a NULL-terminated list of slots matching count, head and
     * tail; it carries the contents; a slot is used exactly when it is on it.
     */
    ghost predicate Valid()
      reads this, pool
    {
      Holds(pool[..], queue, contents) &&
      fifoCount == |queue| && fifoHead == First(queue) && fifoTail == Last(queue)
    }

    /** The pool allocation of BEAVER_Filter_New: auFifoSize zeroed slots, all unused. */
    constructor (auFifoSize: nat)
      ensures Valid() && fresh(pool) && pool.Length == auFifoSize && queue == [] && contents == []
      ensures forall j :: 0 <= j < auFifoSize ==> pool[j] == Slot(Entry(ZeroAu, false), NIL, NIL)
    {
      pool := new Slot<Entry>[auFifoSize](_ => Slot(Entry(ZeroAu, false), NIL, NIL));
      fifoCount := 0;
      fifoHead := NIL;
      fifoTail := NIL;
      queue := [];
      contents := [];
    }

    /**
     * enqueueAu: -2 when fifoCount >= auFifoSize; otherwise the access unit
     * is copied into the first unused slot, which is appended to the queue.
     * The -3 result (no unused slot) cannot happen below that bound: the
     * queue holds exactly the used slots.
     */
    method EnqueueAu(au: FilterAu) returns (ret: int)
      requires Valid()
      modifies this, pool
      ensures Valid()
      ensures ret == (if old(fifoCount) >= pool.Length then -2 else 0)
      ensures ret == -2 ==> queue == old(queue) && contents == old(contents) && pool[..] == old(pool[..])
      ensures ret == 0 ==> contents == old(contents) + [au] && |queue| == |old(queue)| + 1
      ensures ret == 0 ==> queue[..|old(queue)|] == old(queue)
      ensures ret == 0 ==>
        var k := Last(queue);
        0 <= k < pool.Length && !old(pool[k].value.used) && forall j :: 0 <= j < k ==> old(pool[j].value.used)
    {
      if fifoCount >= pool.Length {
        return -2;
      }
      ChainMissesSlot(pool[..], queue);
      var i := 0;
      while pool[i].value.used
        invariant 0 <= i < pool.Length
        invariant forall j :: 0 <= j < i ==> pool[j].value.used
        invariant exists j :: i <= j < pool.Length && !pool[j].value.used
        decreases pool.Length - i
      {
        i := i + 1;
      }
      ghost var s := pool[..];
      EnqueueHolds(s, queue, contents, i, au);
      pool[i] := Slot(Entry(au, true), NIL, NIL);
      assert pool[..] == s[i := Slot(Entry(au, true), NIL, NIL)];
      fifoCount := fifoCount + 1;
      LinkAtTail(i, queue);
      fifoTail := i;
      assert (fifoHead == NIL) == (queue == []) by {
        assert queue != [] ==> 0 <= queue[0];
      }
      if fifoHead == NIL {
        fifoHead := i;
      }
      queue := queue + [i];
      contents := contents + [au];
      assert queue[..|queue| - 1] == old(queue) && Last(queue) == i && fifoHead == First(queue);
      ret := 0;
    }

    /** The tail relinking of enqueueAu: the old tail, if any, and slot k point to each other. */
    method LinkAtTail(k: int, ghost q: seq<int>)
      requires InRange(q, pool.Length) && 0 <= k < pool.Length && k !in q && fifoTail == Last(q)
      requires pool[k].prev == NIL && pool[k].next == NIL
      modifies pool
      ensures pool[..] == PushBackLinks(old(pool[..]), q, NIL, k)
    {
      if fifoTail != NIL {
        pool[fifoTail] := pool[fifoTail].(next := k);
        pool[k] := pool[k].(prev := fifoTail);
      }
    }

    /**
     * dequeueAu: -2 on an empty FIFO; otherwise the head access unit is
     * returned and its slot leaves the queue, unlinked and unused.
     */
    method DequeueAu() returns (ret: int, au: FilterAu)
      requires Valid()
      modifies this, pool
      ensures Valid()
      ensures old(queue) == [] ==> ret == -2 && queue == [] && contents == [] && pool[..] == old(pool[..])
      ensures old(queue) != [] ==> ret == 0 && au == old(contents[0])
      ensures old(queue) != [] ==> queue == old(queue[1..]) && contents == old(contents[1..])
      ensures old(queue) != [] ==> pool[old(queue[0])] == Slot(Entry(au, false), NIL, NIL)
    {
      au := ZeroAu;
      if fifoHead == NIL || fifoCount == 0 {
        return -2, au;
      }
      ghost var s := pool[..];
      var cur := fifoHead;
      DequeueHolds(s, queue, contents);
      var next := pool[cur].next;
      UnlinkHead(cur, queue);
      if next != NIL {
        fifoHead := next;
        fifoCount := fifoCount - 1;
      } else {
        fifoHead := NIL;
        fifoCount := 0;
        fifoTail := NIL;
      }
      pool[cur] := Slot(pool[cur].value.(used := false), NIL, NIL);
      au := pool[cur].value.au;
      queue := queue[1..];
      contents := contents[1..];
      ret := 0;
    }

    /** The head unlinking of dequeueAu: the successor, if any, loses its prev link. */
    method UnlinkHead(cur: int, ghost q: seq<int>)
      requires InRange(q, pool.Length) && q != [] && cur == q[0]
      requires pool[cur].next == First(q[1..])
      modifies pool
      ensures pool[..] == PopFrontLinks(old(pool[..]), q)
    {
      var next := pool[cur].next;
      if next != NIL {
        pool[next] := pool[next].(prev := NIL);
      }
      pool[cur] := pool[cur].(prev := NIL, next := NIL);
    }

    /**
     * flushAuFifo: dequeues until the FIFO is empty and hands each access
     * unit (buffer, size, userPtr) to cancelAuBufferCallback, in FIFO
     * order; the callback's result is only logged.
     */
    method FlushAuFifo() returns (cancelled: seq<FilterAu>)
      requires Valid()
      modifies this, pool
      ensures Valid() && queue == [] && contents == []
      ensures cancelled == old(contents)
    {
      cancelled := [];
      var fifoRes, au := DequeueAu();
      while fifoRes == 0
        invariant Valid()
        invariant fifoRes == 0 ==> old(contents) == cancelled + [au] + contents
        invariant fifoRes != 0 ==> old(contents) == cancelled && contents == []
        decreases |contents| + (if fifoRes == 0 then 1 else 0)
      {
        cancelled := cancelled + [au];
        fifoRes, au := DequeueAu();
      }
    }
  }

  /** What the H.264 parser reports about one NALU. */
  datatype ParseResult = ParseResult(
    /** BEAVER_Parser_ReadNextNalu_buffer's status if negative, else BEAVER_Parser_ParseNalu's. */
    status: int,
    /** BEAVER_Parser_GetLastNaluType. */
    naluType: int,
    /** BEAVER_Parser_GetSliceInfo's status and the sliceTypeMod5 it leaves (0 as zeroed when it writes nothing). */
    sliceStatus: int, sliceTypeMod5: int,
    /** The status the user data SEI path ends with (GetUserDataSei, then the Parrot deserialiser). */
    seiStatus: int)

  /** What getAuBufferCallback returns: its status and the buffer, size and user pointer it writes. */
  datatype BufferGrant = BufferGrant(status: int, buffer: Ptr, size: int, userPtr: Ptr)

  /** The callback succeeded and gave a non-NULL, non-empty buffer. */
  predicate GrantOk(g: BufferGrant) {
    g.status == 0 && g.buffer != Null && g.size != 0
  }

  /** The value of four bytes in host order (little-endian on the targets). */
  function FromHost32(b: seq<byte>): int
    requires |b| == 4
  {
    FromBE([b[3], b[2], b[1], b[0]])
  }

  /** The four bytes of a 32-bit value in host order, as a `*(uint32_t *)` store writes them. */
  function HostBytes32(x: u32): (r: seq<byte>)
    ensures |r| == 4 && FromHost32(r) == x
  {
    var be := BE32(x);
    var r := [be[3], be[2], be[1], be[0]];
    assert [r[3], r[2], r[1], r[0]] == be;
    r
  }

  /** A NALU from a stream whose start codes are replaced by the NALU size. */
  function SizePrefixed(nalu: seq<byte>): (r: seq<byte>)
    requires 4 <= |nalu| < TWO_32
    ensures |r| == |nalu| && r[4..] == nalu[4..] && FromHost32(r[..4]) == |nalu|
  {
    var r := HostBytes32(|nalu|) + nalu[4..];
    assert r[..4] == HostBytes32(|nalu|);
    r
  }

  /** The filter state seen by the SPS/PPS synchronisation. */
  datatype ParamSets = ParamSets(sync: bool, spsSync: bool, sps: seq<byte>, ppsSync: bool, pps: seq<byte>)

  /** The current access unit's output buffer. */
  datatype AuBuffer = AuBuffer(buffer: Ptr, bufferSize: int, userPtr: Ptr)

  /** The current access unit's size, timestamps and classification. */
  datatype AuProgress = AuProgress(
    size: int, timestamp: u64, timestampShifted: u64,
    incomplete: bool, syncType: AuSyncType, slicesAllI: bool)

  /** C's `(ret >= 0) ? 0 : ret`. */
  function Status(ret: int): (r: int)
    ensures r <= 0 && (r == 0 <==> ret >= 0) && (r < 0 ==> r == ret)
  {
    if ret >= 0 then 0 else ret
  }

  /** The NALU types addNaluToCurrentAu leaves out of the access unit. */
  predicate FilteredOut(filterOutSpsPps: bool, filterOutSei: bool, naluType: int) {
    (filterOutSpsPps && (naluType == NALU_TYPE_SPS || naluType == NALU_TYPE_PPS)) ||
    (filterOutSei && naluType == NALU_TYPE_SEI)
  }

  /** BEAVER_Filter_t: configuration, the access unit FIFO, SPS/PPS state and the current access unit. */
  class Filter {
    const waitForSync: bool
    const outputIncompleteAu: bool
    const filterOutSpsPps: bool
    const filterOutSei: bool
    const replaceStartCodesWithNaluSize: bool
    const hasSpsPpsCallback: bool
    const tempAuBuffer: Ptr
    const tempAuBufferSize: int
    const fifo: AuFifo

    var currentAuBuffer: Ptr
    var currentAuBufferSize: int
    var currentAuBufferUserPtr: Ptr
    var currentAuSize: int
    var currentAuTimestamp: u64
    var currentAuTimestampShifted: u64
    var currentAuIncomplete: bool
    var currentAuSyncType: AuSyncType
    var currentAuSlicesAllI: bool

    var sync: bool
    var spsSync: bool
    var sps: seq<byte>
    var ppsSync: bool
    var pps: seq<byte>

    ghost function Params(): ParamSets
      reads this
    {
      ParamSets(sync, spsSync, sps, ppsSync, pps)
    }

    ghost function Buffer(): AuBuffer
      reads this
    {
      AuBuffer(currentAuBuffer, currentAuBufferSize, currentAuBufferUserPtr)
    }

    ghost function Progress(): AuProgress
      reads this
    {
      AuProgress(currentAuSize, currentAuTimestamp, currentAuTimestampShifted,
                 currentAuIncomplete, currentAuSyncType, currentAuSlicesAllI)
    }

    /**
     * The filter is synchronised exactly when both an SPS and a PPS are
     * stored; a stored parameter set is a non-empty copy of its NALU.
     */
    ghost predicate Valid()
      reads this, fifo, fifo.pool
    {
      fifo.Valid() &&
      (sync <==> spsSync && ppsSync) &&
      (spsSync ==> |sps| > 0) && (!spsSync ==> sps == []) &&
      (ppsSync ==> |pps| > 0) && (!ppsSync ==> pps == [])
    }

    /**
     * BEAVER_Filter_New's state: the options, the temporary access unit
     * buffer when waiting for sync, an empty FIFO of auFifoSize slots and
     * nothing synchronised.
     */
    constructor (auFifoSize: nat, waitForSync: bool, outputIncompleteAu: bool,
                 filterOutSpsPps: bool, filterOutSei: bool, replaceStartCodesWithNaluSize: bool,
                 hasSpsPpsCallback: bool, tempAuBuffer: Ptr)
      requires waitForSync ==> tempAuBuffer != Null
      ensures Valid() && fresh(fifo) && fresh(fifo.pool)
      ensures fifo.pool.Length == auFifoSize && fifo.queue == []
      ensures this.waitForSync == waitForSync && this.outputIncompleteAu == outputIncompleteAu
      ensures this.filterOutSpsPps == filterOutSpsPps && this.filterOutSei == filterOutSei
      ensures this.replaceStartCodesWithNaluSize == replaceStartCodesWithNaluSize
      ensures this.hasSpsPpsCallback == hasSpsPpsCallback
      ensures this.tempAuBuffer == (if waitForSync then tempAuBuffer else Null)
      ensures this.tempAuBufferSize == (if waitForSync then TEMP_AU_BUFFER_SIZE else 0)
      ensures Params() == ParamSets(false, false, [], false, [])
      ensures Buffer() == AuBuffer(Null, 0, Null) && Progress() == AuProgress(0, 0, 0, false, SyncNone, false)
    {
      this.waitForSync := waitForSync;
      this.outputIncompleteAu := outputIncompleteAu;
      this.filterOutSpsPps := filterOutSpsPps;
      this.filterOutSei := filterOutSei;
      this.replaceStartCodesWithNaluSize := replaceStartCodesWithNaluSize;
      this.hasSpsPpsCallback := hasSpsPpsCallback;
      this.tempAuBuffer := if waitForSync then tempAuBuffer else Null;
      this.tempAuBufferSize := if waitForSync then TEMP_AU_BUFFER_SIZE else 0;
      fifo := new AuFifo(auFifoSize);
      currentAuBuffer := Null;
      currentAuBufferSize := 0;
      currentAuBufferUserPtr := Null;
      currentAuSize := 0;
      currentAuTimestamp := 0;
      currentAuTimestampShifted := 0;
      currentAuIncomplete := false;
      currentAuSyncType := SyncNone;
      currentAuSlicesAllI := false;
      sync := false;
      spsSync := false;
      sps := [];
      ppsSync := false;
      pps := [];
    }

    /**
     * Sync: -1 if already synchronised. Otherwise the filter becomes
     * synchronised, the SPS and PPS go to spsPpsCallback if there is one,
     * and when the first access units were held in the temporary buffer a
     * real output buffer is requested: on failure the current buffer is
     * cleared and the result is -1; otherwise the access unit so far plus
     * this NALU (naluSize bytes) is copied over when non-empty and it fits.
     * `copied` is the number of bytes moved from the temporary buffer.
     */
    method Sync(naluSize: int, grant: BufferGrant)
      returns (ret: int, reported: Option<(seq<byte>, seq<byte>)>, copied: int)
      modifies this
      ensures old(sync) ==> ret == -1 && reported == None && copied == 0
      ensures old(sync) ==> Params() == old(Params()) && Buffer() == old(Buffer())
      ensures !old(sync) ==> Params() == old(Params()).(sync := true)
      ensures !old(sync) ==> reported == (if hasSpsPpsCallback then Some((sps, pps)) else None)
      ensures !old(sync) && !(waitForSync && tempAuBuffer != Null) ==>
        ret == 0 && copied == 0 && Buffer() == old(Buffer())
      ensures !old(sync) && waitForSync && tempAuBuffer != Null && !GrantOk(grant) ==>
        ret == -1 && copied == 0 && Buffer() == AuBuffer(Null, 0, grant.userPtr)
      ensures !old(sync) && waitForSync && tempAuBuffer != Null && GrantOk(grant) ==>
        var n := currentAuSize + naluSize;
        ret == 0 && Buffer() == AuBuffer(grant.buffer, grant.size, grant.userPtr) &&
        copied == (if n != 0 && n <= grant.size then n else 0)
      ensures Progress() == old(Progress())
    {
      copied := 0;
      reported := None;
      if sync {
        return -1, reported, copied;
      }
      ret := 0;
      sync := true;
      if hasSpsPpsCallback {
        reported := Some((sps, pps));
      }
      if waitForSync && tempAuBuffer != Null {
        currentAuBuffer := grant.buffer;
        currentAuBufferSize := grant.size;
        currentAuBufferUserPtr := grant.userPtr;
        if grant.status != 0 || currentAuBuffer == Null || currentAuBufferSize == 0 {
          currentAuBuffer := Null;
          currentAuBufferSize := 0;
          ret := -1;
        } else if currentAuSize + naluSize != 0 && currentAuSize + naluSize <= currentAuBufferSize {
          copied := currentAuSize + naluSize;
        }
      }
    }

    /**
     * processNalu: -1 for a NULL buffer or a non-positive size. With
     * replaceStartCodesWithNaluSize the 4-byte start code is overwritten by
     * the size first (`nalu` is the buffer after that). A NALU the parser
     * rejects changes nothing else. An IDR slice marks the access unit IDR;
     * once synchronised, a P slice (slice type 0 mod 5) clears
     * currentAuSlicesAllI. The first SPS and the first PPS are stored (when
     * their copy can be allocated) and later ones ignored; storing the
     * second of the two synchronises the filter. The result is 0 unless a
     * step after the parse failed.
     */
    method ProcessNalu(naluBuffer: Option<seq<byte>>, naluSize: int, parsed: ParseResult,
                       allocOk: bool, grant: BufferGrant)
      returns (ret: int, nalu: seq<byte>, naluType: Option<int>,
               reported: Option<(seq<byte>, seq<byte>)>, copied: int)
      requires Valid()
      requires naluBuffer.Some? && naluSize > 0 ==> naluSize <= |naluBuffer.value| && naluSize < TWO_32
      requires naluBuffer.Some? && naluSize > 0 && replaceStartCodesWithNaluSize ==> naluSize >= 4
      modifies this
      ensures Valid()
      ensures naluBuffer.None? || naluSize <= 0 ==>
        ret == -1 && naluType == None && Params() == old(Params()) &&
        Buffer() == old(Buffer()) && Progress() == old(Progress())
      ensures naluBuffer.Some? && naluSize > 0 ==>
        nalu == (if replaceStartCodesWithNaluSize then SizePrefixed(naluBuffer.value[..naluSize])
                 else naluBuffer.value[..naluSize])
      ensures naluBuffer.Some? && naluSize > 0 && parsed.status < 0 ==>
        ret == parsed.status && naluType == None && reported == None && Params() == old(Params()) &&
        Buffer() == old(Buffer()) && Progress() == old(Progress())
      ensures naluBuffer.Some? && naluSize > 0 && parsed.status >= 0 ==>
        naluType == Some(parsed.naluType) &&
        currentAuSyncType == (if parsed.naluType == NALU_TYPE_SLICE_IDR then SyncIdr else old(currentAuSyncType)) &&
        currentAuSlicesAllI == (old(currentAuSlicesAllI) &&
          !((parsed.naluType == NALU_TYPE_SLICE || parsed.naluType == NALU_TYPE_SLICE_IDR) &&
            old(sync) && parsed.sliceTypeMod5 == 0))
      ensures naluBuffer.Some? && naluSize > 0 && parsed.status >= 0 ==>
        var storesSps := parsed.naluType == NALU_TYPE_SPS && !old(spsSync) && allocOk;
        var storesPps := parsed.naluType == NALU_TYPE_PPS && !old(ppsSync) && allocOk;
        spsSync == (old(spsSync) || storesSps) && sps == (if storesSps then nalu else old(sps)) &&
        ppsSync == (old(ppsSync) || storesPps) && pps == (if storesPps then nalu else old(pps))
      ensures naluBuffer.Some? && naluSize > 0 && parsed.status >= 0 ==>
        var fires := !old(sync) && sync;
        (fires ==> reported == (if hasSpsPpsCallback then Some((sps, pps)) else None)) &&
        (!fires ==> reported == None && copied == 0 && Buffer() == old(Buffer())) &&
        ret == (if (parsed.naluType == NALU_TYPE_SLICE || parsed.naluType == NALU_TYPE_SLICE_IDR) && old(sync)
                then Status(parsed.sliceStatus)
                else if parsed.naluType == NALU_TYPE_SEI && old(sync) then Status(parsed.seiStatus)
                else if fires && waitForSync && tempAuBuffer != Null && !GrantOk(grant) then -1
                else 0)
      ensures currentAuSize == old(currentAuSize) && currentAuIncomplete == old(currentAuIncomplete)
      ensures currentAuTimestamp == old(currentAuTimestamp)
      ensures currentAuTimestampShifted == old(currentAuTimestampShifted)
    {
      nalu := [];
      naluType := None;
      reported := None;
      copied := 0;
      if naluBuffer.None? || naluSize <= 0 {
        return -1, nalu, naluType, reported, copied;
      }
      nalu := naluBuffer.value[..naluSize];
      if replaceStartCodesWithNaluSize {
        nalu := SizePrefixed(nalu);
      }
      ret := parsed.status;
      if ret >= 0 {
        naluType := Some(parsed.naluType);
        if parsed.naluType == NALU_TYPE_SLICE_IDR || parsed.naluType == NALU_TYPE_SLICE {
          if parsed.naluType == NALU_TYPE_SLICE_IDR {
            currentAuSyncType := SyncIdr;
          }
          if sync {
            ret := parsed.sliceStatus;
            if parsed.sliceTypeMod5 == 0 {
              currentAuSlicesAllI := false;
            }
          }
        } else if parsed.naluType == NALU_TYPE_SEI {
          if sync {
            ret := parsed.seiStatus;
          }
        } else if parsed.naluType == NALU_TYPE_SPS || parsed.naluType == NALU_TYPE_PPS {
          var r;
          r, reported, copied := StoreParamSet(parsed.naluType == NALU_TYPE_SPS, nalu, naluSize, allocOk, grant);
          if r != 0 {
            ret := r;
          }
        }
      }
      ret := Status(ret);
    }

    /**
     * The SPS (isSps) or PPS case of processNalu: the first one is stored
     * when its copy can be allocated, later ones are ignored, and storing
     * the second parameter set calls Sync. The result is Sync's, or 0.
     */
    method StoreParamSet(isSps: bool, nalu: seq<byte>, naluSize: int, allocOk: bool, grant: BufferGrant)
      returns (ret: int, reported: Option<(seq<byte>, seq<byte>)>, copied: int)
      requires Valid() && |nalu| > 0
      modifies this
      ensures Valid() && Progress() == old(Progress())
      ensures var storesSps := isSps && !old(spsSync) && allocOk;
        var storesPps := !isSps && !old(ppsSync) && allocOk;
        spsSync == (old(spsSync) || storesSps) && sps == (if storesSps then nalu else old(sps)) &&
        ppsSync == (old(ppsSync) || storesPps) && pps == (if storesPps then nalu else old(pps))
      ensures var fires := !old(sync) && sync;
        (fires ==> reported == (if hasSpsPpsCallback then Some((sps, pps)) else None)) &&
        (!fires ==> reported == None && copied == 0 && Buffer() == old(Buffer())) &&
        ret == (if fires && waitForSync && tempAuBuffer != Null && !GrantOk(grant) then -1 else 0)
    {
      ret, reported, copied := 0, None, 0;
      if isSps {
        if !spsSync && allocOk {
          sps := nalu;
          spsSync := true;
          if spsSync && ppsSync && !sync {
            ret, reported, copied := Sync(naluSize, grant);
          }
        }
      } else {
        if !ppsSync && allocOk {
          pps := nalu;
          ppsSync := true;
          if spsSync && ppsSync && !sync {
            ret, reported, copied := Sync(naluSize, grant);
          }
        }
      }
    }

    /** resetCurrentAu: an empty, complete access unit with no sync type and no slice seen. */
    method ResetCurrentAu()
      modifies this
      ensures Progress() == old(Progress()).(size := 0, incomplete := false, syncType := SyncNone, slicesAllI := true)
      ensures Params() == old(Params()) && Buffer() == old(Buffer())
    {
      currentAuSize := 0;
      currentAuIncomplete := false;
      currentAuSyncType := SyncNone;
      currentAuSlicesAllI := true;
    }

    /** addNaluToCurrentAu: the NALU's size counts unless its type is filtered out. */
    method AddNaluToCurrentAu(naluType: int, naluSize: int)
      modifies this
      ensures currentAuSize == old(currentAuSize) + (if FilteredOut(filterOutSpsPps, filterOutSei, naluType) then 0 else naluSize)
      ensures Progress() == old(Progress()).(size := currentAuSize)
      ensures Params() == old(Params()) && Buffer() == old(Buffer())
    {
      var filterOut := false;
      if filterOutSpsPps && (naluType == NALU_TYPE_SPS || naluType == NALU_TYPE_PPS) {
        filterOut := true;
      }
      if filterOutSei && naluType == NALU_TYPE_SEI {
        filterOut := true;
      }
      if !filterOut {
        currentAuSize := currentAuSize + naluSize;
      }
    }

    /** The access unit enqueueCurrentAu outputs. */
    ghost function CurrentAu(): FilterAu
      reads this
    {
      FilterAu(currentAuBuffer, U32(currentAuSize), currentAuTimestamp, currentAuTimestampShifted,
               currentAuSyncType, currentAuBufferUserPtr)
    }

    /**
     * enqueueCurrentAu: an access unit that is not IDR and has only I
     * slices becomes IFRAME. Output is cancelled while waiting for sync and
     * for an incomplete access unit unless those are output; otherwise the
     * access unit is enqueued. The result is 1 exactly when it was.
     */
    method EnqueueCurrentAu() returns (ret: int)
      requires Valid()
      modifies this, fifo, fifo.pool
      ensures Valid()
      ensures currentAuSyncType ==
        (if old(currentAuSyncType) != SyncIdr && currentAuSlicesAllI then SyncIFrame else old(currentAuSyncType))
      ensures Progress() == old(Progress()).(syncType := currentAuSyncType)
      ensures Params() == old(Params()) && Buffer() == old(Buffer())
      ensures var cancel := (waitForSync && !sync) || (!outputIncompleteAu && currentAuIncomplete);
        ret == (if !cancel && old(fifo.fifoCount) < fifo.pool.Length then 1 else 0)
      ensures ret == 1 ==> fifo.contents == old(fifo.contents) + [CurrentAu()]
      ensures ret == 0 ==> fifo.contents == old(fifo.contents) && fifo.queue == old(fifo.queue)
    {
      ret := 0;
      var cancelAuOutput := false;
      if currentAuSyncType != SyncIdr {
        if currentAuSlicesAllI {
          currentAuSyncType := SyncIFrame;
        }
      }
      if waitForSync && !sync {
        cancelAuOutput := true;
      }
      if !outputIncompleteAu && currentAuIncomplete {
        cancelAuOutput := true;
      }
      if !cancelAuOutput {
        var au := FilterAu(currentAuBuffer, U32(currentAuSize), currentAuTimestamp,
                           currentAuTimestampShifted, currentAuSyncType, currentAuBufferUserPtr);
        var fifoRes := fifo.EnqueueAu(au);
        if fifoRes == 0 {
          ret := 1;
        }
      }
    }

    /**
     * BEAVER_Filter_GetSpsPps: -1 when a size pointer is NULL, -2 before
     * synchronisation. Otherwise each size is set to the stored parameter
     * set's size and the set is copied only into a non-NULL buffer whose
     * given size is large enough. After sync both sets are non-empty.
     */
    method GetSpsPps(spsBuffer: bool, spsSize: Option<int>, ppsBuffer: bool, ppsSize: Option<int>)
      returns (ret: int, spsOut: Option<seq<byte>>, spsSizeOut: Option<int>,
               ppsOut: Option<seq<byte>>, ppsSizeOut: Option<int>)
      requires Valid()
      ensures spsSize == None || ppsSize == None ==>
        ret == -1 && spsOut == None && ppsOut == None && spsSizeOut == spsSize && ppsSizeOut == ppsSize
      ensures spsSize != None && ppsSize != None && !sync ==>
        ret == -2 && spsOut == None && ppsOut == None && spsSizeOut == spsSize && ppsSizeOut == ppsSize
      ensures spsSize != None && ppsSize != None && sync ==>
        ret == 0 && spsSizeOut == Some(|sps|) && ppsSizeOut == Some(|pps|) && |sps| > 0 && |pps| > 0 &&
        spsOut == (if spsBuffer && spsSize.value >= |sps| then Some(sps) else None) &&
        ppsOut == (if ppsBuffer && ppsSize.value >= |pps| then Some(pps) else None)
    {
      spsOut, spsSizeOut, ppsOut, ppsSizeOut := None, spsSize, None, ppsSize;
      if spsSize.None? || ppsSize.None? {
        return -1, spsOut, spsSizeOut, ppsOut, ppsSizeOut;
      }
      ret := 0;
      if !sync {
        ret := -2;
      }
      if ret == 0 {
        if !spsBuffer || spsSize.value < |sps| {
          spsSizeOut := Some(|sps|);
        } else {
          spsOut := Some(sps);
          spsSizeOut := Some(|sps|);
        }
        if !ppsBuffer || ppsSize.value < |pps| {
          ppsSizeOut := Some(|pps|);
        } else {
          ppsOut := Some(pps);
          ppsSizeOut := Some(|pps|);
        }
      }
    }
  }
}
