/*
 * The H.264 filter of the stream receiver (src/arstream2_h264_filter.c):
 * the recorder's access-unit buffer pool, and the filter record that
 * parses each NALU of an access unit, synchronises on the first SPS and
 * PPS, tracks which macroblocks were received in two status maps, and
 * outputs each access unit into a buffer the application provides while
 * keeping the H.264-level statistics.
 *
 * The parser, the writer, the SEI deserialiser, the stream recorder and
 * the application callbacks are not part of this model: what they answer
 * is a parameter of the operation that calls them, and the mutex, the
 * condition variables and the thread are left out.
 */
module H264Filter {
  import opened CInt
  import opened H264
  import opened LinkedFifo
  import opened H264FilterRules
  import ArStream2Error

  /*
   * The recorder's access-unit buffer pool: a LinkedFifo pool whose queue
   * stays empty, so only its free list is used.
   */

  /** ARSTREAM2_H264Filter_AuBufferItem_t: a copy of an access unit kept for the stream recorder. */
  datatype AuBufferItem = AuBufferItem(
    buffer: Ptr, bufferSize: int, metadataBuffer: Ptr, metadataBufferSize: int,
    auSize: int, naluCount: int, pushed: bool)

  /** Item j once the pool is built: zeroed, with its own buffers when their sizes are positive. */
  function InitialBufferItem(j: int, bufferSize: int, metadataBufferSize: int): AuBufferItem {
    AuBufferItem(
      if bufferSize > 0 then Ptr(2 * j) else Null, if bufferSize > 0 then bufferSize else 0,
      if metadataBufferSize > 0 then Ptr(2 * j + 1) else Null, if metadataBufferSize > 0 then metadataBufferSize else 0,
      0, 0, false)
  }

  /**
   * AuBufferPoolInit: -1 for a non-positive maxCount. Otherwise every item
   * is on the free list (the last one first), each with a buffer of
   * bufferSize bytes and a metadata buffer of metadataBufferSize bytes when
   * those sizes are positive, no two items sharing a buffer.
   */
  method AuBufferPoolInit(maxCount: int, bufferSize: int, metadataBufferSize: int)
    returns (ret: int, pool: Fifo?<AuBufferItem>)
    ensures maxCount <= 0 ==> ret == -1 && pool == null
    ensures maxCount > 0 ==> ret == 0 && pool != null && fresh(pool) && fresh(pool.pool)
    ensures maxCount > 0 ==> pool.Valid() && pool.Conserved() && pool.size == maxCount
    ensures maxCount > 0 ==> pool.Contents() == [] && pool.freeList == Descending(maxCount)
    ensures maxCount > 0 ==> forall j :: 0 <= j < maxCount ==>
      var item := pool.pool[j].value;
      (item.buffer != Null <==> bufferSize > 0) && item.bufferSize == (if bufferSize > 0 then bufferSize else 0) &&
      (item.metadataBuffer != Null <==> metadataBufferSize > 0) &&
      item.metadataBufferSize == (if metadataBufferSize > 0 then metadataBufferSize else 0) &&
      item.auSize == 0 && item.naluCount == 0 && !item.pushed
    ensures maxCount > 0 ==> forall i, j :: 0 <= i < j < maxCount && bufferSize > 0 ==>
      pool.pool[i].value.buffer != pool.pool[j].value.buffer
  {
    if maxCount <= 0 {
      return -1, null;
    }
    pool := new Fifo<AuBufferItem>.Init(maxCount, j => InitialBufferItem(j, bufferSize, metadataBufferSize));
    ret := 0;
  }

  /** AuBufferPoolPopFreeItem: the first free item, taken off the free list; NIL when none is left. */
  method AuBufferPoolPopFreeItem(pool: Fifo<AuBufferItem>) returns (item: int)
    requires pool.Valid()
    modifies pool, pool.pool
    ensures pool.Valid() && pool.pool == old(pool.pool) && pool.size == old(pool.size)
    ensures pool.Contents() == old(pool.Contents())
    ensures old(pool.freeList) == [] ==> item == NIL && pool.freeList == []
    ensures old(pool.freeList) != [] ==> item == old(pool.freeList[0]) && pool.freeList == old(pool.freeList[1..]) && pool.Held(item)
    ensures forall j :: 0 <= j < pool.size ==> pool.pool[j].value == old(pool.pool[j].value)
  {
    item := pool.PopFree();
  }

  /**
   * AuBufferPoolPushFreeItem: -1 for a NULL item; otherwise the item goes
   * back to the head of the free list, so the next pop returns it (the
   * free list is a stack).
   */
  method AuBufferPoolPushFreeItem(pool: Fifo<AuBufferItem>, item: int) returns (ret: int)
    requires pool.Valid() && (item == NIL || pool.Held(item))
    modifies pool, pool.pool
    ensures pool.Valid() && pool.pool == old(pool.pool) && pool.size == old(pool.size)
    ensures pool.Contents() == old(pool.Contents())
    ensures item == NIL ==> ret == -1 && pool.freeList == old(pool.freeList)
    ensures item != NIL ==> ret == 0 && pool.freeList == [item] + old(pool.freeList)
    ensures forall j :: 0 <= j < pool.size ==> pool.pool[j].value == old(pool.pool[j].value)
  {
    if item == NIL {
      return -1;
    }
    pool.PushFree(item);
    ret := 0;
  }

  /*
   * The filter record.
   */

  /** The part of ARSTREAM2_H264Sei_ParrotStreamingV1_t the filter reads. */
  datatype StreamingInfo = StreamingInfo(indexInGop: int, sliceCount: int)

  /** The per-access-unit fields of the filter (currentAu*). */
  datatype AuState = AuState(
    incomplete: bool, syncType: AuSyncType, slicesAllI: bool, slicesReceived: bool,
    streamingInfoAvailable: bool, streamingInfo: StreamingInfo,
    metadataSize: int, userDataSize: int,
    previousSliceIndex: int, previousSliceFirstMb: int, inferredPreviousSliceFirstMb: int,
    currentSliceFirstMb: int, isRef: bool, frameNum: int)

  /** The per-access-unit fields right after ARSTREAM2_H264Filter_ResetAu. */
  const ResetAuState: AuState :=
    AuState(false, SyncNone, true, false, false, StreamingInfo(0, 0), 0, 0, -1, 0, 0, -1, false, -1)

  /** The per-access-unit fields of a new (zeroed) filter. */
  const ZeroAuState: AuState :=
    AuState(false, SyncNone, false, false, false, StreamingInfo(0, 0), 0, 0, 0, 0, 0, 0, false, 0)

  /** The synchronisation state: SPS and PPS copies and the geometry taken from the SPS. */
  datatype SyncState = SyncState(
    running: bool, sync: bool, spsSync: bool, sps: seq<byte>, ppsSync: bool, pps: seq<byte>,
    firstGrayIFramePending: bool, geometry: Geometry)

  /** What GetSliceInfo reports for a slice. */
  datatype SliceInfo = SliceInfo(nalRefIdc: int, sliceTypeMod5: int, firstMbInSlice: int, frameNum: nat)

  /**
   * One user data SEI as the parser hands it out: whether GetUserDataSei
   * succeeded, its bytes, whether it is a Parrot streaming v1 SEI and, for
   * one, the deserialised information and slice table (None when
   * deserialisation failed).
   */
  datatype UserDataSei = UserDataSei(getOk: bool, bytes: seq<byte>, isStreamingV1: bool,
                                     deserialized: Option<(StreamingInfo, seq<int>)>)

  /**
   * The parser's answers for one NALU: SetupNalu_buffer and ParseNalu
   * succeeded, the NALU type, GetSliceInfo (None on failure), the user data
   * SEIs, and whether the copy of an SPS or PPS could be allocated.
   */
  datatype ParseOutcome = ParseOutcome(
    setupOk: bool, parseOk: bool, naluType: NaluType, sliceInfo: Option<SliceInfo>,
    userData: seq<UserDataSei>, allocOk: bool)

  /** Every deserialised slice table has maxSliceCount unsigned 16-bit entries. */
  predicate WellFormedOutcome(o: ParseOutcome, maxSliceCount: int) {
    forall i :: 0 <= i < |o.userData| ==> WellFormedSei(o.userData[i], maxSliceCount)
  }

  predicate WellFormedSei(s: UserDataSei, maxSliceCount: int) {
    s.deserialized.Some? ==> SliceTable(s.deserialized.value.1, maxSliceCount)
  }

  predicate SliceTable(t: seq<int>, maxSliceCount: int) {
    |t| == maxSliceCount && forall i :: 0 <= i < |t| ==> IsU16(t[i])
  }

  /**
   * What the getAuBufferCallback answers: its status, the buffer (NULL or
   * an array) and the buffer size it announces.
   */
  datatype AuBufferGrant = AuBufferGrant(status: ArStream2Error.Error, buffer: array?<byte>, size: int)

  /** What the streaming SEI scan leaves: the streaming information and table, and the user data copied into the AU. */
  datatype SeiScan = SeiScan(available: bool, info: StreamingInfo, table: seq<int>, inferredSliceMbCount: int,
                             userData: Option<seq<byte>>)

  /**
   * The user data SEI loop of ParseNalu over its first n SEIs: a streaming
   * v1 SEI that deserialises replaces the streaming information and table,
   * and the size of its first slice becomes the inferred slice size; any
   * other SEI that fits the AU's user data buffer becomes the AU's user
   * data. A SEI the parser cannot hand out is skipped.
   */
  function ScanSei(s: SeiScan, seis: seq<UserDataSei>, n: int, userDataBufferSize: int, maxSliceCount: int): (r: SeiScan)
    requires 0 <= n <= |seis| && maxSliceCount >= 1 && SliceTable(s.table, maxSliceCount)
    requires forall i :: 0 <= i < |seis| ==> WellFormedSei(seis[i], maxSliceCount)
    ensures SliceTable(r.table, maxSliceCount)
    ensures r.available <==> s.available || exists i :: 0 <= i < n && seis[i].getOk && seis[i].isStreamingV1 && seis[i].deserialized.Some?
    ensures r.userData.Some? ==> r.userData == s.userData || |r.userData.value| <= userDataBufferSize
    decreases n
  {
    if n == 0 then s
    else
      var r := ScanSei(s, seis, n - 1, userDataBufferSize, maxSliceCount);
      var sei := seis[n - 1];
      if !sei.getOk then r
      else if sei.isStreamingV1 then
        if sei.deserialized.Some? then
          var table := sei.deserialized.value.1;
          r.(available := true, info := sei.deserialized.value.0, table := table, inferredSliceMbCount := table[0])
        else r
      else if |sei.bytes| <= userDataBufferSize then r.(userData := Some(sei.bytes))
      else r
  }

  /** The slice type a slice NALU gets from slice_type % 5: 2 is I, 0 is P, anything else leaves it as it was. */
  function SliceTypeOf(sliceTypeMod5: int, prior: SliceType): (r: SliceType)
    ensures sliceTypeMod5 == 2 ==> r == SliceTypeI
    ensures sliceTypeMod5 != 2 && sliceTypeMod5 != 0 ==> r == prior
    ensures sliceTypeMod5 == 0 ==> r == SliceTypeP
  {
    if sliceTypeMod5 == 2 then SliceTypeI else if sliceTypeMod5 == 0 then SliceTypeP else prior
  }

  /**
   * The AU after one of its slices: an IDR slice marks it IDR; a slice the
   * parser describes (None before sync or when GetSliceInfo fails) sets
   * the reference flag and the first macroblock, clears slicesAllI for a P
   * slice and gives the AU its frame_num if it has none yet; without a
   * description the first macroblock is unknown (-1).
   */
  function SlicedAu(a: AuState, info: Option<SliceInfo>, idr: bool): (r: AuState)
    ensures r.syncType == (if idr then SyncIdr else a.syncType)
    ensures info.None? ==> r == a.(syncType := r.syncType, currentSliceFirstMb := -1)
    ensures info.Some? ==> r.isRef == (info.value.nalRefIdc != 0) && r.currentSliceFirstMb == info.value.firstMbInSlice
    ensures info.Some? ==> (r.slicesAllI <==> a.slicesAllI && info.value.sliceTypeMod5 != 0)
    ensures info.Some? ==> r.frameNum == (if a.frameNum == -1 then info.value.frameNum else a.frameNum)
    ensures r.frameNum >= -1 || a.frameNum < -1
    ensures r.streamingInfoAvailable == a.streamingInfoAvailable && r.streamingInfo == a.streamingInfo
  {
    var a1 := a.(syncType := if idr then SyncIdr else a.syncType, currentSliceFirstMb := -1);
    match info
    case None => a1
    case Some(i) =>
      a1.(isRef := i.nalRefIdc != 0, currentSliceFirstMb := i.firstMbInSlice,
          slicesAllI := a1.slicesAllI && i.sliceTypeMod5 != 0,
          frameNum := if a1.frameNum == -1 then i.frameNum else a1.frameNum)
  }

  /**
   * The user data SEI loop as the filter runs it: the SEIs in order, each
   * one updating the streaming information or the user data copy.
   */
  method ScanUserDataSeis(s: SeiScan, seis: seq<UserDataSei>, userDataBufferSize: int, maxSliceCount: int) returns (r: SeiScan)
    requires maxSliceCount >= 1 && SliceTable(s.table, maxSliceCount)
    requires forall i :: 0 <= i < |seis| ==> WellFormedSei(seis[i], maxSliceCount)
    ensures r == ScanSei(s, seis, |seis|, userDataBufferSize, maxSliceCount)
  {
    r := s;
    for i := 0 to |seis|
      invariant r == ScanSei(s, seis, i, userDataBufferSize, maxSliceCount)
    {
      var sei := seis[i];
      if sei.getOk {
        if sei.isStreamingV1 {
          if sei.deserialized.Some? {
            var table := sei.deserialized.value.1;
            r := r.(available := true, info := sei.deserialized.value.0, table := table, inferredSliceMbCount := table[0]);
          }
        } else if |sei.bytes| <= userDataBufferSize {
          r := r.(userData := Some(sei.bytes));
        }
      }
    }
  }

  /** The streaming information the scan leaves is that of the last streaming SEI that deserialises. */
  lemma {:induction false} ScanSeiLastStreaming(s: SeiScan, seis: seq<UserDataSei>, n: int, userDataBufferSize: int, maxSliceCount: int, i: int)
    requires 0 <= i < n <= |seis| && maxSliceCount >= 1 && SliceTable(s.table, maxSliceCount)
    requires forall k :: 0 <= k < |seis| ==> WellFormedSei(seis[k], maxSliceCount)
    requires seis[i].getOk && seis[i].isStreamingV1 && seis[i].deserialized.Some?
    requires forall k :: i < k < n ==> !(seis[k].getOk && seis[k].isStreamingV1 && seis[k].deserialized.Some?)
    ensures var r := ScanSei(s, seis, n, userDataBufferSize, maxSliceCount);
      r.info == seis[i].deserialized.value.0 && r.table == seis[i].deserialized.value.1 &&
      r.inferredSliceMbCount == seis[i].deserialized.value.1[0]
    decreases n
  {
    if n - 1 > i {
      ScanSeiLastStreaming(s, seis, n - 1, userDataBufferSize, maxSliceCount, i);
    }
  }

  /** The streaming SEI describes the AU's slices (with no more slices than its table holds). */
  predicate StreamingSlices(a: AuState, table: seq<int>) {
    a.streamingInfoAvailable && a.streamingInfo.sliceCount <= |table|
  }

  /** Where the slice walk of ProcessNalu starts: the previous slice, or slice 0 at macroblock 0 for the first one. */
  function WalkStart(a: AuState): (int, int) {
    if a.previousSliceIndex < 0 then (0, 0) else (a.previousSliceIndex, a.previousSliceFirstMb)
  }

  /**
   * The range of macroblocks ProcessNalu marks for a received slice, and
   * the AU's slice bookkeeping afterwards. With a streaming SEI, the walk
   * along its slice table finds the slice's index and the slice's size is
   * the table's entry there; without one, a slice whose first macroblock
   * is known takes the inferred size. The range is clipped to the map, and
   * a slice whose first macroblock is unknown marks nothing.
   */
  function SliceRange(a: AuState, table: seq<int>, inferredSliceMbCount: int, mbCount: int): (r: (AuState, int, int))
    requires a.previousSliceIndex >= -1 && mbCount >= 0
    ensures r.0.(previousSliceIndex := a.previousSliceIndex, previousSliceFirstMb := a.previousSliceFirstMb,
                 inferredPreviousSliceFirstMb := a.inferredPreviousSliceFirstMb) == a.(slicesReceived := true)
    ensures r.0.previousSliceIndex >= -1
    ensures r.2 >= 0 && (r.2 > 0 ==> 0 <= r.1 && r.1 + r.2 <= mbCount)
    ensures a.currentSliceFirstMb < 0 ==> r.2 == 0
    ensures StreamingSlices(a, table) ==>
      var w := SliceWalk(table, a.streamingInfo.sliceCount, WalkStart(a).0, WalkStart(a).1, a.currentSliceFirstMb);
      r.0.previousSliceIndex == w.0 && r.0.previousSliceFirstMb == a.currentSliceFirstMb &&
      r.0.inferredPreviousSliceFirstMb == a.inferredPreviousSliceFirstMb &&
      (a.currentSliceFirstMb >= 0 ==>
        r.1 == a.currentSliceFirstMb && r.2 == Clip(r.1, SliceMbCountAt(table, a.streamingInfo.sliceCount, w.0), mbCount))
    ensures !StreamingSlices(a, table) && a.currentSliceFirstMb >= 0 ==>
      r.0 == a.(slicesReceived := true, inferredPreviousSliceFirstMb := a.currentSliceFirstMb) &&
      r.1 == a.currentSliceFirstMb && r.2 == Clip(r.1, if inferredSliceMbCount > 0 then inferredSliceMbCount else 0, mbCount)
    ensures !StreamingSlices(a, table) && a.currentSliceFirstMb < 0 ==> r.0 == a.(slicesReceived := true)
  {
    var a1 := a.(slicesReceived := true);
    var first := a.currentSliceFirstMb;
    if StreamingSlices(a, table) then
      var w := SliceWalk(table, a.streamingInfo.sliceCount, WalkStart(a).0, WalkStart(a).1, first);
      (a1.(previousSliceIndex := w.0, previousSliceFirstMb := first),
       first, if first < 0 then 0 else Clip(first, SliceMbCountAt(table, a.streamingInfo.sliceCount, w.0), mbCount))
    else if first >= 0 then
      (a1.(inferredPreviousSliceFirstMb := first), first, Clip(first, if inferredSliceMbCount > 0 then inferredSliceMbCount else 0, mbCount))
    else (a1, 0, 0)
  }

  /**
   * The first macroblock and the count ProcessNalu marks, as written: the
   * slice size is read at the walk's index whatever it is (None when that
   * index is past the table), the streaming path runs even when the
   * slice's first macroblock is unknown (-1), and the count is clipped
   * with ClipAsWritten.
   */
  function SliceRangeAsWritten(a: AuState, table: seq<int>, inferredSliceMbCount: int, mbCount: int): Option<(int, int)>
    requires a.previousSliceIndex >= -1
  {
    var first := a.currentSliceFirstMb;
    if StreamingSlices(a, table) then
      var w := SliceWalk(table, a.streamingInfo.sliceCount, WalkStart(a).0, WalkStart(a).1, first);
      if w.0 < |table| then Some((first, ClipAsWritten(first, table[w.0], mbCount))) else None
    else if first >= 0 then Some((first, ClipAsWritten(first, if inferredSliceMbCount > 0 then inferredSliceMbCount else 0, mbCount)))
    else Some((0, 0))
  }

  /**
   * As written, a slice whose first macroblock the parser could not give
   * (GetSliceInfo failed) in an AU with a streaming SEI marks from index -1:
   * one write before the current map.
   */
  lemma SliceRangeAsWrittenBeforeMap()
    ensures var a := ResetAuState.(streamingInfoAvailable := true, streamingInfo := StreamingInfo(0, 1));
      SliceRangeAsWritten(a, [5], 0, 10) == Some((-1, 5))
  {
    var a := ResetAuState.(streamingInfoAvailable := true, streamingInfo := StreamingInfo(0, 1));
    assert SliceWalk([5], 1, 0, 0, -1) == (0, 0);
  }

  /**
   * As written, a slice that starts past the slices the SEI describes
   * stops the walk at index sliceCount, and the size is read from the
   * table entry there, which the SEI did not set: here the stale 7 of a
   * two-entry table whose SEI describes one slice of 5 macroblocks.
   */
  lemma SliceRangeAsWrittenReadsStaleEntry()
    ensures var a := ResetAuState.(streamingInfoAvailable := true, streamingInfo := StreamingInfo(0, 1), currentSliceFirstMb := 6);
      SliceRangeAsWritten(a, [5, 7], 0, 20) == Some((6, 7)) && SliceRange(a, [5, 7], 0, 20).2 == 0
  {
    assert SliceWalk([5, 7], 1, 1, 5, 6) == (1, 5);
    assert SliceWalk([5, 7], 1, 0, 0, 6) == (1, 5);
  }

  /** ARSTREAM2_H264Filter_t, with the configuration, the sync state, the current AU and the statistics. */
  class Filter {
    const waitForSync: bool
    const outputIncompleteAu: bool
    const filterOutSpsPps: bool
    const filterOutSei: bool
    const replaceStartCodesWithNaluSize: bool
    const generateSkippedPSlices: bool
    const generateFirstGrayIFrame: bool
    /** ARSTREAM2_H264_FILTER_MB_STATUS_ZONE_COUNT. */
    const zoneCount: int
    /** ARSTREAM2_H264_SEI_PARROT_STREAMING_MAX_SLICE_COUNT. */
    const maxSliceCount: int

    var hasSpsPpsCallback: bool
    var hasGetAuBufferCallback: bool
    var hasAuReadyCallback: bool

    var running: bool
    var sync: bool
    var spsSync: bool
    var sps: seq<byte>
    var ppsSync: bool
    var pps: seq<byte>
    var firstGrayIFramePending: bool
    /** mbWidth, mbHeight, mbCount and maxFrameNum. */
    var geometry: Geometry

    var outputIndex: int
    var au: AuState
    /** currentAuStreamingSliceMbCount and currentAuInferredSliceMbCount, which ResetAu keeps. */
    var sliceMbCount: seq<int>
    var inferredSliceMbCount: int
    var previousAuFrameNum: int
    var previousSliceType: SliceType

    /** The macroblock status maps of the current AU and of the last reference AU (NULL before sync). */
    var currentMap: array?<int>
    var refMap: array?<int>

    var stats: VideoStats
    var lastStatsOutputTimestamp: u64

    ghost function Sync(): SyncState
      reads this
    {
      SyncState(running, sync, spsSync, sps, ppsSync, pps, firstGrayIFramePending, geometry)
    }

    /** The sync state apart from the parameter sets. */
    ghost function SyncRest(): (bool, bool, bool, Geometry)
      reads this
    {
      (running, sync, firstGrayIFramePending, geometry)
    }

    /** The installed callbacks: spsPps, getAuBuffer and auReady. */
    ghost function Callbacks(): (bool, bool, bool)
      reads this
    {
      (hasSpsPpsCallback, hasGetAuBufferCallback, hasAuReadyCallback)
    }

    /** What the parsing of the current AU has gathered, and what it carries over from the previous one. */
    ghost function Parsing(): (AuState, seq<int>, int, int, SliceType)
      reads this
    {
      (au, sliceMbCount, inferredSliceMbCount, previousAuFrameNum, previousSliceType)
    }

    /** The output side: statistics, the last statistics output time and the output index. */
    ghost function Output(): (VideoStats, u64, int)
      reads this
    {
      (stats, lastStatsOutputTimestamp, outputIndex)
    }

    ghost predicate StatusArray(a: array<int>)
      reads a
    {
      forall k :: 0 <= k < a.Length ==> IsStatus(a[k])
    }

    /**
     * The maps exist only once synchronised, are two different arrays of
     * mbCount statuses for a geometry of at least one macroblock; sync
     * implies both parameter sets are stored; frame numbers are -1 or
     * valid; the statistics and the slice table have their shapes.
     */
    ghost predicate Valid()
      reads this, currentMap, refMap
    {
      zoneCount >= 1 && maxSliceCount >= 1 && StatsShaped(stats, zoneCount) &&
      SliceTable(sliceMbCount, maxSliceCount) &&
      previousAuFrameNum >= -1 && au.frameNum >= -1 && au.previousSliceIndex >= -1 && geometry.mbCount >= 0 &&
      (geometry.maxFrameNum == 0 || geometry.maxFrameNum >= 16) &&
      (currentMap == null <==> refMap == null) &&
      (currentMap != null ==>
        sync && currentMap != refMap && currentMap.Length == geometry.mbCount && refMap.Length == geometry.mbCount &&
        geometry.mbWidth >= 1 && geometry.mbHeight >= 1 && geometry.mbCount == geometry.mbWidth * geometry.mbHeight &&
        StatusArray(currentMap) && StatusArray(refMap)) &&
      (sync ==> spsSync && ppsSync)
    }

    /**
     * ARSTREAM2_H264Filter_Init: the record is zeroed and the options are
     * taken from the configuration; nothing is synchronised and no map
     * exists.
     */
    constructor (waitForSync: bool, outputIncompleteAu: bool, filterOutSpsPps: bool, filterOutSei: bool,
                 replaceStartCodesWithNaluSize: bool, generateSkippedPSlices: bool, generateFirstGrayIFrame: bool,
                 zoneCount: int, maxSliceCount: int)
      requires zoneCount >= 1 && maxSliceCount >= 1
      ensures Valid()
      ensures this.waitForSync == waitForSync && this.outputIncompleteAu == outputIncompleteAu
      ensures this.filterOutSpsPps == filterOutSpsPps && this.filterOutSei == filterOutSei
      ensures this.replaceStartCodesWithNaluSize == replaceStartCodesWithNaluSize
      ensures this.generateSkippedPSlices == generateSkippedPSlices && this.generateFirstGrayIFrame == generateFirstGrayIFrame
      ensures this.zoneCount == zoneCount && this.maxSliceCount == maxSliceCount
      ensures Sync() == SyncState(false, false, false, [], false, [], false, Geometry(0, 0, 0, 0))
      ensures !hasSpsPpsCallback && !hasGetAuBufferCallback && !hasAuReadyCallback
      ensures au == ZeroAuState && previousAuFrameNum == 0 && outputIndex == 0
      ensures currentMap == null && refMap == null && stats == ZeroStats(zoneCount) && lastStatsOutputTimestamp == 0
    {
      this.waitForSync := waitForSync;
      this.outputIncompleteAu := outputIncompleteAu;
      this.filterOutSpsPps := filterOutSpsPps;
      this.filterOutSei := filterOutSei;
      this.replaceStartCodesWithNaluSize := replaceStartCodesWithNaluSize;
      this.generateSkippedPSlices := generateSkippedPSlices;
      this.generateFirstGrayIFrame := generateFirstGrayIFrame;
      this.zoneCount := zoneCount;
      this.maxSliceCount := maxSliceCount;
      hasSpsPpsCallback, hasGetAuBufferCallback, hasAuReadyCallback := false, false, false;
      running, sync, spsSync, sps, ppsSync, pps := false, false, false, [], false, [];
      firstGrayIFramePending := false;
      geometry := Geometry(0, 0, 0, 0);
      outputIndex := 0;
      au := ZeroAuState;
      sliceMbCount := seq(maxSliceCount, _ => 0);
      inferredSliceMbCount := 0;
      previousAuFrameNum := 0;
      previousSliceType := SliceTypeNonVcl;
      currentMap, refMap := null, null;
      stats := ZeroStats(zoneCount);
      lastStatsOutputTimestamp := 0;
    }

    /**
     * ARSTREAM2_H264Filter_Start: BAD_PARAMETERS unless both the AU buffer
     * and the AU ready callbacks are given; otherwise the callbacks are
     * installed and the filter runs.
     */
    method Start(spsPpsCallback: bool, getAuBufferCallback: bool, auReadyCallback: bool) returns (ret: ArStream2Error.Error)
      requires Valid()
      modifies this
      ensures Valid()
      ensures !(getAuBufferCallback && auReadyCallback) ==>
        ret == ArStream2Error.ErrorBadParameters && Sync() == old(Sync()) && Callbacks() == old(Callbacks())
      ensures getAuBufferCallback && auReadyCallback ==>
        ret == ArStream2Error.Ok && Sync() == old(Sync()).(running := true) &&
        Callbacks() == (spsPpsCallback, true, true)
      ensures Parsing() == old(Parsing()) && Output() == old(Output())
      ensures currentMap == old(currentMap) && refMap == old(refMap)
    {
      if !getAuBufferCallback || !auReadyCallback {
        return ArStream2Error.ErrorBadParameters;
      }
      hasSpsPpsCallback, hasGetAuBufferCallback, hasAuReadyCallback := spsPpsCallback, true, true;
      running := true;
      ret := ArStream2Error.Ok;
    }

    /** A status map of n macroblocks, all UNKNOWN (the realloc and memset of Sync). */
    static method NewStatusMap(n: int) returns (a: array<int>)
      requires n >= 0
      ensures fresh(a) && a.Length == n && forall k :: 0 <= k < n ==> a[k] == MB_UNKNOWN
    {
      a := new int[n](_ => MB_UNKNOWN);
    }

    /** memset of a status map. */
    method Fill(a: array<int>, v: int)
      requires IsStatus(v)
      modifies a
      ensures forall k :: 0 <= k < a.Length ==> a[k] == v
    {
      forall k | 0 <= k < a.Length {
        a[k] := v;
      }
    }

    /**
     * ARSTREAM2_H264Filter_Sync: the filter becomes synchronised (and a
     * gray I frame becomes pending when one is to be generated) and the SPS
     * and PPS go to the spsPpsCallback when there is one. -1 when the
     * parser has no SPS context; otherwise the geometry comes from the SPS,
     * and -1 again when the writer refuses the context. Only on success are
     * both maps (re)allocated for mbCount macroblocks, all UNKNOWN, and the
     * previous frame_num forgotten.
     */
    method Synchronise(spsContext: Option<SpsContext>, writerOk: bool) returns (ret: int, reported: Option<(seq<byte>, seq<byte>)>)
      requires Valid() && !sync && spsSync && ppsSync
      modifies this
      ensures Valid()
      ensures Sync() == old(Sync()).(sync := true, firstGrayIFramePending := old(firstGrayIFramePending) || generateFirstGrayIFrame,
                                     geometry := if spsContext.Some? then SyncGeometry(spsContext.value) else old(geometry))
      ensures ret == (if spsContext.Some? && writerOk then 0 else -1)
      ensures reported == (if hasSpsPpsCallback then Some((sps, pps)) else None)
      ensures ret == -1 ==> currentMap == null && refMap == null && Parsing() == old(Parsing())
      ensures ret == 0 ==>
        currentMap != null && refMap != null && fresh(currentMap) && fresh(refMap) &&
        Parsing() == old(Parsing()).(3 := -1) &&
        (forall k :: 0 <= k < geometry.mbCount ==> currentMap[k] == MB_UNKNOWN && refMap[k] == MB_UNKNOWN)
      ensures Output() == old(Output()) && Callbacks() == old(Callbacks())
    {
      sync := true;
      firstGrayIFramePending := firstGrayIFramePending || generateFirstGrayIFrame;
      reported := if hasSpsPpsCallback then Some((sps, pps)) else None;
      ret := -1;
      if spsContext.Some? {
        geometry := SyncGeometry(spsContext.value);
        if writerOk {
          ret := 0;
          InstallMaps();
        }
      }
    }

    /** The end of a successful Sync: both maps allocated, all UNKNOWN, and the previous frame_num forgotten. */
    method InstallMaps()
      requires Valid() && sync && currentMap == null
      requires geometry.mbWidth >= 1 && geometry.mbHeight >= 1 && geometry.mbCount == geometry.mbWidth * geometry.mbHeight
      modifies this
      ensures Valid() && Sync() == old(Sync()) && Output() == old(Output()) && Callbacks() == old(Callbacks())
      ensures currentMap != null && refMap != null && fresh(currentMap) && fresh(refMap)
      ensures Parsing() == old(Parsing()).(3 := -1)
      ensures forall k :: 0 <= k < geometry.mbCount ==> currentMap[k] == MB_UNKNOWN && refMap[k] == MB_UNKNOWN
    {
      currentMap := NewStatusMap(geometry.mbCount);
      refMap := NewStatusMap(geometry.mbCount);
      previousAuFrameNum := -1;
    }

    /**
     * ARSTREAM2_H264Filter_ResetAu: the per-AU fields return to their
     * initial values, the previous slice type to NON_VCL and the current
     * map to UNKNOWN; the frame_num of a reference AU becomes the previous
     * frame_num. The sync state, the statistics and the slice table are
     * kept.
     */
    method ResetAu()
      requires Valid()
      modifies this, currentMap
      ensures Valid()
      ensures Parsing() == (ResetAuState, old(sliceMbCount), old(inferredSliceMbCount),
                            if old(au.isRef) then old(au.frameNum) else old(previousAuFrameNum), SliceTypeNonVcl)
      ensures currentMap == old(currentMap) && refMap == old(refMap)
      ensures currentMap != null ==> forall k :: 0 <= k < currentMap.Length ==> currentMap[k] == MB_UNKNOWN
      ensures refMap != null ==> refMap[..] == old(refMap[..])
      ensures Sync() == old(Sync()) && Output() == old(Output()) && Callbacks() == old(Callbacks())
    {
      if currentMap != null {
        Fill(currentMap, MB_UNKNOWN);
      }
      if au.isRef {
        previousAuFrameNum := au.frameNum;
      }
      au := ResetAuState;
      previousSliceType := SliceTypeNonVcl;
    }

    /**
     * The slice case of ParseNalu (an IDR slice first marks the AU as IDR).
     * Once synchronised, a slice the parser can describe sets the AU's
     * reference flag, its first macroblock and, for its first slice, its
     * frame_num; a P slice clears slicesAllI. A reference AU whose
     * frame_num does not follow the previous one counts one missed frame
     * and marks the whole reference map MISSING.
     */
    method HandleSlice(info: Option<SliceInfo>, nalu: NalUnit, idr: bool) returns (naluOut: NalUnit)
      requires Valid()
      modifies this, refMap
      ensures Valid()
      ensures (Sync(), Callbacks(), currentMap, refMap, lastStatsOutputTimestamp, outputIndex) ==
              old((Sync(), Callbacks(), currentMap, refMap, lastStatsOutputTimestamp, outputIndex))
      ensures Parsing() == old(Parsing()).(0 := SlicedAu(old(au), if sync then info else None, idr))
      ensures naluOut == (if sync && info.Some? then nalu.(sliceType := SliceTypeOf(info.value.sliceTypeMod5, nalu.sliceType)) else nalu)
      ensures var gap := sync && info.Some? && old(au.frameNum) == -1 && geometry.maxFrameNum > 0 &&
                         FrameGap(info.value.nalRefIdc != 0, previousAuFrameNum, info.value.frameNum, geometry.maxFrameNum);
        (gap ==> stats == old(stats).(totalFrameCount := U32(old(stats.totalFrameCount) as int + 1),
                                      missedFrameCount := U32(old(stats.missedFrameCount) as int + 1)) &&
                 (refMap != null ==> forall k :: 0 <= k < refMap.Length ==> refMap[k] == MB_MISSING)) &&
        (!gap ==> stats == old(stats) && (refMap != null ==> refMap[..] == old(refMap[..])))
    {
      var firstSlice := au.frameNum == -1;
      SliceAu(if sync then info else None, idr);
      naluOut := nalu;
      if sync && info.Some? {
        naluOut := nalu.(sliceType := SliceTypeOf(info.value.sliceTypeMod5, nalu.sliceType));
        CheckFrameGap(firstSlice, info.value.nalRefIdc != 0, info.value.frameNum);
      }
    }

    /** The current AU takes in one slice. */
    method SliceAu(info: Option<SliceInfo>, idr: bool)
      modifies `au
      ensures au == SlicedAu(old(au), info, idr)
    {
      au := SlicedAu(au, info, idr);
    }

    /** The frame_num check on the first slice of an AU: a gap counts a missed frame. */
    method CheckFrameGap(firstSlice: bool, isRef: bool, frameNum: int)
      requires Valid()
      modifies `stats, refMap
      ensures Valid()
      ensures var gap := firstSlice && geometry.maxFrameNum > 0 &&
                         FrameGap(isRef, previousAuFrameNum, frameNum, geometry.maxFrameNum);
        (gap ==> stats == old(stats).(totalFrameCount := U32(old(stats.totalFrameCount) as int + 1),
                                      missedFrameCount := U32(old(stats.missedFrameCount) as int + 1)) &&
                 (refMap != null ==> forall k :: 0 <= k < refMap.Length ==> refMap[k] == MB_MISSING)) &&
        (!gap ==> stats == old(stats) && (refMap != null ==> refMap[..] == old(refMap[..])))
    {
      if firstSlice && geometry.maxFrameNum > 0 && FrameGap(isRef, previousAuFrameNum, frameNum, geometry.maxFrameNum) {
        CountMissedFrame();
      }
    }

    /**
     * The SEI case of ParseNalu once synchronised: the user data SEIs are
     * scanned in order (ScanSei); the AU's user data size becomes that of
     * the last copied SEI.
     */
    method HandleSei(seis: seq<UserDataSei>, auIn: AccessUnit) returns (auOut: AccessUnit, userData: Option<seq<byte>>)
      requires Valid() && forall i :: 0 <= i < |seis| ==> WellFormedSei(seis[i], maxSliceCount)
      modifies this
      ensures Valid() && Sync() == old(Sync()) && Callbacks() == old(Callbacks()) && Output() == old(Output())
      ensures currentMap == old(currentMap) && refMap == old(refMap)
      ensures var scan := ScanSei(SeiScan(old(au.streamingInfoAvailable), old(au.streamingInfo), old(sliceMbCount),
                                          old(inferredSliceMbCount), None), seis, |seis|, auIn.userDataBufferSize, maxSliceCount);
        Parsing() == old(Parsing()).(0 := old(au).(streamingInfoAvailable := scan.available, streamingInfo := scan.info),
                                     1 := scan.table, 2 := scan.inferredSliceMbCount) &&
        userData == scan.userData
      ensures userData.Some? ==> |userData.value| <= auIn.userDataBufferSize && auOut == auIn.(userDataSize := |userData.value|)
      ensures userData.None? ==> auOut == auIn
    {
      var scan := ScanUserDataSeis(SeiScan(au.streamingInfoAvailable, au.streamingInfo, sliceMbCount, inferredSliceMbCount, None),
                                   seis, auIn.userDataBufferSize, maxSliceCount);
      au := au.(streamingInfoAvailable := scan.available, streamingInfo := scan.info);
      sliceMbCount, inferredSliceMbCount := scan.table, scan.inferredSliceMbCount;
      userData := scan.userData;
      auOut := auIn;
      if userData.Some? {
        auOut := auIn.(userDataSize := |userData.value|);
      }
    }

    /** A gap in frame_num: one more total and missed frame, and the whole reference map MISSING. */
    method CountMissedFrame()
      requires Valid()
      modifies `stats, refMap
      ensures Valid() && Sync() == old(Sync()) && Callbacks() == old(Callbacks()) && Parsing() == old(Parsing())
      ensures currentMap == old(currentMap) && refMap == old(refMap)
      ensures lastStatsOutputTimestamp == old(lastStatsOutputTimestamp) && outputIndex == old(outputIndex)
      ensures stats == old(stats).(totalFrameCount := U32(old(stats.totalFrameCount) as int + 1),
                                   missedFrameCount := U32(old(stats.missedFrameCount) as int + 1))
      ensures refMap != null ==> forall k :: 0 <= k < refMap.Length ==> refMap[k] == MB_MISSING
    {
      stats := stats.(totalFrameCount := U32(stats.totalFrameCount as int + 1),
                      missedFrameCount := U32(stats.missedFrameCount as int + 1));
      if refMap != null {
        Fill(refMap, MB_MISSING);
      }
    }

    /** The SPS or PPS case of ParseNalu: the first one whose copy can be allocated is kept. */
    method StoreParameterSet(isSps: bool, bytes: seq<byte>, allocOk: bool)
      requires Valid() && |bytes| > 4
      modifies this
      ensures Valid() && Callbacks() == old(Callbacks()) && Parsing() == old(Parsing()) && Output() == old(Output())
      ensures currentMap == old(currentMap) && refMap == old(refMap)
      ensures SyncRest() == old(SyncRest())
      ensures spsSync == (old(spsSync) || (allocOk && isSps)) && sps == (if !old(spsSync) && allocOk && isSps then bytes else old(sps))
      ensures ppsSync == (old(ppsSync) || (allocOk && !isSps)) && pps == (if !old(ppsSync) && allocOk && !isSps then bytes else old(pps))
    {
      if isSps && !spsSync && allocOk {
        sps, spsSync := bytes, true;
      } else if !isSps && !ppsSync && allocOk {
        pps, ppsSync := bytes, true;
      }
    }

    /**
     * The NALU type switch of ParseNalu, entered when the parser accepted
     * the NALU (otherwise nothing changes): slices go to HandleSlice, user
     * data SEIs to HandleSei once synchronised, and the first SPS and the
     * first PPS whose copy can be allocated are kept. Any other NALU type
     * changes nothing.
     */
    method ParseContent(nalu: NalUnit, bytes: seq<byte>, auIn: AccessUnit, outcome: ParseOutcome)
      returns (naluOut: NalUnit, auOut: AccessUnit, userData: Option<seq<byte>>)
      requires Valid() && WellFormedOutcome(outcome, maxSliceCount) && |bytes| > 4
      modifies this, refMap
      ensures Valid() && Callbacks() == old(Callbacks()) && currentMap == old(currentMap) && refMap == old(refMap)
      ensures lastStatsOutputTimestamp == old(lastStatsOutputTimestamp) && outputIndex == old(outputIndex)
      ensures var ok := outcome.setupOk && outcome.parseOk;
              var t := outcome.naluType;
        (ok ==> naluOut.naluType == t) &&
        (!ok ==> naluOut == nalu) &&
        (ok && (t == NaluTypeSlice || t == NaluTypeSliceIdr) ==>
           Parsing() == old(Parsing()).(0 := SlicedAu(old(au), if sync then outcome.sliceInfo else None, t == NaluTypeSliceIdr))) &&
        (ok && t == NaluTypeSei && sync ==>
           var scan := ScanSei(SeiScan(old(au.streamingInfoAvailable), old(au.streamingInfo), old(sliceMbCount),
                                       old(inferredSliceMbCount), None), outcome.userData, |outcome.userData|,
                               auIn.userDataBufferSize, maxSliceCount);
           Parsing() == old(Parsing()).(0 := old(au).(streamingInfoAvailable := scan.available, streamingInfo := scan.info),
                                        1 := scan.table, 2 := scan.inferredSliceMbCount) &&
           userData == scan.userData) &&
        (!(ok && (t == NaluTypeSlice || t == NaluTypeSliceIdr)) ==>
           stats == old(stats) && (refMap != null ==> refMap[..] == old(refMap[..]))) &&
        (!(ok && (t == NaluTypeSlice || t == NaluTypeSliceIdr || (t == NaluTypeSei && sync))) ==>
           Parsing() == old(Parsing()) && userData == None)
      ensures SyncRest() == old(SyncRest()) && previousAuFrameNum == old(previousAuFrameNum)
      ensures var store := outcome.setupOk && outcome.parseOk && outcome.allocOk && outcome.naluType == NaluTypeSps;
        spsSync == (old(spsSync) || store) && sps == (if !old(spsSync) && store then bytes else old(sps))
      ensures var store := outcome.setupOk && outcome.parseOk && outcome.allocOk && outcome.naluType == NaluTypePps;
        ppsSync == (old(ppsSync) || store) && pps == (if !old(ppsSync) && store then bytes else old(pps))
      ensures userData.Some? ==> |userData.value| <= auIn.userDataBufferSize && auOut == auIn.(userDataSize := |userData.value|)
      ensures userData.None? ==> auOut == auIn
    {
      naluOut, auOut, userData := nalu, auIn, None;
      if outcome.setupOk && outcome.parseOk {
        naluOut := naluOut.(naluType := outcome.naluType);
        match outcome.naluType {
          case NaluTypeSliceIdr =>
            naluOut := HandleSlice(outcome.sliceInfo, naluOut, true);
          case NaluTypeSlice =>
            naluOut := HandleSlice(outcome.sliceInfo, naluOut, false);
          case NaluTypeSei =>
            if sync {
              auOut, userData := HandleSei(outcome.userData, auIn);
            }
          case NaluTypeSps =>
            StoreParameterSet(true, bytes, outcome.allocOk);
          case NaluTypePps =>
            StoreParameterSet(false, bytes, outcome.allocOk);
          case _ =>
        }
      }
    }

    /**
     * ARSTREAM2_H264Filter_ParseNalu. A NALU of at most 4 bytes (the start
     * code alone) is refused with -1 and changes nothing. Otherwise
     * ParseContent runs; then, when the filter runs and has both parameter
     * sets but is not yet synchronised, it synchronises and the result is
     * Sync's (0 or -1); otherwise the result is 0.
     */
    method ParseNalu(nalu: NalUnit, bytes: seq<byte>, auIn: AccessUnit, outcome: ParseOutcome,
                     spsContext: Option<SpsContext>, writerOk: bool)
      returns (ret: int, naluOut: NalUnit, auOut: AccessUnit, userData: Option<seq<byte>>,
               reported: Option<(seq<byte>, seq<byte>)>)
      requires Valid() && WellFormedOutcome(outcome, maxSliceCount)
      modifies this, refMap
      ensures Valid() && Callbacks() == old(Callbacks()) && lastStatsOutputTimestamp == old(lastStatsOutputTimestamp)
      ensures |bytes| <= 4 ==>
        ret == -1 && naluOut == nalu && auOut == auIn && userData == None && reported == None &&
        Sync() == old(Sync()) && Parsing() == old(Parsing()) && Output() == old(Output()) &&
        currentMap == old(currentMap) && refMap == old(refMap) && (refMap != null ==> refMap[..] == old(refMap[..]))
      ensures |bytes| > 4 && old(sync) ==> ret == 0 && reported == None && sync
      ensures |bytes| > 4 && !old(sync) ==>
        (sync <==> running && spsSync && ppsSync) &&
        (sync ==> reported == (if hasSpsPpsCallback then Some((sps, pps)) else None) &&
                  (ret == 0 <==> spsContext.Some? && writerOk) && (ret == 0 <==> currentMap != null)) &&
        (!sync ==> ret == 0 && reported == None)
      ensures ret == 0 || ret == -1
      ensures |bytes| > 4 ==>
        geometry == (if !old(sync) && sync && spsContext.Some? then SyncGeometry(spsContext.value) else old(geometry)) &&
        previousAuFrameNum == (if !old(sync) && sync && spsContext.Some? && writerOk then -1 else old(previousAuFrameNum))
      ensures var store := |bytes| > 4 && outcome.setupOk && outcome.parseOk && outcome.allocOk && outcome.naluType == NaluTypeSps;
        running == old(running) && spsSync == (old(spsSync) || store) && sps == (if !old(spsSync) && store then bytes else old(sps))
      ensures var store := |bytes| > 4 && outcome.setupOk && outcome.parseOk && outcome.allocOk && outcome.naluType == NaluTypePps;
        ppsSync == (old(ppsSync) || store) && pps == (if !old(ppsSync) && store then bytes else old(pps))
    {
      naluOut, auOut, userData, reported := nalu, auIn, None, None;
      if |bytes| <= 4 {
        return -1, naluOut, auOut, userData, reported;
      }
      ret := 0;
      naluOut, auOut, userData := ParseContent(nalu, bytes, auIn, outcome);
      if running && spsSync && ppsSync && !sync {
        ret, reported := Synchronise(spsContext, writerOk);
      }
    }

    /** The slice walk loop of ProcessNalu: it advances along the slice table until the current slice's first macroblock. */
    static method WalkSlices(table: seq<int>, sliceCount: int, index0: int, firstMb0: int, target: int)
      returns (index: int, firstMb: int)
      requires 0 <= index0 && sliceCount <= |table|
      ensures (index, firstMb) == SliceWalk(table, sliceCount, index0, firstMb0, target)
    {
      index, firstMb := index0, firstMb0;
      while index < sliceCount && firstMb < target
        invariant index0 <= index
        invariant SliceWalk(table, sliceCount, index, firstMb, target) == SliceWalk(table, sliceCount, index0, firstMb0, target)
        decreases sliceCount - index
      {
        firstMb := firstMb + table[index];
        index := index + 1;
      }
    }

    /** The marking loop of ProcessNalu over [first, first + n) of the current map. */
    method MarkSlice(first: int, n: int, isI: bool)
      requires Valid() && currentMap != null && 0 <= first && 0 < n && first + n <= geometry.mbCount
      modifies currentMap
      ensures Valid()
      ensures currentMap[..] == MarkedSlice(old(currentMap[..]), refMap[..], first, n, isI)
    {
      ghost var m := currentMap[..];
      MarkedSliceStatuses(m, refMap[..], first, n, isI);
      for i := 0 to n
        invariant forall k :: 0 <= k < currentMap.Length ==>
          currentMap[k] == if first <= k < first + i then SliceMbStatus(isI, refMap[k]) else m[k]
      {
        currentMap[first + i] := SliceMbStatus(isI, refMap[first + i]);
      }
      assert currentMap[..] == MarkedSlice(m, refMap[..], first, n, isI);
    }

    /**
     * The first half of ProcessNalu for a slice: the AU's slice bookkeeping
     * is updated and the range to mark is returned (SliceRange).
     */
    method FindSliceRange() returns (first: int, count: int)
      requires Valid()
      modifies this
      ensures Valid() && Sync() == old(Sync()) && Callbacks() == old(Callbacks()) && Output() == old(Output())
      ensures currentMap == old(currentMap) && refMap == old(refMap)
      ensures Parsing() == old(Parsing()).(0 := SliceRange(old(au), sliceMbCount, inferredSliceMbCount, geometry.mbCount).0)
      ensures count == SliceRange(old(au), sliceMbCount, inferredSliceMbCount, geometry.mbCount).2
      ensures count > 0 ==> first == SliceRange(old(au), sliceMbCount, inferredSliceMbCount, geometry.mbCount).1
    {
      var a;
      a, first, count := ComputeSliceRange(au, sliceMbCount, inferredSliceMbCount, geometry.mbCount);
      au := a;
    }

    /** The computation of FindSliceRange on values: the walk loop, then the slice size and its clip. */
    static method ComputeSliceRange(a0: AuState, table: seq<int>, inferredSliceMbCount: int, mbCount: int)
      returns (a: AuState, first: int, count: int)
      requires a0.previousSliceIndex >= -1 && mbCount >= 0
      ensures a == SliceRange(a0, table, inferredSliceMbCount, mbCount).0
      ensures count == SliceRange(a0, table, inferredSliceMbCount, mbCount).2
      ensures count > 0 ==> first == SliceRange(a0, table, inferredSliceMbCount, mbCount).1
    {
      first, count := 0, 0;
      a := a0.(slicesReceived := true);
      if a.streamingInfoAvailable && a.streamingInfo.sliceCount <= |table| {
        var start := WalkStart(a);
        var index, _ := WalkSlices(table, a.streamingInfo.sliceCount, start.0, start.1, a.currentSliceFirstMb);
        first := a.currentSliceFirstMb;
        a := a.(previousSliceIndex := index, previousSliceFirstMb := first);
        if first >= 0 {
          count := Clip(first, SliceMbCountAt(table, a.streamingInfo.sliceCount, index), mbCount);
        }
      } else if a.currentSliceFirstMb >= 0 {
        first := a.currentSliceFirstMb;
        a := a.(inferredPreviousSliceFirstMb := first);
        count := Clip(first, if inferredSliceMbCount > 0 then inferredSliceMbCount else 0, mbCount);
      }
    }

    /**
     * ARSTREAM2_H264Filter_ProcessNalu: for a slice NALU, the AU is marked
     * as having received slices, the slice's macroblock range is found
     * (SliceRange) and, once the maps exist, marked in the current map
     * (MarkedSlice). Any other NALU changes nothing.
     */
    method ProcessNalu(nalu: NalUnit)
      requires Valid()
      modifies this, currentMap
      ensures Valid() && Sync() == old(Sync()) && Callbacks() == old(Callbacks()) && Output() == old(Output())
      ensures currentMap == old(currentMap) && refMap == old(refMap)
      ensures !(nalu.naluType == NaluTypeSlice || nalu.naluType == NaluTypeSliceIdr) ==>
        Parsing() == old(Parsing()) && (currentMap != null ==> currentMap[..] == old(currentMap[..]))
      ensures nalu.naluType == NaluTypeSlice || nalu.naluType == NaluTypeSliceIdr ==>
        var r := SliceRange(old(au), sliceMbCount, inferredSliceMbCount, geometry.mbCount);
        Parsing() == old(Parsing()).(0 := r.0) &&
        (currentMap != null ==> currentMap[..] == MarkedSlice(old(currentMap[..]), refMap[..], r.1, r.2, nalu.sliceType == SliceTypeI))
    {
      if nalu.naluType != NaluTypeSlice && nalu.naluType != NaluTypeSliceIdr {
        return;
      }
      var first, count := FindSliceRange();
      if currentMap != null && count > 0 {
        MarkSlice(first, count, nalu.sliceType == SliceTypeI);
      } else if currentMap != null {
        assert currentMap[..] == MarkedSlice(old(currentMap[..]), refMap[..], first, count, nalu.sliceType == SliceTypeI);
      }
    }

    /** memcpy of a NALU's bytes into the output buffer at offset `at`. */
    static method CopyBytes(buf: array<byte>, at: int, bytes: seq<byte>)
      requires 0 <= at && at + |bytes| <= buf.Length
      modifies buf
      ensures buf[..at] == old(buf[..at]) && buf[at..at + |bytes|] == bytes
    {
      for b := 0 to |bytes|
        invariant buf[..at] == old(buf[..at]) && buf[at..at + b] == bytes[..b]
      {
        buf[at + b] := bytes[b];
      }
    }

    /** One NALU copied at offset `at`, with its start code replaced with its big-endian size when asked and possible. */
    static method CopyNalu(buf: array<byte>, at: int, bytes: NaluBytes, replace: bool)
      requires 0 <= at && at + |bytes| <= buf.Length
      modifies buf
      ensures buf[..at + |bytes|] == old(buf[..at]) + Framed(bytes, replace)
    {
      CopyBytes(buf, at, bytes);
      if |bytes| >= 4 && replace {
        var size := BE32(|bytes| - 4);
        buf[at] := size[0];
        buf[at + 1] := size[1];
        buf[at + 2] := size[2];
        buf[at + 3] := size[3];
        assert buf[at..at + |bytes|] == size + bytes[4..];
      }
      assert buf[..at + |bytes|] == buf[..at] + buf[at..at + |bytes|];
    }

    /**
     * The copy loop of OutputAu: each NALU not filtered out that fits in
     * what is left of the buffer's cap bytes is copied, its start code
     * replaced with its big-endian size when that option is on; the
     * result is the size of the output AU.
     */
    static method CopyNalus(nalus: seq<AuNalu>, buf: array<byte>, cap: int,
                            filterOutSpsPps: bool, filterOutSei: bool, replace: bool) returns (auSize: int)
      requires 0 <= cap <= buf.Length
      modifies buf
      ensures auSize <= cap && auSize == |Assembled(nalus, cap, filterOutSpsPps, filterOutSei, replace)|
      ensures buf[..auSize] == Assembled(nalus, cap, filterOutSpsPps, filterOutSei, replace)
    {
      auSize := 0;
      for i := 0 to |nalus|
        invariant auSize == |Assembled(nalus[..i], cap, filterOutSpsPps, filterOutSei, replace)| && auSize <= cap
        invariant buf[..auSize] == Assembled(nalus[..i], cap, filterOutSpsPps, filterOutSei, replace)
      {
        assert nalus[..i + 1][..i] == nalus[..i];
        var n := nalus[i];
        if !FilteredOut(n, filterOutSpsPps, filterOutSei) && auSize + |n.bytes| <= cap {
          CopyNalu(buf, auSize, n.bytes, replace);
          auSize := auSize + |n.bytes|;
        }
      }
      assert nalus[..|nalus|] == nalus;
    }

    /** Macroblock i of row j of the statistics loop: its status counts in the row's zone (MbStep). */
    static method CountMacroblock(ghost s0: VideoStats, r: VideoStats, m: array<int>, ghost ms: seq<int>, j: int, i: int,
                                  rowStart: int, zone: int, mbWidth: int, mbHeight: int, zoneCount: int, output: bool,
                                  curTime: u64) returns (r': VideoStats)
      requires ms == m[..] && zoneCount >= 1 && StatusMap(ms, mbWidth, mbHeight) && 0 <= j < mbHeight && 0 <= i < mbWidth
      requires rowStart == j * mbWidth && zone == j * zoneCount / mbHeight && StatsShaped(s0, zoneCount)
      requires rowStart + i < |ms| && r == Tally(s0, ms, rowStart + i, mbWidth, mbHeight, zoneCount, output, curTime)
      ensures r' == Tally(s0, ms, rowStart + i + 1, mbWidth, mbHeight, zoneCount, output, curTime)
    {
      RowStep(s0, ms, j, i, rowStart, mbWidth, mbHeight, zoneCount, output, curTime, zone);
      r' := MbStep(r, m[rowStart + i], zone, output, curTime, zoneCount);
    }

    /** Row j of the statistics loop: the mbWidth macroblocks from rowStart = j * mbWidth on, left to right. */
    static method TallyRow(ghost s0: VideoStats, st: VideoStats, m: array<int>, ghost ms: seq<int>, j: int, rowStart: int,
                           mbWidth: int, mbHeight: int, zoneCount: int, output: bool, curTime: u64) returns (r: VideoStats)
      requires ms == m[..] && zoneCount >= 1 && StatusMap(ms, mbWidth, mbHeight) && 0 <= j < mbHeight
      requires rowStart == j * mbWidth && StatsShaped(s0, zoneCount)
      requires st == Tally(s0, ms, rowStart, mbWidth, mbHeight, zoneCount, output, curTime)
      ensures rowStart + mbWidth <= |ms|
      ensures r == Tally(s0, ms, rowStart + mbWidth, mbWidth, mbHeight, zoneCount, output, curTime)
    {
      r := st;
      var zone := j * zoneCount / mbHeight;
      RowStep(s0, ms, j, mbWidth - 1, rowStart, mbWidth, mbHeight, zoneCount, output, curTime, zone);
      for i := 0 to mbWidth
        invariant r == Tally(s0, ms, rowStart + i, mbWidth, mbHeight, zoneCount, output, curTime)
      {
        r := CountMacroblock(s0, r, m, ms, j, i, rowStart, zone, mbWidth, mbHeight, zoneCount, output, curTime);
      }
    }

    /**
     * The statistics loop of OutputAu: row by row, column by column, each
     * macroblock of the map counts in its status and zone and, for an
     * output AU, may start an error second (Tally).
     */
    static method TallyMacroblocks(st: VideoStats, m: array<int>, mbWidth: int, mbHeight: int, zoneCount: int,
                                   output: bool, curTime: u64) returns (r: VideoStats)
      requires StatsShaped(st, zoneCount) && zoneCount >= 1 && StatusMap(m[..], mbWidth, mbHeight)
      ensures r == Tally(st, m[..], m.Length, mbWidth, mbHeight, zoneCount, output, curTime)
    {
      ghost var ms := m[..];
      r := st;
      var k := 0;
      for j := 0 to mbHeight
        invariant k == j * mbWidth
        invariant r == Tally(st, ms, k, mbWidth, mbHeight, zoneCount, output, curTime)
      {
        r := TallyRow(st, r, m, ms, j, k, mbWidth, mbHeight, zoneCount, output, curTime);
        NextRowStart(j, mbWidth, mbHeight);
        k := k + mbWidth;
      }
      NextRowStart(mbHeight, mbWidth, mbHeight);
    }

    /**
     * The delivery part of OutputAu, for an AU that is not cancelled. It
     * fails (-1) when there is no AU buffer callback or the callback does
     * not give a buffer of positive size. Otherwise the NALUs are copied
     * into the buffer (CopyNalus) and handed to the auReadyCallback: the
     * result is 1 when that succeeds or there is none, and 0 otherwise;
     * resync says that the callback asked for a resync while gray I
     * frames are generated.
     */
    method Deliver(nalus: seq<AuNalu>, grant: AuBufferGrant, readyStatus: ArStream2Error.Error)
      returns (ret: int, resync: bool, auSize: int)
      requires grant.buffer != null ==> grant.size <= grant.buffer.Length
      modifies grant.buffer
      ensures var bufferOk := hasGetAuBufferCallback && grant.status == ArStream2Error.Ok && grant.buffer != null && grant.size > 0;
        var readyOk := !hasAuReadyCallback || readyStatus == ArStream2Error.Ok;
        ret == (if !bufferOk then -1 else if readyOk then 1 else 0) &&
        resync == (bufferOk && !readyOk && readyStatus == ArStream2Error.ErrorResyncRequired && generateFirstGrayIFrame)
      ensures ret == 1 ==>
        grant.buffer != null && 0 <= auSize <= grant.size &&
        grant.buffer[..auSize] == Assembled(nalus, grant.size, filterOutSpsPps, filterOutSei, replaceStartCodesWithNaluSize)
    {
      auSize, resync := 0, false;
      if !hasGetAuBufferCallback || grant.status != ArStream2Error.Ok || grant.buffer == null || grant.size <= 0 {
        return -1, resync, auSize;
      }
      auSize := CopyNalus(nalus, grant.buffer, grant.size, filterOutSpsPps, filterOutSei, replaceStartCodesWithNaluSize);
      var cbRet := if hasAuReadyCallback then readyStatus else ArStream2Error.Ok;
      if cbRet != ArStream2Error.Ok {
        resync := cbRet == ArStream2Error.ErrorResyncRequired && generateFirstGrayIFrame;
        ret := 0;
      } else {
        ret := 1;
      }
    }

    /**
     * The first half of the statistics update of OutputAu: a reference AU
     * that was not output has its whole current map marked MISSING; then
     * every macroblock of the map is counted (Tally).
     */
    method TallyAu(output: bool, missed: bool, curTime: u64)
      requires Valid() && currentMap != null
      modifies this, currentMap
      ensures Valid() && Sync() == old(Sync()) && Callbacks() == old(Callbacks()) && Parsing() == old(Parsing())
      ensures currentMap == old(currentMap) && refMap == old(refMap)
      ensures lastStatsOutputTimestamp == old(lastStatsOutputTimestamp) && outputIndex == old(outputIndex)
      ensures currentMap[..] == if missed then seq(currentMap.Length, _ => MB_MISSING) else old(currentMap[..])
      ensures StatusMap(currentMap[..], geometry.mbWidth, geometry.mbHeight)
      ensures stats == Tally(old(stats), currentMap[..], currentMap.Length, geometry.mbWidth, geometry.mbHeight, zoneCount, output, curTime)
    {
      if missed {
        Fill(currentMap, MB_MISSING);
        assert currentMap[..] == seq(currentMap.Length, _ => MB_MISSING);
      }
      stats := TallyMacroblocks(stats, currentMap, geometry.mbWidth, geometry.mbHeight, zoneCount, output, curTime);
    }

    /**
     * The second half of the statistics update of OutputAu: the frame
     * counters advance (FrameCounted), the statistics output time moves on
     * (StatsOutputTime) and, after a reference AU, the two maps are
     * exchanged.
     */
    method CountFrame(output: bool, discarded: bool, missed: bool, curTime: u64)
      requires Valid() && sync
      modifies this
      ensures Valid()
      ensures (Sync(), Callbacks(), Parsing(), outputIndex) == old((Sync(), Callbacks(), Parsing(), outputIndex))
      ensures stats == FrameCounted(old(stats), output, discarded, missed)
      ensures lastStatsOutputTimestamp == StatsOutputTime(old(lastStatsOutputTimestamp), curTime)
      ensures au.isRef ==> currentMap == old(refMap) && refMap == old(currentMap)
      ensures !au.isRef ==> currentMap == old(currentMap) && refMap == old(refMap)
    {
      stats := FrameCounted(stats, output, discarded, missed);
      lastStatsOutputTimestamp := StatsOutputTime(lastStatsOutputTimestamp, curTime);
      if au.isRef {
        currentMap, refMap := refMap, currentMap;
      }
    }

    /** The contents of a macroblock status map, if it exists. */
    ghost function MapContents(a: array?<int>): Option<seq<int>>
      reads a
    {
      if a == null then None else Some(a[..])
    }

    /**
     * The statistics update of OutputAu, once synchronised: the map of a
     * missed reference AU becomes MISSING and the map is counted (TallyAu);
     * the frame counters advance (FrameStats); the statistics output
     * time moves on (StatsOutputTime); and after a reference AU the two
     * maps are exchanged, so the current one becomes the reference.
     */
    method UpdateStats(output: bool, discarded: bool, curTime: u64)
      requires Valid() && sync
      modifies this, currentMap
      ensures Valid() && Sync() == old(Sync()) && Callbacks() == old(Callbacks()) && Parsing() == old(Parsing())
      ensures outputIndex == old(outputIndex)
      ensures stats == FrameStats(old(stats), old(MapContents(currentMap)), geometry.mbWidth, geometry.mbHeight, zoneCount,
                                  output, discarded, au.isRef, curTime)
      ensures old(currentMap) != null && (discarded || !output) && au.isRef ==>
                old(currentMap)[..] == seq(old(currentMap).Length, _ => MB_MISSING)
      ensures old(currentMap) != null && !((discarded || !output) && au.isRef) ==> old(currentMap)[..] == old(currentMap[..])
      ensures lastStatsOutputTimestamp == StatsOutputTime(old(lastStatsOutputTimestamp), curTime)
      ensures au.isRef ==> currentMap == old(refMap) && refMap == old(currentMap)
      ensures !au.isRef ==> currentMap == old(currentMap) && refMap == old(refMap)
    {
      var missed := (discarded || !output) && au.isRef;
      if currentMap != null {
        TallyAu(output, missed, curTime);
      }
      CountFrame(output, discarded, missed, curTime);
    }

    /**
     * The output decision of OutputAu: an AU that is incomplete while
     * incomplete AUs are not wanted is discarded, and nothing is output (0)
     * for it nor while the filter waits for sync and is not synchronised;
     * otherwise it is delivered (Deliver), a successful delivery advancing
     * the output index and a resync request making a gray I frame pending.
     */
    method DeliverAu(nalus: seq<AuNalu>, grant: AuBufferGrant, readyStatus: ArStream2Error.Error)
      returns (ret: int, discarded: bool, auSize: int)
      requires Valid() && (grant.buffer != null ==> grant.size <= grant.buffer.Length)
      modifies this, grant.buffer
      ensures Valid()
      ensures (Callbacks(), Parsing(), running, sync, geometry, spsSync, sps, ppsSync, pps, stats, lastStatsOutputTimestamp, currentMap, refMap) ==
              old((Callbacks(), Parsing(), running, sync, geometry, spsSync, sps, ppsSync, pps, stats, lastStatsOutputTimestamp, currentMap, refMap))
      ensures discarded == (!outputIncompleteAu && au.incomplete)
      ensures var cancelled := discarded || (waitForSync && !sync);
        var bufferOk := hasGetAuBufferCallback && grant.status == ArStream2Error.Ok && grant.buffer != null && grant.size > 0;
        var readyOk := !hasAuReadyCallback || readyStatus == ArStream2Error.Ok;
        ret == (if cancelled then 0 else if !bufferOk then -1 else if readyOk then 1 else 0) &&
        firstGrayIFramePending == (old(firstGrayIFramePending) ||
          (!cancelled && bufferOk && !readyOk && readyStatus == ArStream2Error.ErrorResyncRequired && generateFirstGrayIFrame)) &&
        outputIndex == old(outputIndex) + if ret == 1 then 1 else 0
      ensures ret == 1 ==>
        grant.buffer != null && 0 <= auSize <= grant.size &&
        grant.buffer[..auSize] == Assembled(nalus, grant.size, filterOutSpsPps, filterOutSei, replaceStartCodesWithNaluSize)
    {
      discarded := !outputIncompleteAu && au.incomplete;
      auSize := 0;
      if discarded || (waitForSync && !sync) {
        ret := 0;
      } else {
        var resync;
        ret, resync, auSize := Deliver(nalus, grant, readyStatus);
        firstGrayIFramePending, outputIndex := firstGrayIFramePending || resync, outputIndex + if ret == 1 then 1 else 0;
      }
    }

    /** The sync type of a finished AU (OutputSyncType). */
    method SettleSyncType()
      requires Valid()
      modifies this
      ensures Valid()
      ensures au == old(au).(syncType := OutputSyncType(old(au.syncType), old(au.slicesAllI), old(au.streamingInfoAvailable),
                                                        old(au.streamingInfo.indexInGop)))
      ensures (Callbacks(), sliceMbCount, inferredSliceMbCount, previousAuFrameNum, previousSliceType, Sync(), Output(),
               currentMap, refMap) ==
              old((Callbacks(), sliceMbCount, inferredSliceMbCount, previousAuFrameNum, previousSliceType, Sync(), Output(),
                   currentMap, refMap))
    {
      au := au.(syncType := OutputSyncType(au.syncType, au.slicesAllI, au.streamingInfoAvailable, au.streamingInfo.indexInGop));
    }

    /**
     * The first part of ARSTREAM2_H264Filter_OutputAu: the AU's sync type
     * is settled (SettleSyncType), then the AU is output or not (DeliverAu).
     */
    method EmitAu(nalus: seq<AuNalu>, grant: AuBufferGrant, readyStatus: ArStream2Error.Error)
      returns (ret: int, discarded: bool, auSize: int)
      requires Valid() && (grant.buffer != null ==> grant.size <= grant.buffer.Length)
      modifies this, grant.buffer
      ensures Valid()
      ensures (Callbacks(), sliceMbCount, inferredSliceMbCount, previousAuFrameNum, previousSliceType, running, sync, geometry, spsSync, sps, ppsSync, pps, stats, lastStatsOutputTimestamp, currentMap, refMap) ==
              old((Callbacks(), sliceMbCount, inferredSliceMbCount, previousAuFrameNum, previousSliceType, running, sync, geometry, spsSync, sps, ppsSync, pps, stats, lastStatsOutputTimestamp, currentMap, refMap))
      ensures au == old(au).(syncType := OutputSyncType(old(au.syncType), old(au.slicesAllI), old(au.streamingInfoAvailable),
                                                        old(au.streamingInfo.indexInGop)))
      ensures discarded == (!outputIncompleteAu && au.incomplete)
      ensures var cancelled := discarded || (waitForSync && !sync);
        var bufferOk := hasGetAuBufferCallback && grant.status == ArStream2Error.Ok && grant.buffer != null && grant.size > 0;
        var readyOk := !hasAuReadyCallback || readyStatus == ArStream2Error.Ok;
        ret == (if cancelled then 0 else if !bufferOk then -1 else if readyOk then 1 else 0) &&
        firstGrayIFramePending == (old(firstGrayIFramePending) ||
          (!cancelled && bufferOk && !readyOk && readyStatus == ArStream2Error.ErrorResyncRequired && generateFirstGrayIFrame)) &&
        outputIndex == old(outputIndex) + if ret == 1 then 1 else 0
      ensures ret == 1 ==>
        grant.buffer != null && 0 <= auSize <= grant.size &&
        grant.buffer[..auSize] == Assembled(nalus, grant.size, filterOutSpsPps, filterOutSei, replaceStartCodesWithNaluSize)
    {
      SettleSyncType();
      ret, discarded, auSize := DeliverAu(nalus, grant, readyStatus);
    }

    /**
     * ARSTREAM2_H264Filter_OutputAu: the AU is emitted (EmitAu), an output
     * AU is pushed to the stream recorder when there is one (the AU stays
     * locked when the push succeeds), and, once synchronised, the
     * statistics are updated (UpdateStats). curTime is the clock reading.
     */
    method OutputAu(nalus: seq<AuNalu>, grant: AuBufferGrant, readyStatus: ArStream2Error.Error,
                    recorderPush: Option<bool>, curTime: u64) returns (ret: int, auLocked: bool, auSize: int)
      requires Valid() && (grant.buffer != null ==> grant.size <= grant.buffer.Length)
      modifies this, currentMap, grant.buffer
      ensures Valid()
      ensures (Callbacks(), sliceMbCount, inferredSliceMbCount, previousAuFrameNum, previousSliceType,
               running, sync, geometry, spsSync, sps, ppsSync, pps) ==
              old((Callbacks(), sliceMbCount, inferredSliceMbCount, previousAuFrameNum, previousSliceType,
                   running, sync, geometry, spsSync, sps, ppsSync, pps))
      ensures au == old(au).(syncType := OutputSyncType(old(au.syncType), old(au.slicesAllI), old(au.streamingInfoAvailable),
                                                        old(au.streamingInfo.indexInGop)))
      ensures var discarded := !outputIncompleteAu && old(au.incomplete);
        var cancelled := discarded || (waitForSync && !sync);
        var bufferOk := old(hasGetAuBufferCallback) && grant.status == ArStream2Error.Ok && grant.buffer != null && grant.size > 0;
        var readyOk := !old(hasAuReadyCallback) || readyStatus == ArStream2Error.Ok;
        ret == (if cancelled then 0 else if !bufferOk then -1 else if readyOk then 1 else 0) &&
        firstGrayIFramePending == (old(firstGrayIFramePending) ||
          (!cancelled && bufferOk && !readyOk && readyStatus == ArStream2Error.ErrorResyncRequired && generateFirstGrayIFrame)) &&
        outputIndex == old(outputIndex) + (if ret == 1 then 1 else 0) &&
        auLocked == (ret == 1 && recorderPush == Some(true))
      ensures ret == 1 ==>
        grant.buffer != null && 0 <= auSize <= grant.size &&
        grant.buffer[..auSize] == Assembled(nalus, grant.size, filterOutSpsPps, filterOutSei, replaceStartCodesWithNaluSize)
      ensures !sync ==> (stats, lastStatsOutputTimestamp, currentMap, refMap) ==
                        old((stats, lastStatsOutputTimestamp, currentMap, refMap))
      ensures sync ==>
        stats == FrameStats(old(stats), old(MapContents(currentMap)), geometry.mbWidth, geometry.mbHeight, zoneCount,
                            ret == 1, !outputIncompleteAu && old(au.incomplete), au.isRef, curTime) &&
        lastStatsOutputTimestamp == StatsOutputTime(old(lastStatsOutputTimestamp), curTime) &&
        (au.isRef ==> currentMap == old(refMap) && refMap == old(currentMap)) &&
        (!au.isRef ==> currentMap == old(currentMap) && refMap == old(refMap))
    {
      var discarded;
      ret, discarded, auSize := EmitAu(nalus, grant, readyStatus);
      auLocked := ret == 1 && recorderPush == Some(true);
      if sync {
        UpdateStats(ret == 1, discarded, curTime);
      }
    }

    /**
     * ARSTREAM2_H264Filter_GetSpsPps: BAD_PARAMETERS when a size pointer is
     * NULL, WAITING_FOR_SYNC before synchronisation. Otherwise each size is
     * set to the stored parameter set's size, and the set is copied only
     * into a non-NULL buffer whose given size is large enough.
     */
    method GetSpsPps(spsBuffer: bool, spsSize: Option<int>, ppsBuffer: bool, ppsSize: Option<int>)
      returns (ret: ArStream2Error.Error, spsOut: Option<seq<byte>>, spsSizeOut: Option<int>,
               ppsOut: Option<seq<byte>>, ppsSizeOut: Option<int>)
      requires Valid()
      ensures spsSize == None || ppsSize == None ==>
        ret == ArStream2Error.ErrorBadParameters && spsOut == None && ppsOut == None &&
        spsSizeOut == spsSize && ppsSizeOut == ppsSize
      ensures spsSize != None && ppsSize != None && !sync ==>
        ret == ArStream2Error.ErrorWaitingForSync && spsOut == None && ppsOut == None &&
        spsSizeOut == spsSize && ppsSizeOut == ppsSize
      ensures spsSize != None && ppsSize != None && sync ==>
        ret == ArStream2Error.Ok && spsSizeOut == Some(|sps|) && ppsSizeOut == Some(|pps|) &&
        spsOut == (if spsBuffer && spsSize.value >= |sps| then Some(sps) else None) &&
        ppsOut == (if ppsBuffer && ppsSize.value >= |pps| then Some(pps) else None)
    {
      spsOut, spsSizeOut, ppsOut, ppsSizeOut := None, spsSize, None, ppsSize;
      if spsSize.None? || ppsSize.None? {
        return ArStream2Error.ErrorBadParameters, spsOut, spsSizeOut, ppsOut, ppsSizeOut;
      }
      ret := ArStream2Error.Ok;
      if !sync {
        ret := ArStream2Error.ErrorWaitingForSync;
      }
      if ret == ArStream2Error.Ok {
        if spsBuffer && spsSize.value >= |sps| {
          spsOut := Some(sps);
        }
        spsSizeOut := Some(|sps|);
        if ppsBuffer && ppsSize.value >= |pps| {
          ppsOut := Some(pps);
        }
        ppsSizeOut := Some(|pps|);
      }
    }
  }

  /**
   * A running filter that receives an SPS and a PPS while the parser
   * cannot give an SPS context synchronises anyway, with the geometry of
   * a new filter: maxFrameNum stays 0 while the previous frame_num is 0,
   * not -1. The first reference slice after that reaches the frame_num
   * test of ARSTREAM2_H264Filter_ParseNalu, whose modulus is then 0;
   * HandleSlice skips the test in that case.
   */
  method FailedSyncLeavesZeroModulus(nalu: NalUnit, auIn: AccessUnit, spsBytes: seq<byte>, ppsBytes: seq<byte>)
    returns (f: Filter)
    requires |spsBytes| > 4 && |ppsBytes| > 4
    ensures f.Valid() && f.sync && f.geometry.maxFrameNum == 0 && f.previousAuFrameNum == 0 && f.currentMap == null
  {
    f := new Filter(false, true, false, false, false, false, false, 1, 1);
    var started := f.Start(false, true, true);
    var spsOutcome := ParseOutcome(true, true, NaluTypeSps, None, [], true);
    var ret, n, a, u, rep := f.ParseNalu(nalu, spsBytes, auIn, spsOutcome, None, true);
    var ppsOutcome := ParseOutcome(true, true, NaluTypePps, None, [], true);
    ret, n, a, u, rep := f.ParseNalu(nalu, ppsBytes, auIn, ppsOutcome, None, true);
  }
}
