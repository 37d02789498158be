/*
 * The pure rules inside the H.264 filter's procedures
 * (src/arstream2_h264_filter.c, src/arstream2_h264_filter_error.c): the
 * picture geometry taken from the SPS, the frame_num gap test, the sync
 * type of an output access unit, the bytes the output copy loop produces,
 * the walk along the slice table of the streaming SEI, the clipping of a
 * macroblock range, and the per-macroblock statistics.
 *
 * The macroblock statuses are those of eARSTREAM2_STREAM_RECEIVER_MACROBLOCK_STATUS
 * (Includes/libARStream2/arstream2_stream_receiver.h); the number of
 * statistics classes is taken to be the number of statuses, and the number
 * of zones is a parameter, because the header defining both is not part of
 * this model.
 */
module H264FilterRules {
  import opened CInt
  import opened H264

  const MB_UNKNOWN := 0
  const MB_VALID_ISLICE := 1
  const MB_VALID_PSLICE := 2
  const MB_MISSING_CONCEALED := 3
  const MB_MISSING := 4
  const MB_ERROR_PROPAGATION := 5
  const MB_STATUS_CLASS_COUNT := 6

  /** A value a macroblock status map may hold. */
  predicate IsStatus(v: int) {
    0 <= v < MB_STATUS_CLASS_COUNT
  }

  /** A macroblock counted as received: VALID_ISLICE or VALID_PSLICE. */
  predicate IsValidStatus(v: int) {
    v == MB_VALID_ISLICE || v == MB_VALID_PSLICE
  }

  /** eARSTREAM2_H264_FILTER_AU_SYNC_TYPE. */
  datatype AuSyncType = SyncNone | SyncIdr | SyncIFrame | SyncPirStart

  /*
   * Geometry (section 7.4.2.1.1 of ITU-T H.264) and the frame_num gap
   * (section 7.4.3 of ITU-T H.264).
   */

  /** The SPS fields the filter reads from the parser's SPS context. */
  datatype SpsContext = SpsContext(
    picWidthInMbsMinus1: nat, picHeightInMapUnitsMinus1: nat,
    frameMbsOnlyFlag: bool, log2MaxFrameNumMinus4: nat)

  datatype Geometry = Geometry(mbWidth: int, mbHeight: int, mbCount: int, maxFrameNum: int)

  /**
   * PicWidthInMbs, FrameHeightInMbs = (2 - frame_mbs_only_flag) * PicHeightInMapUnits,
   * their product, and MaxFrameNum = 2^(log2_max_frame_num_minus4 + 4).
   */
  function SyncGeometry(sps: SpsContext): (g: Geometry)
    ensures g.mbWidth == sps.picWidthInMbsMinus1 + 1
    ensures g.mbHeight == (2 - (if sps.frameMbsOnlyFlag then 1 else 0)) * (sps.picHeightInMapUnitsMinus1 + 1)
    ensures g.mbCount == g.mbWidth * g.mbHeight && g.mbWidth >= 1 && g.mbHeight >= 1 && g.mbCount >= 1
    ensures g.maxFrameNum >= 16 && g.maxFrameNum % 16 == 0
  {
    var w := sps.picWidthInMbsMinus1 + 1;
    var h := (sps.picHeightInMapUnitsMinus1 + 1) * (if sps.frameMbsOnlyFlag then 1 else 2);
    Power2Multiple(sps.log2MaxFrameNumMinus4);
    Geometry(w, h, w * h, Power2(sps.log2MaxFrameNumMinus4 + 4))
  }

  lemma {:induction false} Power2Multiple(n: nat)
    ensures Power2(n + 4) >= 16 && Power2(n + 4) % 16 == 0
  {
    if n == 0 {
      assert Power2(4) == 16;
    } else {
      Power2Multiple(n - 1);
      assert Power2(n + 4) == 2 * Power2(n + 3);
    }
  }

  /**
   * The frame_num test of ParseNalu: a reference AU whose previous
   * reference frame_num is known and whose frame_num is not its successor
   * modulo MaxFrameNum follows missing frames.
   */
  predicate FrameGap(isRef: bool, previousFrameNum: int, frameNum: int, maxFrameNum: int)
    requires maxFrameNum > 0 && previousFrameNum >= -1
  {
    isRef && previousFrameNum != -1 && frameNum != (previousFrameNum + 1) % maxFrameNum
  }

  /** The successor of the last frame_num is 0: no gap across the wrap, a gap for any other value. */
  lemma FrameGapWraps(previousFrameNum: int, frameNum: int, maxFrameNum: int)
    requires maxFrameNum > 0 && previousFrameNum == maxFrameNum - 1 && 0 <= frameNum < maxFrameNum
    ensures FrameGap(true, previousFrameNum, frameNum, maxFrameNum) <==> frameNum != 0
  {
  }

  /*
   * Sync type of an output access unit.
   */

  /** OutputAu's classification: IDR stays IDR, else all-I slices give IFRAME, else a GOP start gives PIR_START. */
  function OutputSyncType(t: AuSyncType, slicesAllI: bool, streamingInfoAvailable: bool, indexInGop: int): (r: AuSyncType)
    ensures t == SyncIdr ==> r == SyncIdr
    ensures t != SyncIdr && slicesAllI ==> r == SyncIFrame
    ensures t != SyncIdr && !slicesAllI && streamingInfoAvailable && indexInGop == 0 ==> r == SyncPirStart
    ensures t != SyncIdr && !slicesAllI && !(streamingInfoAvailable && indexInGop == 0) ==> r == t
  {
    if t != SyncIdr then
      if slicesAllI then SyncIFrame
      else if streamingInfoAvailable && indexInGop == 0 then SyncPirStart
      else t
    else t
  }

  /** Classifying twice changes nothing. */
  lemma OutputSyncTypeIdempotent(t: AuSyncType, slicesAllI: bool, streamingInfoAvailable: bool, indexInGop: int)
    ensures var r := OutputSyncType(t, slicesAllI, streamingInfoAvailable, indexInGop);
      OutputSyncType(r, slicesAllI, streamingInfoAvailable, indexInGop) == r
  {
  }

  /*
   * The output copy loop.
   */

  /** The bytes of a NALU: its size is an unsigned 32-bit value. */
  type NaluBytes = b: seq<byte> | |b| < TWO_32

  /** A NALU of the access unit's list, as the copy loop sees it: its type and its bytes (start code included). */
  datatype AuNalu = AuNalu(naluType: NaluType, bytes: NaluBytes)

  /** The NALUs the filter options drop from the output. */
  predicate FilteredOut(n: AuNalu, filterOutSpsPps: bool, filterOutSei: bool) {
    (filterOutSpsPps && (n.naluType == NaluTypeSps || n.naluType == NaluTypePps)) ||
    (filterOutSei && n.naluType == NaluTypeSei)
  }

  /** A NALU as copied: with the option on and at least 4 bytes, the start code becomes the big-endian size of the rest. */
  function Framed(bytes: NaluBytes, replace: bool): (r: seq<byte>)
    ensures |r| == |bytes|
    ensures replace && |bytes| >= 4 ==> r[4..] == bytes[4..] && FromBE(r[..4]) == |bytes| - 4
    ensures !(replace && |bytes| >= 4) ==> r == bytes
  {
    if replace && |bytes| >= 4 then BE32(|bytes| - 4) + bytes[4..] else bytes
  }

  /**
   * The bytes the copy loop leaves at the start of an output buffer of
   * `cap` bytes: NALU by NALU, a NALU that is not filtered out is appended
   * when it fits in what is left, and skipped otherwise.
   */
  function Assembled(nalus: seq<AuNalu>, cap: int, filterOutSpsPps: bool, filterOutSei: bool, replace: bool): (r: seq<byte>)
    requires cap >= 0
    ensures |r| <= cap
    decreases |nalus|
  {
    if nalus == [] then []
    else
      var acc := Assembled(nalus[..|nalus| - 1], cap, filterOutSpsPps, filterOutSei, replace);
      var n := nalus[|nalus| - 1];
      if FilteredOut(n, filterOutSpsPps, filterOutSei) || |acc| + |n.bytes| > cap then acc
      else acc + Framed(n.bytes, replace)
  }

  /** The NALUs that survive the filter options, in order. */
  function Kept(nalus: seq<AuNalu>, filterOutSpsPps: bool, filterOutSei: bool): (r: seq<AuNalu>)
    ensures |r| <= |nalus|
    ensures forall i :: 0 <= i < |r| ==> r[i] in nalus && !FilteredOut(r[i], filterOutSpsPps, filterOutSei)
  {
    if nalus == [] then []
    else
      var rest := Kept(nalus[..|nalus| - 1], filterOutSpsPps, filterOutSei);
      var n := nalus[|nalus| - 1];
      if FilteredOut(n, filterOutSpsPps, filterOutSei) then rest else rest + [n]
  }

  /** The framed bytes of a NALU list, one after the other. */
  function Joined(nalus: seq<AuNalu>, replace: bool): seq<byte>
  {
    if nalus == [] then [] else Joined(nalus[..|nalus| - 1], replace) + Framed(nalus[|nalus| - 1].bytes, replace)
  }

  /**
   * When every NALU that is kept fits, the output is exactly the kept NALUs,
   * framed, in their order.
   */
  lemma {:induction false} AssembledWhenAllFit(nalus: seq<AuNalu>, cap: int, filterOutSpsPps: bool, filterOutSei: bool, replace: bool)
    requires cap >= 0
    requires |Joined(Kept(nalus, filterOutSpsPps, filterOutSei), replace)| <= cap
    ensures Assembled(nalus, cap, filterOutSpsPps, filterOutSei, replace) == Joined(Kept(nalus, filterOutSpsPps, filterOutSei), replace)
    decreases |nalus|
  {
    if nalus != [] {
      var init := nalus[..|nalus| - 1];
      var n := nalus[|nalus| - 1];
      var k := Kept(init, filterOutSpsPps, filterOutSei);
      if FilteredOut(n, filterOutSpsPps, filterOutSei) {
        AssembledWhenAllFit(init, cap, filterOutSpsPps, filterOutSei, replace);
      } else {
        assert Kept(nalus, filterOutSpsPps, filterOutSei) == k + [n];
        assert (k + [n])[..|k|] == k;
        assert |Joined(k, replace)| + |n.bytes| <= cap;
        AssembledWhenAllFit(init, cap, filterOutSpsPps, filterOutSei, replace);
      }
    }
  }

  /**
   * Reading an output back by its 4-byte big-endian size prefixes (the
   * length-prefixed form the size option produces).
   */
  function SplitSizePrefixed(b: seq<byte>): seq<seq<byte>>
    decreases |b|
  {
    if |b| < 4 then []
    else
      var n := FromBE(b[..4]);
      if 0 <= n && 4 + n <= |b| then [b[4..4 + n]] + SplitSizePrefixed(b[4 + n..]) else []
  }

  /** The payloads of a NALU list: each NALU without its 4-byte start code. */
  function Payloads(nalus: seq<AuNalu>): seq<seq<byte>>
    requires forall i :: 0 <= i < |nalus| ==> |nalus[i].bytes| >= 4
  {
    if nalus == [] then [] else [nalus[0].bytes[4..]] + Payloads(nalus[1..])
  }

  lemma {:induction false} JoinedCons(n: AuNalu, rest: seq<AuNalu>, replace: bool)
    ensures Joined([n] + rest, replace) == Framed(n.bytes, replace) + Joined(rest, replace)
    decreases |rest|
  {
    if rest != [] {
      var init := rest[..|rest| - 1];
      assert ([n] + rest)[..|rest|] == [n] + init;
      assert ([n] + rest)[|rest|] == rest[|rest| - 1];
      JoinedCons(n, init, replace);
    }
  }

  /**
   * Round trip of the size option: when every NALU has a 4-byte start code,
   * the joined output reads back, prefix by prefix, as the NALU payloads.
   */
  lemma {:induction false} SizePrefixedRoundTrip(nalus: seq<AuNalu>)
    requires forall i :: 0 <= i < |nalus| ==> |nalus[i].bytes| >= 4
    ensures SplitSizePrefixed(Joined(nalus, true)) == Payloads(nalus)
    decreases |nalus|
  {
    if nalus != [] {
      var n := nalus[0];
      var rest := nalus[1..];
      assert nalus == [n] + rest;
      JoinedCons(n, rest, true);
      var f := Framed(n.bytes, true);
      var b := f + Joined(rest, true);
      assert b[..4] == f[..4];
      assert FromBE(b[..4]) == |n.bytes| - 4;
      assert b[4..4 + (|n.bytes| - 4)] == n.bytes[4..];
      assert b[4 + (|n.bytes| - 4)..] == Joined(rest, true);
      SizePrefixedRoundTrip(rest);
    }
  }

  /*
   * Walking the slice table of the streaming SEI, and clipping a range.
   */

  /** The sum of the slice sizes table[lo..hi]. */
  function SliceSum(table: seq<int>, lo: int, hi: int): int
    requires 0 <= lo <= hi <= |table|
    decreases hi - lo
  {
    if lo == hi then 0 else SliceSum(table, lo, hi - 1) + table[hi - 1]
  }

  /**
   * The walk of ProcessNalu: from slice `index` starting at `firstMb`, it
   * moves to the next slice while slices remain and the slice start is below
   * `target`; it returns the slice index reached and that slice's start.
   */
  function SliceWalk(table: seq<int>, sliceCount: int, index: int, firstMb: int, target: int): (r: (int, int))
    requires 0 <= index && sliceCount <= |table|
    ensures index <= r.0 && (index <= sliceCount ==> r.0 <= sliceCount)
    ensures r.0 >= sliceCount || r.1 >= target
    ensures index <= r.0 <= |table| ==> r.1 == firstMb + SliceSum(table, index, r.0)
    decreases sliceCount - index
  {
    if index < sliceCount && firstMb < target then
      var r := SliceWalk(table, sliceCount, index + 1, firstMb + table[index], target);
      SliceSumCons(table, index, r.0);
      r
    else (index, firstMb)
  }

  lemma {:induction false} SliceSumCons(table: seq<int>, lo: int, hi: int)
    requires 0 <= lo < hi <= |table|
    ensures SliceSum(table, lo, hi) == table[lo] + SliceSum(table, lo + 1, hi)
    decreases hi - lo
  {
    if hi > lo + 1 {
      SliceSumCons(table, lo, hi - 1);
    }
  }

  /**
   * As written, ProcessNalu then reads the slice size at the index reached.
   * When the SEI describes a full table and the current slice starts beyond
   * all of it, that index is the table length: the read is past the table.
   */
  lemma SliceWalkReachesTableEnd(table: seq<int>, target: int)
    requires |table| > 0 && forall i :: 0 <= i < |table| ==> table[i] >= 0
    requires target > SliceSum(table, 0, |table|)
    ensures SliceWalk(table, |table|, 0, 0, target).0 == |table|
  {
    var r := SliceWalk(table, |table|, 0, 0, target);
    if r.0 < |table| {
      SliceSumMonotone(table, r.0, |table|);
      assert false;
    }
  }

  lemma {:induction false} SliceSumMonotone(table: seq<int>, mid: int, hi: int)
    requires 0 <= mid <= hi <= |table| && forall i :: 0 <= i < |table| ==> table[i] >= 0
    ensures SliceSum(table, 0, mid) <= SliceSum(table, 0, hi)
    decreases hi - mid
  {
    if mid < hi {
      SliceSumMonotone(table, mid, hi - 1);
    }
  }

  /**
   * The size of slice `index` as the filter reads it: the SEI's value for a
   * slice it describes, 0 (nothing known) past the described slices.
   */
  function SliceMbCountAt(table: seq<int>, sliceCount: int, index: int): (r: int)
    requires sliceCount <= |table|
    ensures 0 <= index < sliceCount ==> r == table[index]
    ensures !(0 <= index < sliceCount) ==> r == 0
  {
    if 0 <= index < sliceCount then table[index] else 0
  }

  /** The clip in front of each status-map memset, as written: an overflowing count becomes mbCount - first. */
  function ClipAsWritten(first: int, count: int, mbCount: int): int {
    if first + count > mbCount then mbCount - first else count
  }

  /** As written, a range starting past the map gets a negative count, which memset takes as a huge size. */
  lemma ClipAsWrittenGoesNegative(mbCount: int)
    requires mbCount >= 0
    ensures ClipAsWritten(mbCount + 1, 1, mbCount) < 0
  {
  }

  /** The clip as intended: the part of [first, first + count) inside the map, empty when none is. */
  function Clip(first: int, count: int, mbCount: int): (r: int)
    requires 0 <= first && 0 <= mbCount
    ensures 0 <= r && (first < mbCount ==> first + r <= mbCount) && (first >= mbCount ==> r == 0)
    ensures r <= count || count < 0
    ensures first + count <= mbCount && count >= 0 ==> r == count
  {
    if count <= 0 then 0
    else if first + count > mbCount then (if first < mbCount then mbCount - first else 0)
    else count
  }

  /**
   * The status ProcessNalu gives a macroblock of a received slice: an I
   * slice is valid on its own; a P slice is valid only where the reference
   * map is valid, and otherwise propagates an error.
   */
  function SliceMbStatus(isI: bool, reference: int): (r: int)
    ensures IsStatus(r)
    ensures r == MB_VALID_ISLICE <==> isI
    ensures r == MB_VALID_PSLICE <==> !isI && IsValidStatus(reference)
    ensures r == MB_ERROR_PROPAGATION <==> !isI && !IsValidStatus(reference)
  {
    if isI then MB_VALID_ISLICE
    else if !IsValidStatus(reference) then MB_ERROR_PROPAGATION
    else MB_VALID_PSLICE
  }

  /** The current map after a slice covering [first, first + n) was received. */
  function MarkedSlice(m: seq<int>, reference: seq<int>, first: int, n: int, isI: bool): (r: seq<int>)
    requires |reference| == |m| && 0 <= n && (n > 0 ==> 0 <= first && first + n <= |m|)
    ensures |r| == |m|
    ensures forall k :: 0 <= k < |m| && !(first <= k < first + n) ==> r[k] == m[k]
    ensures forall k :: first <= k < first + n ==> r[k] == SliceMbStatus(isI, reference[k])
  {
    seq(|m|, k requires 0 <= k < |m| => if first <= k < first + n then SliceMbStatus(isI, reference[k]) else m[k])
  }

  /** A map of statuses stays a map of statuses, and the same slice received twice marks the same way. */
  lemma MarkedSliceStatuses(m: seq<int>, reference: seq<int>, first: int, n: int, isI: bool)
    requires |reference| == |m| && 0 <= n && (n > 0 ==> 0 <= first && first + n <= |m|)
    requires forall k :: 0 <= k < |m| ==> IsStatus(m[k])
    ensures var r := MarkedSlice(m, reference, first, n, isI);
      (forall k :: 0 <= k < |r| ==> IsStatus(r[k])) && MarkedSlice(r, reference, first, n, isI) == r
  {
  }

  /*
   * Statistics: the macroblock status histogram per zone and the error
   * seconds, taken macroblock by macroblock at the end of OutputAu.
   */

  /** One second, in microseconds: the length of an error second. */
  const ONE_SECOND := 1000000

  /** The H.264-level counters of the filter, as unsigned 32-bit and 64-bit values. */
  datatype VideoStats = VideoStats(
    totalFrameCount: u32, outputFrameCount: u32, discardedFrameCount: u32, missedFrameCount: u32,
    errorSecondCount: u32, errorSecondStartTime: u64,
    errorSecondCountByZone: seq<u32>, errorSecondStartTimeByZone: seq<u64>,
    macroblockStatus: seq<seq<u32>>)

  /** Per-zone arrays of zoneCount entries; one histogram row per status. */
  predicate StatsShaped(st: VideoStats, zoneCount: int) {
    |st.errorSecondCountByZone| == zoneCount && |st.errorSecondStartTimeByZone| == zoneCount &&
    |st.macroblockStatus| == MB_STATUS_CLASS_COUNT &&
    forall c :: 0 <= c < MB_STATUS_CLASS_COUNT ==> |st.macroblockStatus[c]| == zoneCount
  }

  /** The zeroed statistics of a new filter. */
  function ZeroStats(zoneCount: nat): (st: VideoStats)
    ensures StatsShaped(st, zoneCount)
    ensures st.totalFrameCount == 0 && st.errorSecondCount == 0
    ensures forall c, z :: 0 <= c < MB_STATUS_CLASS_COUNT && 0 <= z < zoneCount ==> st.macroblockStatus[c][z] == 0
  {
    var row := seq(zoneCount, _ => 0);
    VideoStats(0, 0, 0, 0, 0, 0, row, seq(zoneCount, _ => 0), seq(MB_STATUS_CLASS_COUNT, _ => row))
  }

  /** The zone of macroblock k in raster order: its row scaled to zoneCount horizontal bands. */
  function Zone(k: int, mbWidth: int, mbHeight: int, zoneCount: int): (z: int)
    requires mbWidth >= 1 && mbHeight >= 1 && zoneCount >= 1 && 0 <= k < mbWidth * mbHeight
    ensures 0 <= z < zoneCount
  {
    RowBelowHeight(k, mbWidth, mbHeight);
    BandBelowCount(k / mbWidth, mbHeight, zoneCount);
    (k / mbWidth) * zoneCount / mbHeight
  }

  lemma RowBelowHeight(k: int, w: int, h: int)
    requires w >= 1 && h >= 1 && 0 <= k < w * h
    ensures 0 <= k / w < h
  {
    if k / w >= h {
      MulMonotone(h, k / w, w);
      assert false;
    }
  }

  lemma BandBelowCount(j: int, h: int, zc: int)
    requires 0 <= j < h && zc >= 1
    ensures 0 <= j * zc / h < zc
  {
    MulMonotone(j, h - 1, zc);
    MulMonotone(0, j, zc);
    if j * zc / h >= zc {
      MulMonotone(zc, j * zc / h, h);
      assert false;
    }
  }

  lemma MulMonotone(a: int, b: int, c: int)
    requires a <= b && c >= 0
    ensures a * c <= b * c
  {
  }

  /** The macroblock at row j, column i of the nested loop is number j * mbWidth + i, in row j. */
  lemma RowOfIndex(j: int, i: int, mbWidth: int)
    requires mbWidth >= 1 && 0 <= i < mbWidth && j >= 0
    ensures (j * mbWidth + i) / mbWidth == j
  {
    var k := j * mbWidth + i;
    var q := k / mbWidth;
    var r := k % mbWidth;
    assert (q - j) * mbWidth == i - r;
    if q > j {
      MulMonotone(1, q - j, mbWidth);
      assert false;
    }
    if q < j {
      MulMonotone(1, j - q, mbWidth);
      assert false;
    }
  }

  /** The error-second test: a new error second starts when more than one second has passed since the last one began. */
  function Tick(start: u64, count: u32, curTime: u64): (r: (u64, u32))
    ensures r == (start, count) || r == (curTime, U32(count as int + 1))
  {
    if curTime > U64(start + ONE_SECOND) then (curTime, U32(count as int + 1)) else (start, count)
  }

  /** The update for one macroblock: its histogram cell, then, for an output AU and a macroblock not received, the error seconds. */
  function MbStep(st: VideoStats, status: int, zone: int, output: bool, curTime: u64, zoneCount: int): (r: VideoStats)
    requires StatsShaped(st, zoneCount) && IsStatus(status) && 0 <= zone < zoneCount
    ensures StatsShaped(r, zoneCount)
    ensures r.totalFrameCount == st.totalFrameCount && r.outputFrameCount == st.outputFrameCount
    ensures r.discardedFrameCount == st.discardedFrameCount && r.missedFrameCount == st.missedFrameCount
  {
    var row: seq<u32> := st.macroblockStatus[status];
    var counted := st.(macroblockStatus := st.macroblockStatus[status := row[zone := U32(row[zone] as int + 1)]]);
    if output && !IsValidStatus(status) then
      var g := Tick(st.errorSecondStartTime, st.errorSecondCount, curTime);
      var z := Tick(st.errorSecondStartTimeByZone[zone], st.errorSecondCountByZone[zone], curTime);
      counted.(errorSecondStartTime := g.0, errorSecondCount := g.1,
               errorSecondStartTimeByZone := st.errorSecondStartTimeByZone[zone := z.0],
               errorSecondCountByZone := st.errorSecondCountByZone[zone := z.1])
    else counted
  }

  /** One macroblock adds one to its own histogram cell and leaves the others. */
  lemma MbStepCell(st: VideoStats, status: int, zone: int, output: bool, curTime: u64, zoneCount: int, c: int, z: int)
    requires StatsShaped(st, zoneCount) && IsStatus(status) && 0 <= zone < zoneCount
    requires 0 <= c < MB_STATUS_CLASS_COUNT && 0 <= z < zoneCount
    ensures MbStep(st, status, zone, output, curTime, zoneCount).macroblockStatus[c][z] ==
      if c == status && z == zone then U32(st.macroblockStatus[c][z] as int + 1) else st.macroblockStatus[c][z]
  {
  }

  /** One macroblock moves the error seconds only for an output AU and a macroblock not received. */
  lemma MbStepTick(st: VideoStats, status: int, zone: int, output: bool, curTime: u64, zoneCount: int, z: int)
    requires StatsShaped(st, zoneCount) && IsStatus(status) && 0 <= zone < zoneCount && 0 <= z < zoneCount
    ensures var r := MbStep(st, status, zone, output, curTime, zoneCount);
      var hit := output && !IsValidStatus(status);
      (r.errorSecondStartTime, r.errorSecondCount) ==
        (if hit then Tick(st.errorSecondStartTime, st.errorSecondCount, curTime) else (st.errorSecondStartTime, st.errorSecondCount)) &&
      (r.errorSecondStartTimeByZone[z], r.errorSecondCountByZone[z]) ==
        (if hit && z == zone then Tick(st.errorSecondStartTimeByZone[z], st.errorSecondCountByZone[z], curTime)
         else (st.errorSecondStartTimeByZone[z], st.errorSecondCountByZone[z]))
  {
  }

  /** A status map: mbCount = mbWidth * mbHeight statuses. */
  predicate StatusMap(m: seq<int>, mbWidth: int, mbHeight: int) {
    mbWidth >= 1 && mbHeight >= 1 && |m| == mbWidth * mbHeight && forall k :: 0 <= k < |m| ==> IsStatus(m[k])
  }

  /** The statistics after the first n macroblocks of the map, in raster order. */
  function Tally(st: VideoStats, m: seq<int>, n: int, mbWidth: int, mbHeight: int, zoneCount: int, output: bool, curTime: u64): (r: VideoStats)
    requires StatsShaped(st, zoneCount) && zoneCount >= 1 && StatusMap(m, mbWidth, mbHeight) && 0 <= n <= |m|
    ensures StatsShaped(r, zoneCount)
    ensures r.totalFrameCount == st.totalFrameCount && r.outputFrameCount == st.outputFrameCount
    ensures r.discardedFrameCount == st.discardedFrameCount && r.missedFrameCount == st.missedFrameCount
    decreases n
  {
    if n == 0 then st
    else MbStep(Tally(st, m, n - 1, mbWidth, mbHeight, zoneCount, output, curTime),
                m[n - 1], Zone(n - 1, mbWidth, mbHeight, zoneCount), output, curTime, zoneCount)
  }

  /**
   * Counting macroblock i of row j (number rowStart + i, rowStart being
   * j * mbWidth) is one MbStep in the row's zone j * zoneCount / mbHeight.
   */
  lemma RowStep(st: VideoStats, m: seq<int>, j: int, i: int, rowStart: int, mbWidth: int, mbHeight: int, zoneCount: int,
                output: bool, curTime: u64, zone: int)
    requires StatsShaped(st, zoneCount) && zoneCount >= 1 && StatusMap(m, mbWidth, mbHeight)
    requires 0 <= j < mbHeight && 0 <= i < mbWidth && rowStart == j * mbWidth && zone == j * zoneCount / mbHeight
    ensures 0 <= rowStart + i < |m| && 0 <= zone < zoneCount
    ensures Tally(st, m, rowStart + i + 1, mbWidth, mbHeight, zoneCount, output, curTime) ==
            MbStep(Tally(st, m, rowStart + i, mbWidth, mbHeight, zoneCount, output, curTime), m[rowStart + i], zone, output, curTime, zoneCount)
  {
    CellZone(j, i, mbWidth, mbHeight, zoneCount);
  }

  /** The next row starts mbWidth macroblocks further, and the last row ends the map. */
  lemma NextRowStart(j: int, mbWidth: int, mbHeight: int)
    ensures (j + 1) * mbWidth == j * mbWidth + mbWidth && mbHeight * mbWidth == mbWidth * mbHeight
  {
  }

  /** Macroblock i of row j is number j * mbWidth + i; its zone is the row's band j * zoneCount / mbHeight. */
  lemma CellZone(j: int, i: int, mbWidth: int, mbHeight: int, zoneCount: int)
    requires mbWidth >= 1 && mbHeight >= 1 && zoneCount >= 1 && 0 <= j < mbHeight && 0 <= i < mbWidth
    ensures 0 <= j * mbWidth + i < mbWidth * mbHeight
    ensures Zone(j * mbWidth + i, mbWidth, mbHeight, zoneCount) == j * zoneCount / mbHeight
  {
    MulMonotone(j + 1, mbHeight, mbWidth);
    MulMonotone(0, j, mbWidth);
    RowOfIndex(j, i, mbWidth);
  }

  /** How many of the first n macroblocks have status c and lie in zone z. */
  function CellCount(m: seq<int>, n: int, mbWidth: int, mbHeight: int, zoneCount: int, c: int, z: int): (r: nat)
    requires zoneCount >= 1 && StatusMap(m, mbWidth, mbHeight) && 0 <= n <= |m|
    ensures r <= n
  {
    if n == 0 then 0
    else
      var here := if m[n - 1] == c && Zone(n - 1, mbWidth, mbHeight, zoneCount) == z then 1 else 0;
      CellCount(m, n - 1, mbWidth, mbHeight, zoneCount, c, z) + here
  }

  /** Each histogram cell grows, modulo 2^32, by the number of macroblocks of that status in that zone. */
  lemma {:induction false} TallyCounts(st: VideoStats, m: seq<int>, n: int, mbWidth: int, mbHeight: int, zoneCount: int, output: bool, curTime: u64, c: int, z: int)
    requires StatsShaped(st, zoneCount) && zoneCount >= 1 && StatusMap(m, mbWidth, mbHeight) && 0 <= n <= |m|
    requires 0 <= c < MB_STATUS_CLASS_COUNT && 0 <= z < zoneCount
    ensures Tally(st, m, n, mbWidth, mbHeight, zoneCount, output, curTime).macroblockStatus[c][z] ==
      U32(st.macroblockStatus[c][z] + CellCount(m, n, mbWidth, mbHeight, zoneCount, c, z))
    decreases n
  {
    if n > 0 {
      TallyCounts(st, m, n - 1, mbWidth, mbHeight, zoneCount, output, curTime, c, z);
      var prev := Tally(st, m, n - 1, mbWidth, mbHeight, zoneCount, output, curTime);
      var zone := Zone(n - 1, mbWidth, mbHeight, zoneCount);
      MbStepCell(prev, m[n - 1], zone, output, curTime, zoneCount, c, z);
      var a := st.macroblockStatus[c][z] + CellCount(m, n - 1, mbWidth, mbHeight, zoneCount, c, z);
      if m[n - 1] == c && zone == z {
        U32Succ(a);
        assert CellCount(m, n, mbWidth, mbHeight, zoneCount, c, z) == CellCount(m, n - 1, mbWidth, mbHeight, zoneCount, c, z) + 1;
      } else {
        assert CellCount(m, n, mbWidth, mbHeight, zoneCount, c, z) == CellCount(m, n - 1, mbWidth, mbHeight, zoneCount, c, z);
      }
    }
  }

  /** Some of the first n macroblocks were not received. */
  predicate HasError(m: seq<int>, n: int)
    requires 0 <= n <= |m|
  {
    exists k :: 0 <= k < n && !IsValidStatus(m[k])
  }

  /**
   * The global error-second counter moves at most once per access unit: it
   * moves, to curTime and count + 1, exactly when the AU is output, one of
   * its macroblocks was not received and more than one second has passed
   * since the last error second began.
   */
  lemma {:induction false} ErrorSecondAtMostOnce(st: VideoStats, m: seq<int>, n: int, mbWidth: int, mbHeight: int, zoneCount: int, output: bool, curTime: u64)
    requires StatsShaped(st, zoneCount) && zoneCount >= 1 && StatusMap(m, mbWidth, mbHeight) && 0 <= n <= |m|
    requires curTime + ONE_SECOND < TWO_64
    ensures var r := Tally(st, m, n, mbWidth, mbHeight, zoneCount, output, curTime);
      if output && HasError(m, n) && curTime > U64(st.errorSecondStartTime + ONE_SECOND)
      then r.errorSecondStartTime == curTime && r.errorSecondCount == U32(st.errorSecondCount as int + 1)
      else r.errorSecondStartTime == st.errorSecondStartTime && r.errorSecondCount == st.errorSecondCount
    decreases n
  {
    if n > 0 {
      ErrorSecondAtMostOnce(st, m, n - 1, mbWidth, mbHeight, zoneCount, output, curTime);
      var prev := Tally(st, m, n - 1, mbWidth, mbHeight, zoneCount, output, curTime);
      MbStepTick(prev, m[n - 1], Zone(n - 1, mbWidth, mbHeight, zoneCount), output, curTime, zoneCount, 0);
      if HasError(m, n) && !HasError(m, n - 1) {
        assert !IsValidStatus(m[n - 1]);
      }
      if HasError(m, n - 1) {
        var k :| 0 <= k < n - 1 && !IsValidStatus(m[k]);
        assert 0 <= k < n && !IsValidStatus(m[k]);
      }
    }
  }

  /** Some of the first n macroblocks lie in zone z and were not received. */
  predicate HasErrorInZone(m: seq<int>, n: int, mbWidth: int, mbHeight: int, zoneCount: int, z: int)
    requires zoneCount >= 1 && StatusMap(m, mbWidth, mbHeight) && 0 <= n <= |m|
  {
    exists k :: 0 <= k < n && !IsValidStatus(m[k]) && Zone(k, mbWidth, mbHeight, zoneCount) == z
  }

  /** The same for the error-second counter of each zone. */
  lemma {:induction false} ZoneErrorSecondAtMostOnce(st: VideoStats, m: seq<int>, n: int, mbWidth: int, mbHeight: int, zoneCount: int, output: bool, curTime: u64, z: int)
    requires StatsShaped(st, zoneCount) && zoneCount >= 1 && StatusMap(m, mbWidth, mbHeight) && 0 <= n <= |m|
    requires curTime + ONE_SECOND < TWO_64 && 0 <= z < zoneCount
    ensures var r := Tally(st, m, n, mbWidth, mbHeight, zoneCount, output, curTime);
      if output && HasErrorInZone(m, n, mbWidth, mbHeight, zoneCount, z) && curTime > U64(st.errorSecondStartTimeByZone[z] + ONE_SECOND)
      then r.errorSecondStartTimeByZone[z] == curTime && r.errorSecondCountByZone[z] == U32(st.errorSecondCountByZone[z] as int + 1)
      else r.errorSecondStartTimeByZone[z] == st.errorSecondStartTimeByZone[z] && r.errorSecondCountByZone[z] == st.errorSecondCountByZone[z]
    decreases n
  {
    if n > 0 {
      ZoneErrorSecondAtMostOnce(st, m, n - 1, mbWidth, mbHeight, zoneCount, output, curTime, z);
      var prev := Tally(st, m, n - 1, mbWidth, mbHeight, zoneCount, output, curTime);
      MbStepTick(prev, m[n - 1], Zone(n - 1, mbWidth, mbHeight, zoneCount), output, curTime, zoneCount, z);
      if HasErrorInZone(m, n, mbWidth, mbHeight, zoneCount, z) && !HasErrorInZone(m, n - 1, mbWidth, mbHeight, zoneCount, z) {
        assert !IsValidStatus(m[n - 1]) && Zone(n - 1, mbWidth, mbHeight, zoneCount) == z;
      }
      if HasErrorInZone(m, n - 1, mbWidth, mbHeight, zoneCount, z) {
        var k :| 0 <= k < n - 1 && !IsValidStatus(m[k]) && Zone(k, mbWidth, mbHeight, zoneCount) == z;
        assert 0 <= k < n && !IsValidStatus(m[k]) && Zone(k, mbWidth, mbHeight, zoneCount) == z;
      }
    }
  }

  /**
   * The frame counters after one AU: every AU counts in the total, an
   * output AU in the output count, a discarded one in the discarded count,
   * and a missed reference AU in the missed count (all modulo 2^32).
   */
  function FrameCounted(st: VideoStats, output: bool, discarded: bool, missed: bool): (r: VideoStats)
    ensures r.totalFrameCount == U32(st.totalFrameCount as int + 1)
    ensures r.outputFrameCount == if output then U32(st.outputFrameCount as int + 1) else st.outputFrameCount
    ensures r.discardedFrameCount == if discarded then U32(st.discardedFrameCount as int + 1) else st.discardedFrameCount
    ensures r.missedFrameCount == if missed then U32(st.missedFrameCount as int + 1) else st.missedFrameCount
    ensures r.(totalFrameCount := st.totalFrameCount, outputFrameCount := st.outputFrameCount,
               discardedFrameCount := st.discardedFrameCount, missedFrameCount := st.missedFrameCount) == st
  {
    st.(totalFrameCount := U32(st.totalFrameCount as int + 1),
        outputFrameCount := if output then U32(st.outputFrameCount as int + 1) else st.outputFrameCount,
        discardedFrameCount := if discarded then U32(st.discardedFrameCount as int + 1) else st.discardedFrameCount,
        missedFrameCount := if missed then U32(st.missedFrameCount as int + 1) else st.missedFrameCount)
  }

  /**
   * The statistics after one AU, once synchronised: the macroblock map, if
   * there is one, is counted (Tally); when the AU is a reference AU that
   * was discarded or not output, every macroblock of its map counts as
   * MISSING instead; then the frame counters advance (FrameCounted), the
   * missed count for exactly such an AU.
   */
  function FrameStats(st: VideoStats, m: Option<seq<int>>, mbWidth: int, mbHeight: int, zoneCount: int,
                      output: bool, discarded: bool, isRef: bool, curTime: u64): (r: VideoStats)
    requires StatsShaped(st, zoneCount) && zoneCount >= 1 && (m.Some? ==> StatusMap(m.value, mbWidth, mbHeight))
    ensures StatsShaped(r, zoneCount)
    ensures r.totalFrameCount == U32(st.totalFrameCount as int + 1)
    ensures r.outputFrameCount == if output then U32(st.outputFrameCount as int + 1) else st.outputFrameCount
    ensures r.discardedFrameCount == if discarded then U32(st.discardedFrameCount as int + 1) else st.discardedFrameCount
    ensures r.missedFrameCount ==
            if (discarded || !output) && isRef then U32(st.missedFrameCount as int + 1) else st.missedFrameCount
    ensures m.None? ==> r.macroblockStatus == st.macroblockStatus && r.errorSecondCount == st.errorSecondCount
  {
    var missed := (discarded || !output) && isRef;
    var tallied :=
      if m.None? then st
      else
        var s := if missed then seq(|m.value|, _ => MB_MISSING) else m.value;
        Tally(st, s, |s|, mbWidth, mbHeight, zoneCount, output, curTime);
    FrameCounted(tallied, output, discarded, missed)
  }

  /**
   * The statistics output time after one AU: set to the current time on
   * the first AU (when it is still 0), and again whenever a statistics
   * output interval has passed since it.
   */
  function StatsOutputTime(last: u64, curTime: u64): (r: u64)
    ensures r == last || r == curTime
    ensures last == 0 ==> r == curTime
    ensures last != 0 && curTime >= U64(last + ONE_SECOND) ==> r == curTime
    ensures last != 0 && curTime < U64(last + ONE_SECOND) ==> r == last
  {
    var init := if last == 0 then curTime else last;
    if curTime >= U64(init + ONE_SECOND) then curTime else init
  }

  /*
   * Timestamps of the gray IDR frame.
   */

  /** The timestamp decrement of OutputGrayIdrFrame: `step` when possible, else 1, else nothing. */
  function GuardedDecrement(ts: u64, step: int): (r: u64)
    requires step >= 1
    ensures r <= ts && (ts > 0 ==> r < ts) && (ts >= step ==> r == ts - step)
  {
    ts - (if ts >= step then step else if ts >= 1 then 1 else 0)
  }
}
