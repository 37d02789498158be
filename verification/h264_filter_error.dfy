/*
 * Error concealment of the H.264 filter (src/arstream2_h264_filter_error.c):
 * the gaps left by lost slices, before a received slice or at the end of a
 * frame, are located in the current AU, marked in the current macroblock
 * status map and, when possible, filled with a skipped P slice; and the
 * gray IDR frame that can be output before the first frame after
 * synchronisation.
 *
 * The parser's slice context, the NALU and AU FIFO pools, the writer that
 * produces the skipped P slice or the gray I slice, realloc and the AU
 * callback are not part of this model: what they answer is a parameter.
 */
module H264FilterError {
  import opened CInt
  import opened H264
  import opened H264FilterRules
  import opened H264Filter

  /*
   * The status maps as values.
   */

  /** A memset of v over the part of [first, first + n) that lies inside the map. */
  function MarkedRange(m: seq<int>, first: int, n: int, v: int): (r: seq<int>)
    ensures |r| == |m|
    ensures forall k :: 0 <= k < |m| ==> r[k] == if first <= k < first + n then v else m[k]
  {
    seq(|m|, k requires 0 <= k < |m| => if first <= k < first + n then v else m[k])
  }

  /**
   * The clip in front of each memset (firstMbInSlice + missingMb is brought
   * down to mbCount) changes nothing a marking inside the map reaches.
   */
  lemma MarkedRangeClip(m: seq<int>, first: int, n: int, v: int)
    requires 0 <= first
    ensures MarkedRange(m, first, Clip(first, n, |m|), v) == MarkedRange(m, first, n, v)
  {
    var c := Clip(first, n, |m|);
    forall k | 0 <= k < |m|
      ensures MarkedRange(m, first, c, v)[k] == MarkedRange(m, first, n, v)[k]
    {
      if first < |m| && n > 0 {
        assert first + c == if first + n > |m| then |m| else first + n;
      }
    }
  }

  /** Marking the same range twice with the same status is marking it once. */
  lemma {:induction false} MarkedRangeTwice(m: seq<int>, first: int, n: int, v: int)
    ensures MarkedRange(MarkedRange(m, first, n, v), first, n, v) == MarkedRange(m, first, n, v)
  {
    var r := MarkedRange(m, first, n, v);
    assert forall k :: 0 <= k < |m| ==> MarkedRange(r, first, n, v)[k] == r[k];
  }

  /** A marking with a status leaves a map of statuses. */
  lemma MarkedRangeStatuses(m: seq<int>, first: int, n: int, v: int)
    requires IsStatus(v) && forall k :: 0 <= k < |m| ==> IsStatus(m[k])
    ensures forall k :: 0 <= k < |m| ==> IsStatus(MarkedRange(m, first, n, v)[k])
  {
  }

  /*
   * Locating a gap.
   */

  /** A slice NALU, IDR or not. */
  predicate IsSliceNalu(n: NalUnit) {
    n.naluType == NaluTypeSlice || n.naluType == NaluTypeSliceIdr
  }

  /** The macroblock count of slice `index` of the streaming SEI's table (0 past its end). */
  function TableEntry(table: seq<int>, index: int): int {
    SliceMbCountAt(table, |table|, index)
  }

  /**
   * The gap before the slice that follows lost packets: whether it could
   * be located, its first macroblock and its size. With streaming
   * information it starts at 0 when no slice was received, otherwise at the
   * end of the previous slice (from the table), and it must not be empty.
   * Without streaming information, and only when the map exists and the
   * slice's first macroblock is positive, it starts at 0 when no slice was
   * received, or at the end of the previous slice inferred from the slice
   * size; otherwise there is no gap.
   */
  function GapBeforeSlice(a: AuState, table: seq<int>, inferredSliceMbCount: int, hasMap: bool): (r: (bool, int, int))
    ensures r.2 > 0 ==> r.1 + r.2 == a.currentSliceFirstMb
    ensures !r.0 <==> a.streamingInfoAvailable && r.2 <= 0
    ensures !r.0 ==> r.2 == 0
    ensures a.streamingInfoAvailable && a.previousSliceIndex < 0 && a.currentSliceFirstMb > 0 ==> r == (true, 0, a.currentSliceFirstMb)
    ensures !a.streamingInfoAvailable && !(hasMap && a.currentSliceFirstMb > 0) ==> r == (true, 0, 0)
  {
    var current := a.currentSliceFirstMb;
    if a.streamingInfoAvailable then
      if a.previousSliceIndex < 0 then
        if current > 0 then (true, 0, current) else (false, 0, 0)
      else
        var end := a.previousSliceFirstMb + TableEntry(table, a.previousSliceIndex);
        if current > end then (true, end, current - end) else (false, 0, 0)
    else if hasMap && current > 0 then
      if !a.slicesReceived then (true, 0, current)
      else if a.inferredPreviousSliceFirstMb >= 0 && inferredSliceMbCount > 0 then
        var end := a.inferredPreviousSliceFirstMb + inferredSliceMbCount;
        (true, end, current - end)
      else (true, 0, 0)
    else (true, 0, 0)
  }

  /**
   * The gap at the end of a frame whose last NALU was lost: from the end of
   * the previous slice (table or inferred size, or 0 when no slice was
   * received without streaming information) to mbCount. With streaming
   * information and no slice received it cannot be located.
   */
  function GapAtEndOfFrame(a: AuState, table: seq<int>, inferredSliceMbCount: int, hasMap: bool, mbCount: int): (r: (bool, int, int))
    ensures r.2 > 0 ==> r.1 + r.2 == mbCount
    ensures !r.0 <==> a.streamingInfoAvailable && a.previousSliceIndex < 0
    ensures !r.0 ==> r.2 == 0
    ensures !a.streamingInfoAvailable && hasMap && !a.slicesReceived ==> r == (true, 0, mbCount)
  {
    if a.streamingInfoAvailable then
      if a.previousSliceIndex < 0 then (false, 0, 0)
      else
        var end := a.previousSliceFirstMb + TableEntry(table, a.previousSliceIndex);
        (true, end, mbCount - end)
    else if hasMap then
      if !a.slicesReceived then (true, 0, mbCount)
      else
        var end := a.inferredPreviousSliceFirstMb + inferredSliceMbCount;
        (true, end, mbCount - end)
    else (true, 0, 0)
  }

  /*
   * Concealing a gap.
   */

  /**
   * What the collaborators answer while a gap is concealed: whether the
   * parser gives its slice context, whether a NALU FIFO item is free, the
   * MIN_REALLOC step and realloc's result for growing the AU buffer by 16
   * bytes, and the size of the skipped P slice the writer produces (None
   * when it fails).
   */
  datatype Concealment = Concealment(contextOk: bool, itemFree: bool, minRealloc: u32, realloced: Ptr, written: Option<u32>)

  /**
   * The skipped P slice NALU written at `at`: a reset NALU with the
   * timestamps of its neighbour, the writer's size, and marked last in the
   * AU when it ends the frame.
   */
  function SkippedPSlice(neighbour: NalUnit, at: Ptr, size: u32, last: bool): (r: NalUnit)
    ensures r.naluType == NaluTypeSlice && r.sliceType == SliceTypeP && r.naluSize == size && r.missingPacketsBefore == 0
    ensures (r.inputTimestamp, r.timeoutTimestamp, r.ntpTimestamp, r.extRtpTimestamp, r.rtpTimestamp) ==
            (neighbour.inputTimestamp, neighbour.timeoutTimestamp, neighbour.ntpTimestamp, neighbour.extRtpTimestamp, neighbour.rtpTimestamp)
    ensures r.isLastInAu == (if last then 1 else 0)
    ensures r.(inputTimestamp := 0, timeoutTimestamp := 0, ntpTimestamp := 0, extRtpTimestamp := 0, rtpTimestamp := 0,
               isLastInAu := 0, nalu := Null, naluSize := 0, naluType := NaluTypeUnknown, sliceType := SliceTypeNonVcl) == NaluReset(neighbour)
  {
    EmptyNalu.(inputTimestamp := neighbour.inputTimestamp, timeoutTimestamp := neighbour.timeoutTimestamp,
               ntpTimestamp := neighbour.ntpTimestamp, extRtpTimestamp := neighbour.extRtpTimestamp,
               rtpTimestamp := neighbour.rtpTimestamp, isLastInAu := if last then 1 else 0,
               nalu := at, naluSize := size, naluType := NaluTypeSlice, sliceType := SliceTypeP)
  }

  /** Where the next NALU of the AU is written: its buffer plus auSize. */
  function WriteAt(au: AccessUnit): Ptr {
    if au.buffer.Ptr? then Ptr(au.buffer.address + au.auSize) else Null
  }

  /**
   * The concealment of a gap: whether it succeeded, the AU afterwards and
   * the skipped P slice to put in it. The AU buffer is grown (or its
   * growth fails) once the slice context and an item are obtained; only a
   * successful write adds the slice's size to auSize.
   */
  function Conceal(au: AccessUnit, neighbour: NalUnit, c: Concealment, last: bool): (r: (bool, AccessUnit, Option<NalUnit>))
    ensures r.0 <==> r.2.Some?
    ensures r.0 <==> c.contextOk && c.itemFree && AuCheckSizeRealloc(au, 16, c.minRealloc, c.realloced).0 == 0 && c.written.Some?
    ensures r.0 ==> r.1.auSize == U32(au.auSize + c.written.value) && r.2.value.naluSize == c.written.value
    ensures r.1.(buffer := au.buffer, bufferSize := au.bufferSize, auSize := au.auSize) == au
    ensures !r.0 ==> r.1.auSize == au.auSize
  {
    if !c.contextOk || !c.itemFree then (false, au, None)
    else
      var grown := AuCheckSizeRealloc(au, 16, c.minRealloc, c.realloced);
      if grown.0 != 0 || c.written.None? then (false, grown.1, None)
      else
        var au1 := grown.1;
        (true, au1.(auSize := U32(au1.auSize + c.written.value)), Some(SkippedPSlice(neighbour, WriteAt(au1), c.written.value, last)))
  }

  /**
   * What handling a gap leaves: the result, the range marked in the
   * current map and with which status (nothing when count is 0), the AU
   * and the NALU concealing the gap.
   */
  datatype GapOutcome = GapOutcome(ret: int, first: int, count: int, status: int, au: AccessUnit, item: Option<NalUnit>)

  /**
   * A located gap, once synchronised: -2 with the gap marked MISSING when
   * skipped P slices are not generated, when there is no streaming
   * information or when the neighbouring slice is not a P slice; otherwise
   * a non-empty gap is concealed and marked MISSING_CONCEALED, or marked
   * MISSING with -1 when the concealment fails.
   */
  function Settled(first: int, missing: int, generate: bool, streaming: bool, neighbour: NalUnit,
                   au: AccessUnit, c: Concealment, last: bool): (r: GapOutcome)
    ensures r.count == (if missing > 0 then missing else 0) && r.first == first
    ensures r.ret == -2 <==> !(generate && streaming && neighbour.sliceType == SliceTypeP)
    ensures r.ret == -2 ==> r.status == MB_MISSING && r.au == au && r.item.None?
    ensures r.item.Some? <==> r.status == MB_MISSING_CONCEALED
    ensures r.ret == 0 && r.count > 0 <==> r.item.Some?
    ensures r.ret == -1 ==> r.status == MB_MISSING
    ensures r.ret in {0, -1, -2}
  {
    if !generate || !streaming || neighbour.sliceType != SliceTypeP then
      GapOutcome(-2, first, if missing > 0 then missing else 0, MB_MISSING, au, None)
    else if missing <= 0 then GapOutcome(0, first, 0, MB_MISSING, au, None)
    else
      var k := Conceal(au, neighbour, c, last);
      GapOutcome(if k.0 then 0 else -1, first, missing, if k.0 then MB_MISSING_CONCEALED else MB_MISSING, k.1, k.2)
  }

  /**
   * ARSTREAM2_H264FilterError_HandleMissingSlices on values: nothing to do
   * (0) for a NALU that is not a slice or a slice starting at macroblock
   * 0; -2 before synchronisation; -1 when the gap cannot be located;
   * otherwise the gap is settled.
   */
  function MissingSlices(sync: bool, generate: bool, a: AuState, table: seq<int>, inferredSliceMbCount: int,
                         hasMap: bool, next: NalUnit, au: AccessUnit, c: Concealment): (r: GapOutcome)
    ensures r.ret in {0, -1, -2}
    ensures !IsSliceNalu(next) || a.currentSliceFirstMb == 0 ==> r == GapOutcome(0, 0, 0, MB_MISSING, au, None)
    ensures !sync ==> r.count == 0 && r.au == au && r.item.None? && (IsSliceNalu(next) && a.currentSliceFirstMb != 0 ==> r.ret == -2)
    ensures r.count > 0 ==> r.first + r.count == a.currentSliceFirstMb
    ensures r.item.Some? <==> r.status == MB_MISSING_CONCEALED
    ensures r.ret == 0 && r.count > 0 <==> r.item.Some?
    ensures r.item.Some? ==> r.item.value.isLastInAu == 0 && r.item.value.rtpTimestamp == next.rtpTimestamp
    ensures sync && IsSliceNalu(next) && a.currentSliceFirstMb != 0 && GapBeforeSlice(a, table, inferredSliceMbCount, hasMap).0 ==>
      (r.ret == -2 <==> !(generate && a.streamingInfoAvailable && next.sliceType == SliceTypeP))
  {
    if !IsSliceNalu(next) || a.currentSliceFirstMb == 0 then GapOutcome(0, 0, 0, MB_MISSING, au, None)
    else if !sync then GapOutcome(-2, 0, 0, MB_MISSING, au, None)
    else
      var g := GapBeforeSlice(a, table, inferredSliceMbCount, hasMap);
      if !g.0 then GapOutcome(-1, 0, 0, MB_MISSING, au, None)
      else Settled(g.1, g.2, generate, a.streamingInfoAvailable, next, au, c, false)
  }

  /**
   * ARSTREAM2_H264FilterError_HandleMissingEndOfFrame on values: -2 before
   * synchronisation, -1 when the gap cannot be located, otherwise the gap
   * up to mbCount is settled, the skipped P slice ending the AU.
   */
  function MissingEndOfFrame(sync: bool, generate: bool, a: AuState, table: seq<int>, inferredSliceMbCount: int,
                             hasMap: bool, mbCount: int, prev: NalUnit, au: AccessUnit, c: Concealment): (r: GapOutcome)
    ensures r.ret in {0, -1, -2}
    ensures !sync ==> r == GapOutcome(-2, 0, 0, MB_MISSING, au, None)
    ensures sync && a.streamingInfoAvailable && a.previousSliceIndex < 0 ==> r == GapOutcome(-1, 0, 0, MB_MISSING, au, None)
    ensures r.count > 0 ==> r.first + r.count == mbCount
    ensures r.item.Some? <==> r.status == MB_MISSING_CONCEALED
    ensures r.ret == 0 && r.count > 0 <==> r.item.Some?
    ensures r.item.Some? ==> r.item.value.isLastInAu == 1 && r.item.value.rtpTimestamp == prev.rtpTimestamp
  {
    if !sync then GapOutcome(-2, 0, 0, MB_MISSING, au, None)
    else
      var g := GapAtEndOfFrame(a, table, inferredSliceMbCount, hasMap, mbCount);
      if !g.0 then GapOutcome(-1, 0, 0, MB_MISSING, au, None)
      else Settled(g.1, g.2, generate, a.streamingInfoAvailable, prev, au, c, true)
  }

  /*
   * The operations on the filter.
   */

  /** A memset of v over [first, first + n) of the current map, clipped to the map. */
  method MarkRange(f: Filter, first: int, n: int, v: int)
    requires f.Valid() && f.currentMap != null && IsStatus(v)
    modifies f.currentMap
    ensures f.Valid()
    ensures f.currentMap[..] == MarkedRange(old(f.currentMap[..]), first, n, v)
  {
    var m := f.currentMap;
    ghost var m0 := m[..];
    var lo := if first < 0 then 0 else first;
    var hi := if first + n > m.Length then m.Length else first + n;
    var k := lo;
    while k < hi
      invariant lo <= k && (k <= hi || k == lo)
      invariant forall j :: 0 <= j < m.Length ==> m[j] == if lo <= j < k then v else m0[j]
      decreases hi - k
    {
      m[k] := v;
      k := k + 1;
    }
    assert forall j :: 0 <= j < m.Length ==> m[j] == MarkedRange(m0, first, n, v)[j];
    assert m[..] == MarkedRange(m0, first, n, v);
    MarkedRangeStatuses(m0, first, n, v);
  }

  /** The early return of HandleMissingSlices for a slice starting at macroblock 0: the previous slice is forgotten. */
  method ForgetPreviousSlice(f: Filter)
    requires f.Valid()
    modifies f
    ensures f.Valid()
    ensures (f.Sync(), f.Callbacks(), f.Output(), f.currentMap, f.refMap) == old((f.Sync(), f.Callbacks(), f.Output(), f.currentMap, f.refMap))
    ensures f.Parsing() == old(f.Parsing()).(0 := old(f.au).(previousSliceFirstMb := 0, previousSliceIndex := 0))
  {
    f.au := f.au.(previousSliceFirstMb := 0, previousSliceIndex := 0);
  }

  /**
   * ARSTREAM2_H264FilterError_HandleMissingSlices, called for a NALU that
   * follows lost packets: the result, the gap marked in the current map,
   * the AU and the concealing NALU are those of MissingSlices; a slice
   * starting at macroblock 0 makes the AU forget its previous slice.
   */
  method HandleMissingSlices(f: Filter, au: AccessUnit, next: NalUnit, c: Concealment)
    returns (ret: int, auOut: AccessUnit, inserted: Option<NalUnit>)
    requires f.Valid()
    modifies f, f.currentMap
    ensures f.Valid()
    ensures (f.Sync(), f.Callbacks(), f.Output(), f.currentMap, f.refMap) == old((f.Sync(), f.Callbacks(), f.Output(), f.currentMap, f.refMap))
    ensures f.Parsing() == old(f.Parsing()).(0 := if old(f.au).currentSliceFirstMb == 0
                                                  then old(f.au).(previousSliceFirstMb := 0, previousSliceIndex := 0) else old(f.au))
    ensures var o := MissingSlices(f.sync, f.generateSkippedPSlices, old(f.au), f.sliceMbCount, f.inferredSliceMbCount,
                                   f.currentMap != null, next, au, c);
      ret == o.ret && auOut == o.au && inserted == o.item &&
      (f.currentMap != null ==> f.currentMap[..] == MarkedRange(old(f.currentMap[..]), o.first, o.count, o.status))
  {
    if !IsSliceNalu(next) || f.au.currentSliceFirstMb == 0 {
      if f.au.currentSliceFirstMb == 0 {
        ForgetPreviousSlice(f);
      }
      if f.currentMap != null {
        assert f.currentMap[..] == MarkedRange(old(f.currentMap[..]), 0, 0, MB_MISSING);
      }
      return 0, au, None;
    }
    ret, auOut, inserted := HandleGapBeforeSlice(f, au, next, c);
  }

  /** HandleMissingSlices for a slice that does not start at macroblock 0: only the current map changes. */
  method HandleGapBeforeSlice(f: Filter, au: AccessUnit, next: NalUnit, c: Concealment)
    returns (ret: int, auOut: AccessUnit, inserted: Option<NalUnit>)
    requires f.Valid() && IsSliceNalu(next) && f.au.currentSliceFirstMb != 0
    modifies f.currentMap
    ensures f.Valid()
    ensures var o := MissingSlices(f.sync, f.generateSkippedPSlices, f.au, f.sliceMbCount, f.inferredSliceMbCount,
                                   f.currentMap != null, next, au, c);
      ret == o.ret && auOut == o.au && inserted == o.item &&
      (f.currentMap != null ==> f.currentMap[..] == MarkedRange(old(f.currentMap[..]), o.first, o.count, o.status))
  {
    var a := f.au;
    if !f.sync {
      return -2, au, None;
    }
    ghost var m0 := if f.currentMap != null then f.currentMap[..] else [];
    var g := GapBeforeSlice(a, f.sliceMbCount, f.inferredSliceMbCount, f.currentMap != null);
    var located, first, missing := g.0, g.1, g.2;
    if !a.streamingInfoAvailable && missing > 0 {
      MarkRange(f, first, missing, MB_MISSING);
    }
    if !located {
      if f.currentMap != null {
        assert f.currentMap[..] == MarkedRange(m0, 0, 0, MB_MISSING);
      }
      return -1, au, None;
    }
    if !f.generateSkippedPSlices || !a.streamingInfoAvailable || next.sliceType != SliceTypeP {
      if missing > 0 && f.currentMap != null {
        MarkRange(f, first, missing, MB_MISSING);
        MarkedRangeTwice(m0, first, missing, MB_MISSING);
      } else if f.currentMap != null {
        assert f.currentMap[..] == MarkedRange(m0, first, 0, MB_MISSING);
      }
      return -2, au, None;
    }
    // With streaming information a located gap is never empty.
    var k := Conceal(au, next, c, false);
    ret, auOut, inserted := if k.0 then 0 else -1, k.1, k.2;
    if f.currentMap != null {
      MarkRange(f, first, missing, if k.0 then MB_MISSING_CONCEALED else MB_MISSING);
    }
  }

  /**
   * ARSTREAM2_H264FilterError_HandleMissingEndOfFrame, called when the last
   * NALU of the AU was lost: the result, the gap marked in the current map,
   * the AU and the NALU appended to it are those of MissingEndOfFrame; the
   * filter's fields do not change.
   */
  method HandleMissingEndOfFrame(f: Filter, au: AccessUnit, prev: NalUnit, c: Concealment)
    returns (ret: int, auOut: AccessUnit, appended: Option<NalUnit>)
    requires f.Valid()
    modifies f.currentMap
    ensures f.Valid()
    ensures var o := MissingEndOfFrame(f.sync, f.generateSkippedPSlices, f.au, f.sliceMbCount, f.inferredSliceMbCount,
                                       f.currentMap != null, f.geometry.mbCount, prev, au, c);
      ret == o.ret && auOut == o.au && appended == o.item &&
      (f.currentMap != null ==> f.currentMap[..] == MarkedRange(old(f.currentMap[..]), o.first, o.count, o.status))
  {
    var a := f.au;
    ghost var m0 := if f.currentMap != null then f.currentMap[..] else [];
    var located, first, missing := true, 0, 0;
    if f.sync {
      var g := GapAtEndOfFrame(a, f.sliceMbCount, f.inferredSliceMbCount, f.currentMap != null, f.geometry.mbCount);
      located, first, missing := g.0, g.1, g.2;
      if !a.streamingInfoAvailable && missing > 0 {
        MarkRange(f, first, missing, MB_MISSING);
      }
    }
    if !located || !f.sync {
      if f.currentMap != null {
        assert f.currentMap[..] == MarkedRange(m0, 0, 0, MB_MISSING);
      }
      return if located then -2 else -1, au, None;
    }
    if !f.generateSkippedPSlices || !a.streamingInfoAvailable || prev.sliceType != SliceTypeP {
      if missing > 0 && f.currentMap != null {
        MarkRange(f, first, missing, MB_MISSING);
        MarkedRangeTwice(m0, first, missing, MB_MISSING);
      } else if f.currentMap != null {
        assert f.currentMap[..] == MarkedRange(m0, first, 0, MB_MISSING);
      }
      return -2, au, None;
    }
    if missing <= 0 {
      if f.currentMap != null {
        assert f.currentMap[..] == MarkedRange(m0, first, 0, MB_MISSING);
      }
      return 0, au, None;
    }
    var k := Conceal(au, prev, c, true);
    ret, auOut, appended := if k.0 then 0 else -1, k.1, k.2;
    if f.currentMap != null {
      MarkRange(f, first, missing, if k.0 then MB_MISSING_CONCEALED else MB_MISSING);
    }
  }

  /*
   * The gray IDR frame.
   */

  /** The timestamps of the AU the gray frame is output before. */
  datatype AuTimes = AuTimes(rtpTimestamp: u64, ntpTimestamp: u64, ntpTimestampLocal: u64)

  /**
   * What OutputGrayIdrFrame's collaborators answer: whether the parser
   * gives its slice context, the size of the AU buffer when both a buffer
   * and a free AU item were obtained, the number of free NALU items, the
   * size of the gray I slice the writer produces (None when it fails),
   * whether the AU's macroblock status buffer could be sized, and the AU
   * callback's result (None when no callback is installed).
   */
  datatype GrayResources = GrayResources(contextOk: bool, auBufferSize: Option<nat>, freeNaluItems: nat,
                                         written: Option<nat>, mbBufferOk: bool, callback: Option<bool>)

  /**
   * The gray IDR access unit handed to the AU callback: its sync type and
   * timestamps, the SPS and PPS copies that open its buffer, the sizes of
   * its NALUs, its size and its macroblock status map.
   */
  datatype GrayIdrAu = GrayIdrAu(syncType: AuSyncType, rtpTimestamp: u64, ntpTimestamp: u64, ntpTimestampLocal: u64,
                                 parameterSets: seq<byte>, naluSizes: seq<int>, auSize: int, mbStatus: Option<seq<int>>)

  /**
   * The SPS and PPS copies put before the gray I slice and their NALU
   * sizes: none when SPS and PPS are filtered out; otherwise each one that
   * fits in what is left of the buffer, SPS first.
   */
  function GrayParameterSets(filterOutSpsPps: bool, sps: seq<byte>, pps: seq<byte>, bufferSize: nat): (r: (seq<byte>, seq<int>))
    ensures |r.0| <= bufferSize && |r.1| <= 2
    ensures filterOutSpsPps ==> r == ([], [])
    ensures !filterOutSpsPps && |sps| + |pps| <= bufferSize ==> r == (sps + pps, [|sps|, |pps|])
    ensures !filterOutSpsPps && |sps| > bufferSize && |pps| > bufferSize ==> r == ([], [])
  {
    if filterOutSpsPps then ([], [])
    else if |sps| <= bufferSize then
      if |sps| + |pps| <= bufferSize then (sps + pps, [|sps|, |pps|]) else (sps, [|sps|])
    else if |pps| <= bufferSize then (pps, [|pps|])
    else ([], [])
  }

  /**
   * OutputGrayIdrFrame on values: the result, the AU handed to the
   * callback, and whether the filter's AU context was reset and restored
   * (only once the gray slice is written). The AU is an IDR frame whose
   * timestamps come just before the next AU's (GuardedDecrement by 90 on
   * the 90 kHz RTP clock and by 1000 on the microsecond NTP clocks) and
   * whose macroblocks are all VALID_ISLICE; 0 only when the callback took
   * it.
   */
  function GrayFrame(filterOutSpsPps: bool, sps: seq<byte>, pps: seq<byte>, mbCount: nat, hasMap: bool,
                     next: AuTimes, res: GrayResources): (r: (int, Option<GrayIdrAu>, bool))
    ensures r.0 == 0 || r.0 == -1
    ensures r.0 == 0 <==> r.1.Some? && res.callback == Some(true)
    ensures r.1.Some? <==> r.2 && res.callback.Some?
    ensures r.2 ==> res.contextOk && res.auBufferSize.Some? && res.written.Some?
    ensures r.1.Some? ==>
      var g := r.1.value;
      g.syncType == SyncIdr &&
      g.rtpTimestamp <= next.rtpTimestamp && (next.rtpTimestamp > 0 ==> g.rtpTimestamp < next.rtpTimestamp) &&
      g.ntpTimestamp <= next.ntpTimestamp && (next.ntpTimestamp > 0 ==> g.ntpTimestamp < next.ntpTimestamp) &&
      g.ntpTimestampLocal <= next.ntpTimestampLocal && (next.ntpTimestampLocal > 0 ==> g.ntpTimestampLocal < next.ntpTimestampLocal) &&
      |g.parameterSets| <= res.auBufferSize.value && g.auSize == |g.parameterSets| + res.written.value &&
      1 <= |g.naluSizes| <= 3 && g.naluSizes[|g.naluSizes| - 1] == res.written.value &&
      (g.mbStatus.Some? <==> hasMap && res.mbBufferOk) &&
      (g.mbStatus.Some? ==> |g.mbStatus.value| == mbCount && forall k :: 0 <= k < mbCount ==> g.mbStatus.value[k] == MB_VALID_ISLICE)
  {
    if !res.contextOk || res.auBufferSize.None? then (-1, None, false)
    else
      var prefix := GrayParameterSets(filterOutSpsPps, sps, pps, res.auBufferSize.value);
      if res.freeNaluItems < |prefix.1| + 1 || res.written.None? then (-1, None, false)
      else if res.callback.None? then (-1, None, true)
      else
        var g := GrayIdrAu(SyncIdr, GuardedDecrement(next.rtpTimestamp, 90), GuardedDecrement(next.ntpTimestamp, 1000),
                           GuardedDecrement(next.ntpTimestampLocal, 1000), prefix.0, prefix.1 + [res.written.value],
                           |prefix.0| + res.written.value,
                           if hasMap && res.mbBufferOk then Some(seq(mbCount, _ => MB_VALID_ISLICE)) else None);
        (if res.callback.value then 0 else -1, Some(g), true)
  }

  /** The per-AU fields after the gray frame: ResetAu's values, except the eight fields OutputGrayIdrFrame saves. */
  function RestoredAu(saved: AuState): AuState {
    ResetAuState.(incomplete := saved.incomplete, slicesAllI := saved.slicesAllI,
                  streamingInfoAvailable := saved.streamingInfoAvailable, previousSliceIndex := saved.previousSliceIndex,
                  previousSliceFirstMb := saved.previousSliceFirstMb, currentSliceFirstMb := saved.currentSliceFirstMb,
                  isRef := saved.isRef, frameNum := saved.frameNum)
  }

  /**
   * The parsing state after the gray frame: the AU restored, the frame_num
   * of a reference AU passed on as the previous frame_num (by the first
   * ResetAu), and the previous slice type NON_VCL.
   */
  function AfterGrayFrame(p: (AuState, seq<int>, int, int, SliceType)): (AuState, seq<int>, int, int, SliceType) {
    (RestoredAu(p.0), p.1, p.2, if p.0.isRef then p.0.frameNum else p.3, SliceTypeNonVcl)
  }

  /**
   * With streaming information, the gray frame leaves the gap detection of
   * the AU in progress as it was: the gaps before a slice and at the end of
   * the frame only read fields it restores.
   */
  lemma GrayFrameKeepsStreamingGaps(a: AuState, table: seq<int>, inferredSliceMbCount: int, hasMap: bool, mbCount: int)
    requires a.streamingInfoAvailable
    ensures GapBeforeSlice(RestoredAu(a), table, inferredSliceMbCount, hasMap) == GapBeforeSlice(a, table, inferredSliceMbCount, hasMap)
    ensures GapAtEndOfFrame(RestoredAu(a), table, inferredSliceMbCount, hasMap, mbCount) ==
            GapAtEndOfFrame(a, table, inferredSliceMbCount, hasMap, mbCount)
  {
  }

  /**
   * The sync type is not among the saved fields: an IDR AU whose slices
   * are all I, in front of which the gray frame is output, is output as an
   * IFRAME rather than as an IDR.
   */
  lemma GrayFrameForgetsIdr(a: AuState)
    requires a.syncType == SyncIdr && a.slicesAllI
    ensures OutputSyncType(a.syncType, a.slicesAllI, a.streamingInfoAvailable, a.streamingInfo.indexInGop) == SyncIdr
    ensures var r := RestoredAu(a);
      OutputSyncType(r.syncType, r.slicesAllI, r.streamingInfoAvailable, r.streamingInfo.indexInGop) == SyncIFrame
  {
  }

  /** memcpy of a saved status map back into the current map. */
  method CopyMap(f: Filter, saved: seq<int>)
    requires f.Valid() && f.currentMap != null && |saved| == f.currentMap.Length
    requires forall k :: 0 <= k < |saved| ==> IsStatus(saved[k])
    modifies f.currentMap
    ensures f.Valid() && f.currentMap[..] == saved
  {
    var m := f.currentMap;
    for k := 0 to m.Length
      invariant forall j :: 0 <= j < m.Length ==> m[j] == if j < k then saved[j] else old(m[j])
    {
      m[k] := saved[k];
    }
    assert m[..] == saved;
  }

  /** The eight saved per-AU fields written back. */
  method RestoreFields(f: Filter, saved: AuState)
    requires f.Valid() && saved.previousSliceIndex >= -1 && saved.frameNum >= -1
    modifies f
    ensures f.Valid()
    ensures (f.Sync(), f.Callbacks(), f.Output(), f.currentMap, f.refMap) == old((f.Sync(), f.Callbacks(), f.Output(), f.currentMap, f.refMap))
    ensures f.Parsing() == old(f.Parsing()).(0 := old(f.au).(
      incomplete := saved.incomplete, slicesAllI := saved.slicesAllI,
      streamingInfoAvailable := saved.streamingInfoAvailable, previousSliceIndex := saved.previousSliceIndex,
      previousSliceFirstMb := saved.previousSliceFirstMb, currentSliceFirstMb := saved.currentSliceFirstMb,
      isRef := saved.isRef, frameNum := saved.frameNum))
  {
    f.au := f.au.(incomplete := saved.incomplete, slicesAllI := saved.slicesAllI,
                  streamingInfoAvailable := saved.streamingInfoAvailable, previousSliceIndex := saved.previousSliceIndex,
                  previousSliceFirstMb := saved.previousSliceFirstMb, currentSliceFirstMb := saved.currentSliceFirstMb,
                  isRef := saved.isRef, frameNum := saved.frameNum);
  }

  /**
   * ARSTREAM2_H264FilterError_OutputGrayIdrFrame: the result and the AU
   * handed to the callback are those of GrayFrame. Once the gray slice is
   * written, the AU context is saved, reset for the gray frame (the
   * current map all VALID_ISLICE), reset again and restored: the map comes
   * back unchanged and the parsing state is AfterGrayFrame's.
   */
  method OutputGrayIdrFrame(f: Filter, next: AuTimes, res: GrayResources) returns (ret: int, out: Option<GrayIdrAu>)
    requires f.Valid()
    modifies f, f.currentMap
    ensures f.Valid()
    ensures (f.Sync(), f.Callbacks(), f.Output(), f.currentMap, f.refMap) == old((f.Sync(), f.Callbacks(), f.Output(), f.currentMap, f.refMap))
    ensures f.currentMap != null ==> f.currentMap[..] == old(f.currentMap[..])
    ensures var g := GrayFrame(f.filterOutSpsPps, f.sps, f.pps, f.geometry.mbCount, f.currentMap != null, next, res);
      ret == g.0 && out == g.1 && f.Parsing() == if g.2 then AfterGrayFrame(old(f.Parsing())) else old(f.Parsing())
  {
    if !res.contextOk || res.auBufferSize.None? {
      return -1, None;
    }
    var prefix := GrayParameterSets(f.filterOutSpsPps, f.sps, f.pps, res.auBufferSize.value);
    if res.freeNaluItems < |prefix.1| + 1 || res.written.None? {
      return -1, None;
    }
    ret, out := GrayFrameRoundTrip(f, next, res, prefix);
  }

  /**
   * The AU context saved, reset for the gray frame, reset again and
   * restored around EmitGrayFrame.
   */
  method GrayFrameRoundTrip(f: Filter, next: AuTimes, res: GrayResources, prefix: (seq<byte>, seq<int>))
    returns (ret: int, out: Option<GrayIdrAu>)
    requires f.Valid() && res.written.Some?
    modifies f, f.currentMap
    ensures f.Valid()
    ensures (f.Sync(), f.Callbacks(), f.Output(), f.currentMap, f.refMap) == old((f.Sync(), f.Callbacks(), f.Output(), f.currentMap, f.refMap))
    ensures f.currentMap != null ==> f.currentMap[..] == old(f.currentMap[..])
    ensures f.Parsing() == AfterGrayFrame(old(f.Parsing()))
    ensures ret == (if res.callback == Some(true) then 0 else -1)
    ensures out == if res.callback.None? then None else
      Some(GrayIdrAu(SyncIdr, GuardedDecrement(next.rtpTimestamp, 90), GuardedDecrement(next.ntpTimestamp, 1000),
                     GuardedDecrement(next.ntpTimestampLocal, 1000), prefix.0, prefix.1 + [res.written.value],
                     |prefix.0| + res.written.value,
                     if f.currentMap != null && res.mbBufferOk then Some(seq(f.geometry.mbCount, _ => MB_VALID_ISLICE)) else None))
  {
    var saved := f.au;
    var savedMap: seq<int> := if f.currentMap != null then f.currentMap[..] else [];
    f.ResetAu();
    ret, out := EmitGrayFrame(f, next, res, prefix);
    f.ResetAu();
    RestoreFields(f, saved);
    if f.currentMap != null {
      CopyMap(f, savedMap);
    }
  }

  /**
   * The gray frame itself, once the gray slice is written: the current map
   * becomes all VALID_ISLICE and the AU goes to the callback when there is
   * one.
   */
  method EmitGrayFrame(f: Filter, next: AuTimes, res: GrayResources, prefix: (seq<byte>, seq<int>))
    returns (ret: int, out: Option<GrayIdrAu>)
    requires f.Valid() && res.written.Some?
    modifies f.currentMap
    ensures f.Valid()
    ensures f.currentMap != null ==> f.currentMap[..] == MarkedRange(old(f.currentMap[..]), 0, f.geometry.mbCount, MB_VALID_ISLICE)
    ensures ret == (if res.callback == Some(true) then 0 else -1)
    ensures out == if res.callback.None? then None else
      Some(GrayIdrAu(SyncIdr, GuardedDecrement(next.rtpTimestamp, 90), GuardedDecrement(next.ntpTimestamp, 1000),
                     GuardedDecrement(next.ntpTimestampLocal, 1000), prefix.0, prefix.1 + [res.written.value],
                     |prefix.0| + res.written.value,
                     if f.currentMap != null && res.mbBufferOk then Some(seq(f.geometry.mbCount, _ => MB_VALID_ISLICE)) else None))
  {
    var mbStatus: Option<seq<int>> := None;
    if f.currentMap != null {
      MarkRange(f, 0, f.geometry.mbCount, MB_VALID_ISLICE);
      if res.mbBufferOk {
        mbStatus := Some(f.currentMap[..]);
        assert f.currentMap[..] == seq(f.geometry.mbCount, _ => MB_VALID_ISLICE);
      }
    }
    ret, out := -1, None;
    if res.callback.Some? {
      out := Some(GrayIdrAu(SyncIdr, GuardedDecrement(next.rtpTimestamp, 90), GuardedDecrement(next.ntpTimestamp, 1000),
                            GuardedDecrement(next.ntpTimestampLocal, 1000), prefix.0, prefix.1 + [res.written.value],
                            |prefix.0| + res.written.value, mbStatus));
      ret := if res.callback.value then 0 else -1;
    }
  }
}
