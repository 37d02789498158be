/*
 * The `beavertool extract` command: it reads an H.264 elementary stream NAL
 * unit by NAL unit, cuts it into access units (on access unit delimiters,
 * on SEI NAL units, or on slices, whichever the stream has), collects the
 * Parrot user data SEI of each access unit (timestamps and frame index),
 * and writes one frame-info record per access unit.
 *
 * The NAL unit reader and parser are not part of this model: the stream is
 * given as the sequence of NAL units they deliver, each with whether
 * parsing succeeded and the user data SEI it carries already decoded.
 * Opening and writing files, the KML output and the PSNR and duration
 * figures (floating point) are left out.
 */
module BeaverTool {
  import opened CInt
  import BeaverWriter

  const NALU_TYPE_SLICE := 1
  const NALU_TYPE_IDR := 5
  const NALU_TYPE_SEI := 6
  const NALU_TYPE_AUD := 9

  const EXIT_SUCCESS := 0
  const EXIT_FAILURE := 1

  /** BEAVER_PARROT_USER_DATA_SEI_UNKNOWN. */
  const USER_DATA_SEI_UNKNOWN := 0

  // ---------------------------------------------------------------------------
  // Input

  /**
   * What a deserialised Parrot user data SEI gives the tool: the two halves
   * of the acquisition timestamp, those of the system timestamp when the
   * format has one (the extended and frame-info formats), and the frame index.
   */
  datatype Stamp = Stamp(acquisitionTsH: u32, acquisitionTsL: u32,
                         systemTs: Option<(u32, u32)>, frameIndex: u32)

  /**
   * One user data SEI of an SEI NAL unit: Unreadable when the parser cannot
   * hand it over; otherwise its type, and the stamp when the type is one
   * the tool knows and deserialising it succeeds.
   */
  datatype UserData = Unreadable | UserData(userDataType: int, decoded: Option<Stamp>)

  /** A NAL unit as read and parsed; its user data matter only for SEI NAL units. */
  datatype Nalu = Nalu(parsed: bool, naluType: int, size: u32, userData: seq<UserData>)

  /** One line of the frame-info file. */
  datatype AuRecord = AuRecord(userDataType: int, acquisitionTs: u64, systemTs: u64,
                               frameSize: u32, estimatedLostFrames: int)

  /** `((uint64_t)h << 32) + l`: a 64-bit timestamp from its two halves, which it gives back. */
  function Join64(h: u32, l: u32): (r: u64)
    ensures r / TWO_32 == h && r % TWO_32 == l
  {
    DivModUnique(h * TWO_32 + l, h, l, TWO_32);
    h * TWO_32 + l
  }

  function Acquisition(s: Stamp): u64
  {
    Join64(s.acquisitionTsH, s.acquisitionTsL)
  }

  /**
   * `estimatedLostFrames = frameIndex - previousFrameIndex - 1`: computed on
   * uint32 and stored in an int, so it is the difference read back as a
   * 32-bit two's-complement value.
   */
  function Gap(previous: u32, index: u32): (r: int)
    ensures -0x8000_0000 <= r < 0x8000_0000
    ensures U32(r) == U32(index - previous - 1)
  {
    I32(U32(index - previous - 1))
  }

  /** The gap is the plain difference whenever that fits in an int. */
  lemma GapExact(previous: u32, index: u32)
    requires -0x8000_0000 <= index - previous - 1 < 0x8000_0000
    ensures Gap(previous, index) == index - previous - 1
  {
    var d := index - previous - 1;
    if d < 0 {
      assert U32(d) == d + TWO_32;
    }
  }

  // ---------------------------------------------------------------------------
  // The extraction state and one step per NAL unit

  /**
   * The locals of BEAVER_ExtractFrameInfo that cut the stream into access
   * units, and the records written so far. frameCount counts the access
   * units written (the corrected counter); closings counts every time an
   * access unit is closed, which is the counter as written (see
   * FrameCountAsWrittenOvercounts).
   */
  datatype Segmenter = Segmenter(
    auPending: bool, audPresent: bool,
    frameSize: u32, frameSizeCumul: u32, frameCount: u32, closings: u32,
    records: seq<AuRecord>)

  /** The locals the user data SEI update: what the next record will say. */
  datatype FrameInfo = FrameInfo(
    userDataSeiPresent: bool, userDataType: int, acquisitionTs: u64, systemTs: u64,
    firstTs: u64, lastTs: u64, previousFrameIndex: u32, estimatedLostFrames: int)

  datatype Extraction = Extraction(seg: Segmenter, info: FrameInfo)

  const StartSegmenter := Segmenter(false, false, 0, 0, 0, 0, [])
  const StartInfo := FrameInfo(false, USER_DATA_SEI_UNKNOWN, 0, 0, 0, 0, 0, 0)
  const Start := Extraction(StartSegmenter, StartInfo)

  function Record(seg: Segmenter, info: FrameInfo): AuRecord
  {
    AuRecord(info.userDataType, info.acquisitionTs, info.systemTs, seg.frameSize, info.estimatedLostFrames)
  }

  /**
   * The block the three NAL unit kinds share: the pending access unit, if
   * any, is written; its size joins the total and a new one starts empty.
   */
  function Close(seg: Segmenter, info: FrameInfo): (r: Segmenter)
    ensures r.records == seg.records + (if seg.auPending then [Record(seg, info)] else [])
    ensures r.frameSize == 0 && r.frameSizeCumul == U32(seg.frameSizeCumul + seg.frameSize)
    ensures r.closings == U32(seg.closings + 1)
    ensures r.auPending == seg.auPending && r.audPresent == seg.audPresent
  {
    seg.(records := seg.records + (if seg.auPending then [Record(seg, info)] else []),
         frameSizeCumul := U32(seg.frameSizeCumul + seg.frameSize),
         frameCount := if seg.auPending then U32(seg.frameCount + 1) else seg.frameCount,
         closings := U32(seg.closings + 1),
         frameSize := 0)
  }

  /** A successfully deserialised user data SEI: timestamps and frame index are taken from it. */
  function TakeStamp(info: FrameInfo, s: Stamp): FrameInfo
  {
    var ts := Acquisition(s);
    info.(acquisitionTs := ts,
          firstTs := if ts != 0 && info.firstTs == 0 then ts else info.firstTs,
          lastTs := if ts != 0 then ts else info.lastTs,
          systemTs := if s.systemTs.Some? then Join64(s.systemTs.value.0, s.systemTs.value.1) else info.systemTs,
          estimatedLostFrames := if info.previousFrameIndex != 0 then Gap(info.previousFrameIndex, s.frameIndex)
                                 else info.estimatedLostFrames,
          previousFrameIndex := s.frameIndex)
  }

  /** One iteration of the loop over the user data SEI of an SEI NAL unit. */
  function Absorb(info: FrameInfo, u: UserData): FrameInfo
  {
    match u
    case Unreadable => info
    case UserData(t, d) =>
      var info' := info.(userDataSeiPresent := true, userDataType := t);
      if d.Some? then TakeStamp(info', d.value) else info'
  }

  function AbsorbAll(info: FrameInfo, us: seq<UserData>): FrameInfo
  {
    if |us| == 0 then info else Absorb(AbsorbAll(info, us[..|us| - 1]), us[|us| - 1])
  }

  /** What a NAL unit does to the access units, before its size is added. */
  function Segment(seg: Segmenter, info: FrameInfo, n: Nalu): Segmenter
  {
    if n.naluType == NALU_TYPE_AUD then Close(seg.(audPresent := true), info)
    else if n.naluType == NALU_TYPE_SEI then (if !seg.audPresent then Close(seg, info) else seg)
    else if n.naluType == NALU_TYPE_SLICE || n.naluType == NALU_TYPE_IDR then
      (if !seg.audPresent && !info.userDataSeiPresent then Close(seg, info) else seg).(auPending := true)
    else seg
  }

  /** One iteration of the NAL unit loop, for a NAL unit that parsed. */
  function Step(st: Extraction, n: Nalu): Extraction
  {
    var seg := Segment(st.seg, st.info, n);
    Extraction(seg.(frameSize := U32(seg.frameSize + n.size)),
               if n.naluType == NALU_TYPE_SEI then AbsorbAll(st.info, n.userData) else st.info)
  }

  /** The state after the loop has gone through the NAL units given. */
  function Run(ns: seq<Nalu>): Extraction
  {
    if |ns| == 0 then Start else Step(Run(ns[..|ns| - 1]), ns[|ns| - 1])
  }

  /** After the loop: the last access unit is written if one is pending. */
  function Finish(st: Extraction): Extraction
  {
    if st.seg.auPending then st.(seg := Close(st.seg, st.info)) else st
  }

  /** The index of the first NAL unit that fails to parse, or |ns|. */
  function FirstUnparsed(ns: seq<Nalu>): (k: nat)
    ensures k <= |ns| && (k < |ns| ==> !ns[k].parsed)
    ensures forall i | 0 <= i < k :: ns[i].parsed
  {
    if |ns| == 0 then 0 else if !ns[0].parsed then 0 else 1 + FirstUnparsed(ns[1..])
  }

  // ---------------------------------------------------------------------------
  // The extraction

  /**
   * BEAVER_ExtractFrameInfo: an empty input file name fails at once; a NAL
   * unit that does not parse stops the extraction with a failure and
   * without writing the pending access unit; otherwise the last pending
   * access unit is written and the extraction succeeds.
   */
  method ExtractFrameInfo(videoFile: string, ns: seq<Nalu>) returns (result: int, st: Extraction)
    ensures |videoFile| == 0 ==> result == EXIT_FAILURE && st == Start
    ensures |videoFile| > 0 && FirstUnparsed(ns) < |ns| ==>
              result == EXIT_FAILURE && st == Run(ns[..FirstUnparsed(ns)])
    ensures |videoFile| > 0 && FirstUnparsed(ns) == |ns| ==>
              result == EXIT_SUCCESS && st == Finish(Run(ns))
  {
    if |videoFile| == 0 {
      return EXIT_FAILURE, Start;
    }
    var seg, info := StartSegmenter, StartInfo;
    var i := 0;
    while i < |ns|
      invariant 0 <= i <= |ns| && i <= FirstUnparsed(ns)
      invariant Extraction(seg, info) == Run(ns[..i])
    {
      var n := ns[i];
      if !n.parsed {
        return EXIT_FAILURE, Extraction(seg, info);
      }
      seg, info := ProcessNalu(seg, info, n);
      assert ns[..i + 1][..i] == ns[..i];
      i := i + 1;
    }
    assert ns[..i] == ns;
    if seg.auPending {
      seg := Close(seg, info);
    }
    return EXIT_SUCCESS, Extraction(seg, info);
  }

  /** The body of the NAL unit loop for a NAL unit that parsed. */
  method ProcessNalu(seg0: Segmenter, info0: FrameInfo, n: Nalu) returns (seg: Segmenter, info: FrameInfo)
    ensures seg == Step(Extraction(seg0, info0), n).seg
    ensures info == Step(Extraction(seg0, info0), n).info
  {
    seg, info := seg0, info0;
    if n.naluType == NALU_TYPE_AUD {
      seg := Close(seg.(audPresent := true), info);
    } else if n.naluType == NALU_TYPE_SEI {
      if !seg.audPresent {
        seg := Close(seg, info);
      }
      info := AbsorbUserData(info, n.userData);
    } else if n.naluType == NALU_TYPE_SLICE || n.naluType == NALU_TYPE_IDR {
      if !seg.audPresent && !info.userDataSeiPresent {
        seg := Close(seg, info);
      }
      seg := seg.(auPending := true);
    }
    assert seg == Segment(seg0, info0, n);
    seg := seg.(frameSize := U32(seg.frameSize + n.size));
  }

  /** The loop over the user data SEI of one SEI NAL unit. */
  method AbsorbUserData(info0: FrameInfo, us: seq<UserData>) returns (info: FrameInfo)
    ensures info == AbsorbAll(info0, us)
  {
    info := info0;
    for i := 0 to |us|
      invariant info == AbsorbAll(info0, us[..i])
    {
      assert us[..i + 1][..i] == us[..i];
      match us[i]
      case Unreadable =>
      case UserData(t, d) =>
        info := info.(userDataSeiPresent := true, userDataType := t);
        if d.Some? {
          info := TakeStamp(info, d.value);
        }
    }
    assert us[..|us|] == us;
  }

  // ---------------------------------------------------------------------------
  // Byte accounting: every NAL unit's size is counted once

  function TotalSize(ns: seq<Nalu>): int
  {
    if |ns| == 0 then 0 else TotalSize(ns[..|ns| - 1]) + ns[|ns| - 1].size
  }

  lemma U32Add(a: int, b: int)
    ensures U32(U32(a) + b) == U32(a + b)
  {
    var q := a / TWO_32;
    assert a == q * TWO_32 + U32(a);
    var r := U32(a) + b;
    assert a + b == q * TWO_32 + r;
    DivModUnique(a + b, q + r / TWO_32, r % TWO_32, TWO_32);
    DivModUnique(r, r / TWO_32, r % TWO_32, TWO_32);
  }

  /** Segmenting moves sizes from the access unit under way to the total and never loses any. */
  lemma SegmentKeepsSum(seg: Segmenter, info: FrameInfo, n: Nalu)
    ensures var r := Segment(seg, info, n);
      U32(r.frameSizeCumul + r.frameSize) == U32(seg.frameSizeCumul + seg.frameSize)
  {
    U32Add(seg.frameSizeCumul + seg.frameSize, 0);
  }

  /**
   * What has been written to the total plus the access unit under way is
   * the size of all the NAL units read (modulo 2^32, the width of the counters).
   */
  lemma {:induction false} SizesAccounted(ns: seq<Nalu>)
    ensures U32(Run(ns).seg.frameSizeCumul + Run(ns).seg.frameSize) == U32(TotalSize(ns))
  {
    if |ns| > 0 {
      var p := ns[..|ns| - 1];
      var n := ns[|ns| - 1];
      SizesAccounted(p);
      var seg := Segment(Run(p).seg, Run(p).info, n);
      SegmentKeepsSum(Run(p).seg, Run(p).info, n);
      assert Run(ns).seg.frameSizeCumul == seg.frameSizeCumul;
      assert Run(ns).seg.frameSize == U32(seg.frameSize + n.size);
      AddToSum(seg.frameSizeCumul, seg.frameSize, TotalSize(p), n.size);
    }
  }

  /** Adding a NAL unit's size to the access unit under way adds it to the sum. */
  lemma AddToSum(c: int, f: int, total: int, size: int)
    requires U32(c + f) == U32(total)
    ensures U32(c + U32(f + size)) == U32(total + size)
  {
    calc {
      U32(c + U32(f + size));
      { U32Add(f + size, c); }
      U32(c + f + size);
      { U32Add(c + f, size); }
      U32(U32(c + f) + size);
      { U32Add(total, size); }
      U32(total + size);
    }
  }

  /** Once the last access unit is written, the total is the size of the whole stream. */
  lemma FinishCountsAllBytes(ns: seq<Nalu>)
    requires Run(ns).seg.auPending
    ensures Finish(Run(ns)).seg.frameSizeCumul == U32(TotalSize(ns))
  {
    SizesAccounted(ns);
  }

  // ---------------------------------------------------------------------------
  // Timestamps and frame indexes

  /** The stamp a user data SEI gives, if any. */
  function StampOf(u: UserData): seq<Stamp>
  {
    if u.UserData? && u.decoded.Some? then [u.decoded.value] else []
  }

  /** The stamps the tool takes, in order: those of the user data SEI of SEI NAL units. */
  function SeiStamps(us: seq<UserData>): seq<Stamp>
  {
    if |us| == 0 then [] else SeiStamps(us[..|us| - 1]) + StampOf(us[|us| - 1])
  }

  function Stamps(ns: seq<Nalu>): seq<Stamp>
  {
    if |ns| == 0 then []
    else Stamps(ns[..|ns| - 1]) +
         (if ns[|ns| - 1].naluType == NALU_TYPE_SEI then SeiStamps(ns[|ns| - 1].userData) else [])
  }

  /** The first nonzero acquisition timestamp, or 0. */
  function FirstTs(h: seq<Stamp>): (r: u64)
    ensures r == 0 <==> forall i | 0 <= i < |h| :: Acquisition(h[i]) == 0
  {
    if |h| == 0 then 0 else if Acquisition(h[0]) != 0 then Acquisition(h[0]) else FirstTs(h[1..])
  }

  /** The latest nonzero acquisition timestamp, or 0. */
  function LastTs(h: seq<Stamp>): (r: u64)
    ensures r == 0 <==> forall i | 0 <= i < |h| :: Acquisition(h[i]) == 0
  {
    if |h| == 0 then 0
    else if Acquisition(h[|h| - 1]) != 0 then Acquisition(h[|h| - 1])
    else LastTs(h[..|h| - 1])
  }

  /** The frame index of the latest stamp, or 0. */
  function LastIndex(h: seq<Stamp>): u32
  {
    if |h| == 0 then 0 else h[|h| - 1].frameIndex
  }

  /** The gap across the latest two consecutive stamps whose earlier frame index is nonzero, or 0. */
  function Lost(h: seq<Stamp>): int
  {
    if |h| < 2 then 0
    else if h[|h| - 2].frameIndex != 0 then Gap(h[|h| - 2].frameIndex, h[|h| - 1].frameIndex)
    else Lost(h[..|h| - 1])
  }

  lemma {:induction false} FirstTsSnoc(h: seq<Stamp>, s: Stamp)
    ensures FirstTs(h + [s]) == if FirstTs(h) != 0 then FirstTs(h) else Acquisition(s)
  {
    if |h| > 0 {
      assert (h + [s])[1..] == h[1..] + [s];
      FirstTsSnoc(h[1..], s);
    }
  }

  /** The timestamps and frame index the state holds are those of the stamps taken. */
  predicate Tracks(info: FrameInfo, h: seq<Stamp>)
  {
    info.firstTs == FirstTs(h) && info.lastTs == LastTs(h) &&
    info.previousFrameIndex == LastIndex(h) && info.estimatedLostFrames == Lost(h)
  }

  lemma TakeStampTracks(info: FrameInfo, h: seq<Stamp>, s: Stamp)
    requires Tracks(info, h)
    ensures Tracks(TakeStamp(info, s), h + [s])
  {
    FirstTsSnoc(h, s);
    assert (h + [s])[..|h|] == h;
    if |h| == 0 {
      assert Lost(h + [s]) == 0;
    }
  }

  lemma {:induction false} AbsorbAllTracks(info: FrameInfo, h: seq<Stamp>, us: seq<UserData>)
    requires Tracks(info, h)
    ensures Tracks(AbsorbAll(info, us), h + SeiStamps(us))
  {
    if |us| > 0 {
      var init := us[..|us| - 1];
      var u := us[|us| - 1];
      AbsorbAllTracks(info, h, init);
      var h' := h + SeiStamps(init);
      assert h + SeiStamps(us) == h' + StampOf(u);
      var prev := AbsorbAll(info, init);
      assert AbsorbAll(info, us) == Absorb(prev, u);
      if u.UserData? && u.decoded.Some? {
        var marked := prev.(userDataSeiPresent := true, userDataType := u.userDataType);
        assert Tracks(marked, h');
        TakeStampTracks(marked, h', u.decoded.value);
        assert Absorb(prev, u) == TakeStamp(marked, u.decoded.value);
      } else {
        assert h' + StampOf(u) == h';
        assert Absorb(prev, u).firstTs == prev.firstTs && Absorb(prev, u).lastTs == prev.lastTs;
        assert Absorb(prev, u).previousFrameIndex == prev.previousFrameIndex;
        assert Absorb(prev, u).estimatedLostFrames == prev.estimatedLostFrames;
      }
    } else {
      assert h + SeiStamps(us) == h;
    }
  }

  /**
   * firstTs is the first nonzero acquisition timestamp of the stream and
   * lastTs the latest nonzero one; previousFrameIndex is the latest frame
   * index and estimatedLostFrames the gap across the latest pair of frame
   * indexes whose earlier one is nonzero.
   */
  lemma {:induction false} TimestampsTracked(ns: seq<Nalu>)
    ensures Tracks(Run(ns).info, Stamps(ns))
  {
    if |ns| > 0 {
      var p := ns[..|ns| - 1];
      var n := ns[|ns| - 1];
      TimestampsTracked(p);
      if n.naluType == NALU_TYPE_SEI {
        AbsorbAllTracks(Run(p).info, Stamps(p), n.userData);
      } else {
        assert Stamps(ns) == Stamps(p);
      }
    }
  }

  // ---------------------------------------------------------------------------
  // Access unit segmentation

  predicate IsSlice(n: Nalu)
  {
    n.naluType == NALU_TYPE_SLICE || n.naluType == NALU_TYPE_IDR
  }

  predicate HasSlice(ns: seq<Nalu>)
  {
    exists i | 0 <= i < |ns| :: IsSlice(ns[i])
  }

  /** The access unit delimiters that come after some slice. */
  function AudsAfterSlice(ns: seq<Nalu>): nat
  {
    if |ns| == 0 then 0
    else AudsAfterSlice(ns[..|ns| - 1]) +
         (if ns[|ns| - 1].naluType == NALU_TYPE_AUD && HasSlice(ns[..|ns| - 1]) then 1 else 0)
  }

  lemma HasSliceSnoc(ns: seq<Nalu>)
    requires |ns| > 0
    ensures HasSlice(ns) <==> HasSlice(ns[..|ns| - 1]) || IsSlice(ns[|ns| - 1])
  {
    var p := ns[..|ns| - 1];
    if HasSlice(ns) && !IsSlice(ns[|ns| - 1]) {
      var i :| 0 <= i < |ns| && IsSlice(ns[i]);
      assert p[i] == ns[i];
    }
    if HasSlice(p) {
      var i :| 0 <= i < |p| && IsSlice(p[i]);
      assert ns[i] == p[i];
    }
  }

  /**
   * In a stream that starts with an access unit delimiter only delimiters
   * close access units: after the first slice every delimiter writes one
   * record, and a pending access unit stays until the end.
   */
  lemma {:induction false} AudStreamPrefix(ns: seq<Nalu>)
    requires |ns| > 0 && ns[0].naluType == NALU_TYPE_AUD
    ensures Run(ns).seg.audPresent && Run(ns).seg.auPending == HasSlice(ns)
    ensures |Run(ns).seg.records| == AudsAfterSlice(ns)
  {
    var p := ns[..|ns| - 1];
    HasSliceSnoc(ns);
    if |ns| == 1 {
      assert !HasSlice(p);
    } else {
      assert p[0] == ns[0];
      AudStreamPrefix(p);
    }
  }

  /** The records of a stream that starts with a delimiter: one per delimiter after the first slice, plus the last. */
  lemma AudStreamRecords(ns: seq<Nalu>)
    requires |ns| > 0 && ns[0].naluType == NALU_TYPE_AUD
    ensures |Finish(Run(ns)).seg.records| == AudsAfterSlice(ns) + (if HasSlice(ns) then 1 else 0)
  {
    AudStreamPrefix(ns);
  }

  /** Closing an access unit counts a frame exactly when it writes a record. */
  lemma CloseCounts(seg: Segmenter, info: FrameInfo)
    requires seg.frameCount == U32(|seg.records|)
    ensures Close(seg, info).frameCount == U32(|Close(seg, info).records|)
  {
    U32Succ(|seg.records|);
  }

  lemma SegmentCounts(seg: Segmenter, info: FrameInfo, n: Nalu)
    requires seg.frameCount == U32(|seg.records|)
    ensures Segment(seg, info, n).frameCount == U32(|Segment(seg, info, n).records|)
  {
    CloseCounts(seg, info);
    CloseCounts(seg.(audPresent := true), info);
  }

  /** The frame counter counts the records written, modulo 2^32. */
  lemma {:induction false} FrameCountCountsRecords(ns: seq<Nalu>)
    ensures Run(ns).seg.frameCount == U32(|Run(ns).seg.records|)
    ensures Finish(Run(ns)).seg.frameCount == U32(|Finish(Run(ns)).seg.records|)
  {
    if |ns| > 0 {
      var p := ns[..|ns| - 1];
      FrameCountCountsRecords(p);
      SegmentCounts(Run(p).seg, Run(p).info, ns[|ns| - 1]);
    }
    CloseCounts(Run(ns).seg, Run(ns).info);
  }

  /** The counter as written: it goes up every time an access unit is closed. */
  function FrameCountAsWritten(ns: seq<Nalu>): (r: u32)
    ensures r == Finish(Run(ns)).seg.closings
  {
    Finish(Run(ns)).seg.closings
  }

  /**
   * As written, the first delimiter closes an access unit that was never
   * opened: a delimiter and one slice give a frame count of 2 for the one
   * record written.
   */
  lemma FrameCountAsWrittenOvercounts()
    ensures var ns := [Nalu(true, NALU_TYPE_AUD, 6, []), Nalu(true, NALU_TYPE_SLICE, 1000, [])];
      FrameCountAsWritten(ns) == 2 && |Finish(Run(ns)).seg.records| == 1 &&
      Finish(Run(ns)).seg.frameCount == 1
  {
    var ns := [Nalu(true, NALU_TYPE_AUD, 6, []), Nalu(true, NALU_TYPE_SLICE, 1000, [])];
    assert ns[..1] == [ns[0]] && ns[..1][..0] == [];
    assert Run(ns[..1]) == Step(Start, ns[0]);
    var c := Close(StartSegmenter.(audPresent := true), StartInfo);
    assert Segment(StartSegmenter, StartInfo, ns[0]) == c;
    assert c.closings == 1 && c.records == [] && c.frameCount == 0;
    var s1 := Run(ns[..1]).seg;
    assert s1.closings == 1 && s1.records == [] && s1.frameCount == 0 && s1.audPresent;
    var s2 := Run(ns).seg;
    assert s2.closings == 1 && s2.auPending && s2.records == [] && s2.frameCount == 0;
  }

  // ---------------------------------------------------------------------------
  // Command line

  /** strncmp(a, b, n) == 0 on NUL-free strings: the first n characters agree, a shorter string ending early. */
  predicate StrncmpEqual(a: string, b: string, n: nat)
  {
    if n == 0 then true
    else if |a| == 0 || |b| == 0 then |a| == |b|
    else a[0] == b[0] && StrncmpEqual(a[1..], b[1..], n - 1)
  }

  /** strncmp against a string of length n accepts exactly the strings that begin with it. */
  lemma {:induction false} StrncmpPrefix(a: string, b: string, n: nat)
    requires |b| == n
    ensures StrncmpEqual(a, b, n) <==> |a| >= n && a[..n] == b
  {
    if n > 0 && |a| > 0 {
      StrncmpPrefix(a[1..], b[1..], n - 1);
      if |a| >= n {
        assert a[..n] == [a[0]] + a[1..][..n - 1];
        assert b == [b[0]] + b[1..];
      }
    }
  }

  datatype Command = Usage | Extract(videoFile: string, frameInfoFile: string, kmlFile: Option<string>)

  /**
   * main's argument checks: a command is needed, and it must begin with
   * "extract" (the comparison is over 7 characters), followed by the video
   * and frame-info file names and, optionally, the KML file name.
   */
  function ParseArgs(args: seq<string>): (r: Command)
    ensures r.Extract? <==> |args| >= 4 && |args[1]| >= 7 && args[1][..7] == "extract"
    ensures r.Extract? ==> r.videoFile == args[2] && r.frameInfoFile == args[3] &&
                           r.kmlFile == (if |args| >= 5 then Some(args[4]) else None)
  {
    if |args| < 2 then Usage
    else
      StrncmpPrefix(args[1], "extract", 7);
      if !StrncmpEqual(args[1], "extract", 7) then Usage
    else if |args| < 4 then Usage
    else Extract(args[2], args[3], if |args| >= 5 then Some(args[4]) else None)
  }

  /** The tool's exit status: a usage error fails, an extraction returns its own status. */
  method RunTool(args: seq<string>, ns: seq<Nalu>) returns (status: int)
    ensures ParseArgs(args).Usage? ==> status == EXIT_FAILURE
    ensures ParseArgs(args).Extract? ==>
              status == (if |args[2]| > 0 && FirstUnparsed(ns) == |ns| then EXIT_SUCCESS else EXIT_FAILURE)
  {
    var cmd := ParseArgs(args);
    if cmd.Usage? {
      return EXIT_FAILURE;
    }
    var st;
    status, st := ExtractFrameInfo(cmd.videoFile, ns);
  }
}
