/*
 * beaver_frameinfo.py: the frame information file (one line per frame the
 * drone captured) read into per-frame lists. A line is kept only when its
 * acquisition timestamp is later than that of every line kept before it;
 * the others are reported and skipped. The count of frames lost before
 * each one comes from its own column when the file has one, and is
 * otherwise worked out from the gap between consecutive frame indices.
 *
 * Of the file's columns the model keeps the acquisition timestamp, the
 * frame index, the system timestamp, the frame size and the lost-frame
 * estimate.
 */
module BeaverFrameInfo {
  import opened CInt
  import opened StatFile

  /** The integer columns read on a kept line, besides acquisitionTs. */
  const FIELD_KEYS := ["frameIndex", "systemTs", "frameSize", "estimatedLostFrames"]

  /**
   * The other integer columns a kept line is read for: their values are
   * appended as read and not used further here, but int() raises on them
   * like on the others.
   */
  const OTHER_INT_KEYS := [
    "batteryPercentage", "videoStreamingTargetBitrate", "videoStreamingGopLength",
    "videoStreamingPrevFrameType", "videoStreamingPrevFrameSize", "videoRecordingPrevFrameType",
    "videoRecordingPrevFrameSize", "wifiRssi", "wifiMcsRate", "wifiTxRate", "wifiRxRate",
    "wifiTxFailRate", "wifiTxErrorRate", "wifiTxFailEventCount", "preReprojTimestampDelta",
    "postReprojTimestampDelta", "postEeTimestampDelta", "postScalingTimestampDelta",
    "postStreamingEncodingTimestampDelta", "postRecordingEncodingTimestampDelta",
    "postNetworkInputTimestampDelta", "streamingSrcMonitorTimeInterval",
    "streamingSrcMeanAcqToNetworkTime", "streamingSrcAcqToNetworkJitter", "streamingSrcMeanNetworkTime",
    "streamingSrcNetworkJitter", "streamingSrcBytesSent", "streamingSrcMeanPacketSize",
    "streamingSrcPacketSizeStdDev", "streamingSrcPacketsSent", "streamingSrcBytesDropped",
    "streamingSrcNaluDropped", "commandsMaxTimeDeltaOnLastSec", "lastCommandTimeDelta",
    "lastCommandPsiValue", "acquisitionTsShifted", "beaverFirstNaluInputTime", "beaverAuOutputTime"]

  /** The column dictionary holds every name the model reads. */
  predicate Known(columns: map<string, int>)
  {
    "acquisitionTs" in columns && "frameIndex" in columns && "systemTs" in columns &&
    "frameSize" in columns && "estimatedLostFrames" in columns &&
    forall k :: k in OTHER_INT_KEYS ==> k in columns
  }

  /** The file has an estimatedLostFrames column. */
  function HasLostColumn(columns: map<string, int>): bool
    requires Known(columns)
  {
    columns["estimatedLostFrames"] >= 0
  }

  /** The other integer fields of a line. */
  datatype FrameFields = FrameFields(frameIndex: int, systemTs: int, frameSize: int, estimatedLostFrames: int)

  /**
   * One line: its acquisition timestamp, and its other fields or None when
   * one of them is not a number (which only matters if the line is kept).
   */
  datatype FrameLine = FrameLine(acquisitionTs: int, fields: Option<FrameFields>)

  /** A line as the loop reads it: None when its acquisition timestamp is not a number. */
  function ParseLine(columns: map<string, int>, line: string): Option<FrameLine>
    requires Known(columns)
  {
    var row := Fields(line);
    var acq := GetIntVal(columns, row, "acquisitionTs");
    var vals := IntVals(columns, row, FIELD_KEYS);
    var others := IntVals(columns, row, OTHER_INT_KEYS);
    if acq.None? then None
    else if vals.None? || others.None? then Some(FrameLine(acq.value, None))
    else Some(FrameLine(acq.value, Some(FrameFields(vals.value[0], vals.value[1], vals.value[2], vals.value[3]))))
  }

  /** The values, or None when one of them is missing. */
  function Collect<T>(xs: seq<Option<T>>): (r: Option<seq<T>>)
    ensures r.Some? ==> |r.value| == |xs| && forall i :: 0 <= i < |xs| ==> xs[i] == Some(r.value[i])
    ensures r.None? <==> exists i :: 0 <= i < |xs| && xs[i].None?
  {
    if xs == [] then Some([])
    else
      var init := Collect(xs[..|xs| - 1]);
      var x := xs[|xs| - 1];
      assert forall i :: 0 <= i < |xs| - 1 ==> xs[..|xs| - 1][i] == xs[i];
      if init.None? || x.None? then None
      else Some(init.value + [x.value])
  }

  /** Each line as the loop reads it. */
  function Parses(columns: map<string, int>, lines: seq<Line>): (r: seq<Option<FrameLine>>)
    requires Known(columns)
    ensures |r| == |lines|
  {
    seq(|lines|, i requires 0 <= i < |lines| => ParseLine(columns, lines[i]))
  }

  /** Every line parsed, or None when some line's acquisition timestamp is not a number. */
  function ParseAll(columns: map<string, int>, lines: seq<Line>): (r: Option<seq<FrameLine>>)
    requires Known(columns)
    ensures r.Some? ==> |r.value| == |lines|
  {
    Collect(Parses(columns, lines))
  }

  /** Each parsed line is the parse of its own line, and parsing fails exactly on a failing line. */
  lemma ParsedLines(columns: map<string, int>, lines: seq<Line>)
    requires Known(columns)
    ensures var r := ParseAll(columns, lines);
      (r.Some? ==> forall i :: 0 <= i < |lines| ==> ParseLine(columns, lines[i]) == Some(r.value[i])) &&
      (r.None? <==> exists i :: 0 <= i < |lines| && ParseLine(columns, lines[i]).None?)
  {
    var ps := Parses(columns, lines);
    assert forall i :: 0 <= i < |lines| ==> ps[i] == ParseLine(columns, lines[i]);
  }

  /** The loop's variables that reach the lists: prevTime and prevIndex (refTime is set but never read). */
  datatype FrameVars = FrameVars(prevTime: int, prevIndex: int)

  const Init := FrameVars(0, 0)

  /** What a kept line appends to each list. */
  datatype FrameEntry = FrameEntry(frameTime: real, frameIndex: int, acquisitionTs: int, systemTs: int,
                                   frameSize: int, estimatedLostFrames: int)

  datatype FrameData = FrameData(frameTime: seq<real>, frameIndex: seq<int>, acquisitionTs: seq<int>,
                                 systemTs: seq<int>, frameSize: seq<int>, estimatedLostFrames: seq<int>)

  const NoData := FrameData([], [], [], [], [], [])

  /** Every list has n entries. */
  predicate Aligned(d: FrameData, n: nat)
  {
    |d.frameTime| == |d.frameIndex| == |d.acquisitionTs| == |d.systemTs| == |d.frameSize| ==
    |d.estimatedLostFrames| == n
  }

  function Append(d: FrameData, e: FrameEntry): FrameData
  {
    FrameData(d.frameTime + [e.frameTime], d.frameIndex + [e.frameIndex], d.acquisitionTs + [e.acquisitionTs],
              d.systemTs + [e.systemTs], d.frameSize + [e.frameSize], d.estimatedLostFrames + [e.estimatedLostFrames])
  }

  /** Microseconds to seconds. */
  function Seconds(us: int): real
  {
    us as real / 1000000.0
  }

  /** The line is kept: its timestamp is later than prevTime. */
  predicate Kept(v: FrameVars, l: FrameLine)
  {
    l.acquisitionTs > v.prevTime
  }

  /** The loop raises on the line: it is kept but one of its other fields is not a number. */
  predicate Fails(v: FrameVars, l: FrameLine)
  {
    Kept(v, l) && l.fields.None?
  }

  /** The estimate of frames lost before a kept frame. */
  function LostFrames(v: FrameVars, f: FrameFields, hasColumn: bool): int
  {
    if hasColumn then f.estimatedLostFrames
    else if v.prevIndex > 0 then f.frameIndex - v.prevIndex - 1
    else 0
  }

  /** The loop's variables after a line it does not raise on. */
  function Next(v: FrameVars, l: FrameLine): FrameVars
    requires !Fails(v, l)
  {
    if Kept(v, l) then FrameVars(l.acquisitionTs, l.fields.value.frameIndex) else v
  }

  /** What the loop body appends for a kept line. */
  function Entry(v: FrameVars, l: FrameLine, hasColumn: bool): FrameEntry
    requires l.fields.Some?
  {
    var f := l.fields.value;
    FrameEntry(Seconds(l.acquisitionTs), f.frameIndex, l.acquisitionTs, f.systemTs, f.frameSize,
               LostFrames(v, f, hasColumn))
  }

  /** The lists after a line the loop does not raise on. */
  function AppendKept(v: FrameVars, d: FrameData, l: FrameLine, hasColumn: bool): FrameData
    requires !Fails(v, l)
  {
    if Kept(v, l) then Append(d, Entry(v, l, hasColumn)) else d
  }

  /** The variables and lists after the loop has read the lines, or None when it raises. */
  function Accumulate(ls: seq<FrameLine>, hasColumn: bool): (r: Option<(FrameVars, FrameData)>)
    ensures r.Some? ==> Aligned(r.value.1, |r.value.1.frameTime|)
  {
    if ls == [] then Some((Init, NoData))
    else
      var p := Accumulate(ls[..|ls| - 1], hasColumn);
      var l := ls[|ls| - 1];
      if p.None? || Fails(p.value.0, l) then None
      else Some((Next(p.value.0, l), AppendKept(p.value.0, p.value.1, l, hasColumn)))
  }

  // ---------------------------------------------------------------------------
  // A reference: the lines that set a new maximum

  /** The latest timestamp among the lines, or 0. */
  function MaxTs(ls: seq<FrameLine>): (r: int)
    ensures r >= 0 && forall i :: 0 <= i < |ls| ==> ls[i].acquisitionTs <= r
  {
    if ls == [] then 0
    else
      var m := MaxTs(ls[..|ls| - 1]);
      var r := if ls[|ls| - 1].acquisitionTs > m then ls[|ls| - 1].acquisitionTs else m;
      assert forall i :: 0 <= i < |ls| - 1 ==> ls[i] == ls[..|ls| - 1][i];
      r
  }

  /** The lines whose timestamp is later than every earlier one and than 0, in order. */
  function Highs(ls: seq<FrameLine>): seq<FrameLine>
  {
    if ls == [] then []
    else
      var init := ls[..|ls| - 1];
      Highs(init) + if ls[|ls| - 1].acquisitionTs > MaxTs(init) then [ls[|ls| - 1]] else []
  }

  /** The record-setting lines have strictly increasing, positive timestamps; the last holds the maximum. */
  lemma {:induction false} HighsIncrease(ls: seq<FrameLine>)
    ensures var h := Highs(ls);
      (h == [] <==> MaxTs(ls) == 0) &&
      (h != [] ==> h[|h| - 1].acquisitionTs == MaxTs(ls)) &&
      forall j :: 0 <= j < |h| ==> h[j].acquisitionTs > 0 && (j > 0 ==> h[j - 1].acquisitionTs < h[j].acquisitionTs)
  {
    if ls != [] {
      HighsIncrease(ls[..|ls| - 1]);
    }
  }

  /** Every line of the file is a record-setting line or is not later than an earlier one (or than 0). */
  lemma SkippedAreLate(ls: seq<FrameLine>, i: nat)
    requires i < |ls| && ls[i].acquisitionTs <= MaxTs(ls[..i])
    ensures ls[i].acquisitionTs <= 0 || exists j :: 0 <= j < i && ls[i].acquisitionTs <= ls[j].acquisitionTs
  {
    MaxIsSome(ls[..i]);
    if MaxTs(ls[..i]) > 0 {
      var j :| 0 <= j < i && ls[..i][j].acquisitionTs == MaxTs(ls[..i]);
      assert ls[j] == ls[..i][j];
    }
  }

  lemma {:induction false} MaxIsSome(ls: seq<FrameLine>)
    ensures MaxTs(ls) == 0 || exists j :: 0 <= j < |ls| && ls[j].acquisitionTs == MaxTs(ls)
  {
    if ls != [] {
      var init := ls[..|ls| - 1];
      MaxIsSome(init);
      if MaxTs(ls) != 0 && MaxTs(ls) == MaxTs(init) {
        var j :| 0 <= j < |init| && init[j].acquisitionTs == MaxTs(init);
        assert ls[j] == init[j];
      }
    }
  }

  // ---------------------------------------------------------------------------
  // What the loop computes, against the reference

  /** The loop keeps exactly the record-setting lines, in order, and prevTime is the maximum. */
  lemma {:induction false} KeepsHighs(ls: seq<FrameLine>, hasColumn: bool)
    requires Accumulate(ls, hasColumn).Some?
    ensures var r := Accumulate(ls, hasColumn).value; var h := Highs(ls);
      r.0.prevTime == MaxTs(ls) && |r.1.acquisitionTs| == |h| &&
      (forall k :: 0 <= k < |h| ==>
        h[k].fields.Some? &&
        r.1.acquisitionTs[k] == h[k].acquisitionTs && r.1.frameTime[k] == Seconds(h[k].acquisitionTs) &&
        r.1.frameIndex[k] == h[k].fields.value.frameIndex && r.1.systemTs[k] == h[k].fields.value.systemTs &&
        r.1.frameSize[k] == h[k].fields.value.frameSize) &&
      r.0.prevIndex == (if h == [] then 0 else r.1.frameIndex[|h| - 1])
  {
    if ls != [] {
      var init := ls[..|ls| - 1];
      KeepsHighs(init, hasColumn);
    }
  }

  /**
   * The loop raises exactly when a record-setting line has a field that
   * is not a number.
   */
  lemma {:induction false} FailsOnHigh(ls: seq<FrameLine>, hasColumn: bool)
    ensures Accumulate(ls, hasColumn).None? <==>
      exists i :: 0 <= i < |ls| && ls[i].acquisitionTs > MaxTs(ls[..i]) && ls[i].fields.None?
  {
    if ls != [] {
      var init := ls[..|ls| - 1];
      FailsOnHigh(init, hasColumn);
      if Accumulate(init, hasColumn).None? {
        var i :| 0 <= i < |init| && init[i].acquisitionTs > MaxTs(init[..i]) && init[i].fields.None?;
        assert init[i] == ls[i] && init[..i] == ls[..i];
      } else {
        var v := Accumulate(init, hasColumn).value.0;
        var last := ls[|init|];
        KeepsHighs(init, hasColumn);
        assert ls[..|init|] == init;
        assert v.prevTime == MaxTs(ls[..|init|]);
        if Accumulate(ls, hasColumn).None? {
          assert Fails(v, last);
          assert last.acquisitionTs > MaxTs(ls[..|init|]) && last.fields.None?;
        } else {
          assert !Fails(v, last);
          forall i | 0 <= i < |ls|
            ensures !(ls[i].acquisitionTs > MaxTs(ls[..i]) && ls[i].fields.None?)
          {
            if i < |init| {
              assert init[i] == ls[i] && init[..i] == ls[..i];
            }
          }
        }
      }
    }
  }

  /** The kept timestamps strictly increase and are all positive. */
  lemma KeptIncrease(ls: seq<FrameLine>, hasColumn: bool)
    requires Accumulate(ls, hasColumn).Some?
    ensures var a := Accumulate(ls, hasColumn).value.1.acquisitionTs;
      forall k :: 0 <= k < |a| ==> a[k] > 0 && (k > 0 ==> a[k - 1] < a[k])
  {
    KeepsHighs(ls, hasColumn);
    HighsIncrease(ls);
  }

  /**
   * With an estimatedLostFrames column the estimate is the column's value;
   * without, it is the gap between the frame's index and the previous
   * kept frame's, less one, or 0 for the first kept frame and after a
   * frame whose index is not positive.
   */
  lemma {:induction false} LostFramesEstimate(ls: seq<FrameLine>, hasColumn: bool)
    requires Accumulate(ls, hasColumn).Some?
    ensures var d := Accumulate(ls, hasColumn).value.1; var h := Highs(ls);
      |d.estimatedLostFrames| == |h| &&
      forall k :: 0 <= k < |h| ==>
        h[k].fields.Some? &&
        d.estimatedLostFrames[k] ==
          if hasColumn then h[k].fields.value.estimatedLostFrames
          else if k > 0 && d.frameIndex[k - 1] > 0 then d.frameIndex[k] - d.frameIndex[k - 1] - 1
          else 0
  {
    KeepsHighs(ls, hasColumn);
    if ls != [] {
      var init := ls[..|ls| - 1];
      LostFramesEstimate(init, hasColumn);
      KeepsHighs(init, hasColumn);
    }
  }

  // ---------------------------------------------------------------------------
  // The object

  /** FrameInfoMonitoring: the lists the constructor fills, one entry per kept line. */
  class FrameInfoMonitoring {
    var frameTime: seq<real>
    var frameIndex: seq<int>
    var acquisitionTs: seq<int>
    var systemTs: seq<int>
    var frameSize: seq<int>
    var estimatedLostFrames: seq<int>

    function Data(): FrameData
      reads this
    {
      FrameData(frameTime, frameIndex, acquisitionTs, systemTs, frameSize, estimatedLostFrames)
    }

    constructor Empty()
      ensures Data() == NoData
    {
      frameTime, frameIndex, acquisitionTs := [], [], [];
      systemTs, frameSize, estimatedLostFrames := [], [], [];
    }

    /** The appends for a kept line, the estimate chosen as the loop does. */
    method AddKept(v: FrameVars, l: FrameLine, hasColumn: bool)
      requires l.fields.Some?
      modifies this
      ensures Data() == Append(old(Data()), Entry(v, l, hasColumn))
    {
      var f := l.fields.value;
      frameTime := frameTime + [l.acquisitionTs as real / 1000000.0];
      frameIndex := frameIndex + [f.frameIndex];
      acquisitionTs := acquisitionTs + [l.acquisitionTs];
      systemTs := systemTs + [f.systemTs];
      frameSize := frameSize + [f.frameSize];
      if hasColumn {
        estimatedLostFrames := estimatedLostFrames + [f.estimatedLostFrames];
      } else if v.prevIndex > 0 {
        estimatedLostFrames := estimatedLostFrames + [f.frameIndex - v.prevIndex - 1];
      } else {
        estimatedLostFrames := estimatedLostFrames + [0];
      }
    }

    /**
     * FrameInfoMonitoring(csvFile) on the lines after the header: None
     * where the script raises because a field it reads is not a number.
     */
    static method Load(columns: map<string, int>, lines: seq<Line>) returns (r: Option<FrameInfoMonitoring>)
      requires Known(columns)
      ensures var ls := ParseAll(columns, lines);
        r.None? <==> ls.None? || Accumulate(ls.value, HasLostColumn(columns)).None?
      ensures r.Some? ==> (fresh(r.value) &&
        r.value.Data() == Accumulate(ParseAll(columns, lines).value, HasLostColumn(columns)).value.1)
    {
      var stat := new FrameInfoMonitoring.Empty();
      var v := Init;
      var hasColumn := columns["estimatedLostFrames"] >= 0;
      for i := 0 to |lines|
        invariant Reads(columns, lines[..i]) == Some((v, stat.Data()))
        invariant fresh(stat)
      {
        var row := Fields(lines[i]);
        var acq := GetIntVal(columns, row, "acquisitionTs");
        if acq.None? {
          ReadsSnoc(columns, lines, i);
          ReadsStops(columns, lines, i + 1);
          ReadsAll(columns, lines);
          return None;
        }
        if acq.value > v.prevTime {
          var vals := IntVals(columns, row, FIELD_KEYS);
          var others := IntVals(columns, row, OTHER_INT_KEYS);
          if vals.None? || others.None? {
            ReadsSnoc(columns, lines, i);
            ReadsStops(columns, lines, i + 1);
            ReadsAll(columns, lines);
            return None;
          }
          var l := FrameLine(acq.value, Some(FrameFields(vals.value[0], vals.value[1], vals.value[2], vals.value[3])));
          stat.AddKept(v, l, hasColumn);
          v := FrameVars(acq.value, vals.value[0]);
        }
        ReadsSnoc(columns, lines, i);
      }
      assert lines[..|lines|] == lines;
      ReadsAll(columns, lines);
      return Some(stat);
    }
  }

  /** The loop over the lines, as the script runs it: None from the first line it raises on. */
  function Reads(columns: map<string, int>, lines: seq<Line>): Option<(FrameVars, FrameData)>
    requires Known(columns)
  {
    if lines == [] then Some((Init, NoData))
    else
      var p := Reads(columns, lines[..|lines| - 1]);
      var l := ParseLine(columns, lines[|lines| - 1]);
      if p.None? || l.None? || Fails(p.value.0, l.value) then None
      else Some((Next(p.value.0, l.value), AppendKept(p.value.0, p.value.1, l.value, HasLostColumn(columns))))
  }

  lemma ReadsSnoc(columns: map<string, int>, lines: seq<Line>, i: nat)
    requires Known(columns) && i < |lines|
    ensures var p := Reads(columns, lines[..i]); var l := ParseLine(columns, lines[i]);
      Reads(columns, lines[..i + 1]) ==
        if p.None? || l.None? || Fails(p.value.0, l.value) then None
        else Some((Next(p.value.0, l.value), AppendKept(p.value.0, p.value.1, l.value, HasLostColumn(columns))))
  {
    assert lines[..i + 1][..i] == lines[..i];
  }

  /** Once the loop has raised, it does not come back. */
  lemma {:induction false} ReadsStops(columns: map<string, int>, lines: seq<Line>, k: nat)
    requires Known(columns) && k <= |lines| && Reads(columns, lines[..k]).None?
    ensures Reads(columns, lines).None?
    decreases |lines|
  {
    if k < |lines| {
      var init := lines[..|lines| - 1];
      assert init[..k] == lines[..k];
      ReadsStops(columns, init, k);
    } else {
      assert lines[..k] == lines;
    }
  }

  /** The loop gives the lists of the specification, or fails exactly when the specification does. */
  lemma {:induction false} ReadsAll(columns: map<string, int>, lines: seq<Line>)
    requires Known(columns)
    ensures var ls := ParseAll(columns, lines);
      Reads(columns, lines) == if ls.None? then None else Accumulate(ls.value, HasLostColumn(columns))
  {
    if lines != [] {
      var init := lines[..|lines| - 1];
      ReadsAll(columns, init);
      var ps := Parses(columns, lines);
      assert ps[..|init|] == Parses(columns, init);
      var ls := ParseAll(columns, lines);
      if ls.Some? {
        var p := ParseAll(columns, init).value;
        assert ls.value == p + [ps[|init|].value];
        assert ls.value[..|p|] == p;
      }
    }
  }
}
