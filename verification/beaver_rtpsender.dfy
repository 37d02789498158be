/*
 * beaver_rtpsender.py: the RTP sender statistics file (one line per packet
 * sent or dropped) read into per-packet lists: time since the first
 * access unit, unwrapped packet index, acquisition-to-network and network
 * times of sent and of dropped packets, byte counts, and the number of
 * packets dropped just before each sent one.
 *
 * Times are exact rationals here where the script computes in floating
 * point.
 */
module BeaverRtpSender {
  import opened CInt
  import opened StatFile
  import SeqUnwrap

  /** The columns the script knows, in the order its loop reads them. */
  const KEYS := ["sendTimestamp", "inputTimestamp", "auTimestamp", "rtpTimestamp",
                 "rtpSeqNum", "rtpMarkerBit", "bytesSent", "bytesDropped"]

  /** The integer fields of one line. */
  datatype SenderLine = SenderLine(sendTimestamp: int, inputTimestamp: int, auTimestamp: int,
                                   rtpTimestamp: int, rtpSeqNum: int, rtpMarkerBit: int,
                                   bytesSent: int, bytesDropped: int)

  function ToSenderLine(v: seq<int>): SenderLine
    requires |v| == |KEYS|
  {
    SenderLine(v[0], v[1], v[2], v[3], v[4], v[5], v[6], v[7])
  }

  function Records(rows: seq<seq<int>>): (r: seq<SenderLine>)
    requires forall i :: 0 <= i < |rows| ==> |rows[i]| == |KEYS|
    ensures |r| == |rows|
  {
    seq(|rows|, i requires 0 <= i < |rows| => ToSenderLine(rows[i]))
  }

  lemma RecordsSnoc(rows: seq<seq<int>>, v: seq<int>)
    requires (forall i :: 0 <= i < |rows| ==> |rows[i]| == |KEYS|) && |v| == |KEYS|
    ensures Records(rows + [v]) == Records(rows) + [ToSenderLine(v)]
  {
    var a, b := Records(rows + [v]), Records(rows) + [ToSenderLine(v)];
    forall i | 0 <= i < |a|
      ensures a[i] == b[i]
    {
      assert (rows + [v])[i] == if i < |rows| then rows[i] else v;
    }
  }

  /** The loop's variables: refTime, the unwrap's seqNumOffset and previousSeqNum, droppedPacketsCounter. */
  datatype SenderVars = SenderVars(refTime: int, unwrap: SeqUnwrap.Unwrapper, droppedCounter: int)

  const Init := SenderVars(0, SeqUnwrap.Start, 0)

  /** What one line appends to each list. */
  datatype SenderEntry = SenderEntry(packetTime: real, packetIndex: int,
                                     acqToNetworkSendTime: real, acqToNetworkDropTime: real,
                                     networkSendTime: real, networkDropTime: real,
                                     bytesSent: int, bytesDropped: int, droppedPacketsBefore: int)

  datatype SenderData = SenderData(packetTime: seq<real>, packetIndex: seq<int>,
                                   acqToNetworkSendTime: seq<real>, acqToNetworkDropTime: seq<real>,
                                   networkSendTime: seq<real>, networkDropTime: seq<real>,
                                   bytesSent: seq<int>, bytesDropped: seq<int>, droppedPacketsBefore: seq<int>)

  const NoData := SenderData([], [], [], [], [], [], [], [], [])

  /** Every list has n entries. */
  predicate Aligned(d: SenderData, n: nat)
  {
    |d.packetTime| == |d.packetIndex| == |d.acqToNetworkSendTime| == |d.acqToNetworkDropTime| ==
    |d.networkSendTime| == |d.networkDropTime| == |d.bytesSent| == |d.bytesDropped| ==
    |d.droppedPacketsBefore| == n
  }

  function Append(d: SenderData, e: SenderEntry): (r: SenderData)
  {
    SenderData(d.packetTime + [e.packetTime], d.packetIndex + [e.packetIndex],
               d.acqToNetworkSendTime + [e.acqToNetworkSendTime], d.acqToNetworkDropTime + [e.acqToNetworkDropTime],
               d.networkSendTime + [e.networkSendTime], d.networkDropTime + [e.networkDropTime],
               d.bytesSent + [e.bytesSent], d.bytesDropped + [e.bytesDropped],
               d.droppedPacketsBefore + [e.droppedPacketsBefore])
  }

  /** The entries of line i. */
  function EntryAt(d: SenderData, i: nat): SenderEntry
    requires Aligned(d, |d.packetTime|) && i < |d.packetTime|
  {
    SenderEntry(d.packetTime[i], d.packetIndex[i], d.acqToNetworkSendTime[i], d.acqToNetworkDropTime[i],
                d.networkSendTime[i], d.networkDropTime[i], d.bytesSent[i], d.bytesDropped[i],
                d.droppedPacketsBefore[i])
  }

  /** Microseconds to seconds. */
  function Seconds(us: int): real
  {
    us as real / 1000000.0
  }

  /** Microseconds to milliseconds. */
  function Millis(us: int): real
  {
    us as real / 1000.0
  }

  /** refTime once the line is read: its auTimestamp while refTime is still 0. */
  function RefTimeAfter(v: SenderVars, l: SenderLine): int
  {
    if v.refTime == 0 then l.auTimestamp else v.refTime
  }

  /** The loop's variables after a line. */
  function Next(v: SenderVars, l: SenderLine): SenderVars
  {
    SenderVars(RefTimeAfter(v, l),
               SeqUnwrap.Feed(v.unwrap, l.rtpSeqNum, SeqUnwrap.RTP_MODULUS).0,
               if l.bytesSent > 0 then 0 else v.droppedCounter + 1)
  }

  /** What the loop body appends for a line. */
  function Entry(v: SenderVars, l: SenderLine): SenderEntry
  {
    var sent := l.bytesSent > 0;
    var acq := Millis(l.sendTimestamp - l.auTimestamp);
    var net := Millis(l.sendTimestamp - l.inputTimestamp);
    SenderEntry(Seconds(l.sendTimestamp - RefTimeAfter(v, l)),
                SeqUnwrap.Feed(v.unwrap, l.rtpSeqNum, SeqUnwrap.RTP_MODULUS).1,
                if sent then acq else 0.0, if sent then 0.0 else acq,
                if sent then net else 0.0, if sent then 0.0 else net,
                l.bytesSent, l.bytesDropped, if sent then v.droppedCounter else 0)
  }

  /** The variables and lists after the loop has read the lines. */
  function Accumulate(ls: seq<SenderLine>): (r: (SenderVars, SenderData))
    ensures Aligned(r.1, |ls|)
  {
    if ls == [] then (Init, NoData)
    else
      var p := Accumulate(ls[..|ls| - 1]);
      (Next(p.0, ls[|ls| - 1]), Append(p.1, Entry(p.0, ls[|ls| - 1])))
  }

  lemma AccumulateSnoc(ls: seq<SenderLine>, l: SenderLine)
    ensures Accumulate(ls + [l]) == (Next(Accumulate(ls).0, l), Append(Accumulate(ls).1, Entry(Accumulate(ls).0, l)))
  {
    assert (ls + [l])[..|ls|] == ls;
  }

  /** The entries of line i are those the loop body computes from the variables the earlier lines left. */
  lemma {:induction false} EntryOfLine(ls: seq<SenderLine>, i: nat)
    requires i < |ls|
    ensures EntryAt(Accumulate(ls).1, i) == Entry(Accumulate(ls[..i]).0, ls[i])
    decreases |ls|
  {
    var init := ls[..|ls| - 1];
    if i < |init| {
      EntryOfLine(init, i);
      assert init[..i] == ls[..i];
    } else {
      assert init == ls[..i];
    }
  }

  // ---------------------------------------------------------------------------
  // What the variables hold

  function AuTimestamps(ls: seq<SenderLine>): (r: seq<int>)
    ensures |r| == |ls|
  {
    if ls == [] then [] else AuTimestamps(ls[..|ls| - 1]) + [ls[|ls| - 1].auTimestamp]
  }

  function SeqNums(ls: seq<SenderLine>): (r: seq<int>)
    ensures |r| == |ls|
  {
    seq(|ls|, i requires 0 <= i < |ls| => ls[i].rtpSeqNum)
  }

  /** The lines at the end that were not sent. */
  function TrailingDropped(ls: seq<SenderLine>): nat
  {
    if ls == [] || ls[|ls| - 1].bytesSent > 0 then 0 else 1 + TrailingDropped(ls[..|ls| - 1])
  }

  /** refTime is the first nonzero auTimestamp seen, or 0. */
  lemma {:induction false} RefTimeHolds(ls: seq<SenderLine>)
    ensures Accumulate(ls).0.refTime == FirstSet(AuTimestamps(ls), 0)
  {
    if ls != [] {
      var init := ls[..|ls| - 1];
      RefTimeHolds(init);
      FirstSetSnoc(AuTimestamps(init), ls[|ls| - 1].auTimestamp, 0);
    }
  }

  /** The unwrap state is that of the sequence numbers seen. */
  lemma {:induction false} UnwrapHolds(ls: seq<SenderLine>)
    ensures Accumulate(ls).0.unwrap == SeqUnwrap.Run(SeqNums(ls), SeqUnwrap.RTP_MODULUS).state
  {
    if ls != [] {
      var init := ls[..|ls| - 1];
      UnwrapHolds(init);
      assert SeqNums(ls)[..|init|] == SeqNums(init);
    }
  }

  /** The counter holds the dropped lines since the last sent one. */
  lemma {:induction false} CounterHolds(ls: seq<SenderLine>)
    ensures Accumulate(ls).0.droppedCounter == TrailingDropped(ls)
  {
    if ls != [] {
      CounterHolds(ls[..|ls| - 1]);
    }
  }

  // ---------------------------------------------------------------------------
  // The lists

  /**
   * packetTime is measured from the first nonzero auTimestamp among the
   * lines read so far, this line included.
   */
  lemma PacketTimeFromFirstAu(ls: seq<SenderLine>, i: nat)
    requires i < |ls|
    ensures var ref := RefTimeAfter(Accumulate(ls[..i]).0, ls[i]);
      Accumulate(ls).1.packetTime[i] == Seconds(ls[i].sendTimestamp - ref) &&
      ref == FirstSet(AuTimestamps(ls[..i]) + [ls[i].auTimestamp], 0)
  {
    PacketTimeOfLine(ls, i);
    RefTimeOfLine(ls, i);
  }

  lemma PacketTimeOfLine(ls: seq<SenderLine>, i: nat)
    requires i < |ls|
    ensures Accumulate(ls).1.packetTime[i] == Seconds(ls[i].sendTimestamp - RefTimeAfter(Accumulate(ls[..i]).0, ls[i]))
  {
    EntryOfLine(ls, i);
  }

  lemma RefTimeOfLine(ls: seq<SenderLine>, i: nat)
    requires i < |ls|
    ensures RefTimeAfter(Accumulate(ls[..i]).0, ls[i]) == FirstSet(AuTimestamps(ls[..i]) + [ls[i].auTimestamp], 0)
  {
    RefTimeHolds(ls[..i]);
    FirstSetSnoc(AuTimestamps(ls[..i]), ls[i].auTimestamp, 0);
  }

  /**
   * A sent packet has its send times and zero drop times, a dropped one
   * the other way round; byte counts are copied.
   */
  lemma SendOrDropTimes(ls: seq<SenderLine>, i: nat)
    requires i < |ls|
    ensures var d := Accumulate(ls).1; var l := ls[i];
      d.bytesSent[i] == l.bytesSent && d.bytesDropped[i] == l.bytesDropped &&
      if l.bytesSent > 0 then
        d.acqToNetworkSendTime[i] == Millis(l.sendTimestamp - l.auTimestamp) &&
        d.networkSendTime[i] == Millis(l.sendTimestamp - l.inputTimestamp) &&
        d.acqToNetworkDropTime[i] == 0.0 && d.networkDropTime[i] == 0.0
      else
        d.acqToNetworkDropTime[i] == Millis(l.sendTimestamp - l.auTimestamp) &&
        d.networkDropTime[i] == Millis(l.sendTimestamp - l.inputTimestamp) &&
        d.acqToNetworkSendTime[i] == 0.0 && d.networkSendTime[i] == 0.0
  {
    EntryOfLine(ls, i);
  }

  /** packetIndex is the 16-bit unwrap of the sequence numbers. */
  lemma {:induction false} PacketIndexUnwrapped(ls: seq<SenderLine>)
    ensures Accumulate(ls).1.packetIndex == SeqUnwrap.Run(SeqNums(ls), SeqUnwrap.RTP_MODULUS).indices
  {
    if ls != [] {
      var init := ls[..|ls| - 1];
      PacketIndexUnwrapped(init);
      UnwrapHolds(init);
      assert SeqNums(ls)[..|init|] == SeqNums(init);
    }
  }

  /**
   * A sent packet carries the number of packets dropped since the
   * previous sent one; a dropped packet carries 0.
   */
  lemma DroppedBeforeSent(ls: seq<SenderLine>, i: nat)
    requires i < |ls|
    ensures Accumulate(ls).1.droppedPacketsBefore[i] == if ls[i].bytesSent > 0 then TrailingDropped(ls[..i]) else 0
  {
    EntryOfLine(ls, i);
    CounterHolds(ls[..i]);
  }

  function CountDropped(ls: seq<SenderLine>): nat
  {
    if ls == [] then 0 else CountDropped(ls[..|ls| - 1]) + if ls[|ls| - 1].bytesSent > 0 then 0 else 1
  }

  /**
   * No dropped packet goes uncounted or is counted twice: the counts
   * attached to sent packets plus those dropped after the last sent one
   * are all the dropped lines.
   */
  lemma {:induction false} DroppedAccounted(ls: seq<SenderLine>)
    ensures SeqUnwrap.Sum(Accumulate(ls).1.droppedPacketsBefore) + TrailingDropped(ls) == CountDropped(ls)
  {
    if ls != [] {
      var init := ls[..|ls| - 1];
      DroppedAccounted(init);
      CounterHolds(init);
      var d := Accumulate(ls).1.droppedPacketsBefore;
      assert d[..|init|] == Accumulate(init).1.droppedPacketsBefore;
    }
  }

  /** A line with only bytesSent set. */
  function SentOnly(bytes: int): SenderLine
  {
    SenderLine(0, 0, 0, 0, 0, 0, bytes, 0)
  }

  /** Two packets dropped between two sent ones: the second sent one carries 2. */
  lemma DroppedExample()
    ensures Accumulate([SentOnly(50), SentOnly(0), SentOnly(0), SentOnly(40)]).1.droppedPacketsBefore == [0, 0, 0, 2]
  {
    var ls := [SentOnly(50), SentOnly(0), SentOnly(0), SentOnly(40)];
    var d := Accumulate(ls).1.droppedPacketsBefore;
    DroppedBeforeSent(ls, 0);
    DroppedBeforeSent(ls, 1);
    DroppedBeforeSent(ls, 2);
    DroppedBeforeSent(ls, 3);
    assert ls[..3][..2] == ls[..2] && ls[..2][..1] == ls[..1];
    assert TrailingDropped(ls[..1]) == 0;
    assert TrailingDropped(ls[..2]) == 1;
    assert TrailingDropped(ls[..3]) == 2;
  }

  // ---------------------------------------------------------------------------
  // The object

  /** RtpSenderStat: the lists the constructor fills, one entry per line. */
  class RtpSenderStat {
    var packetTime: seq<real>
    var packetIndex: seq<int>
    var acqToNetworkSendTime: seq<real>
    var acqToNetworkDropTime: seq<real>
    var networkSendTime: seq<real>
    var networkDropTime: seq<real>
    var bytesSent: seq<int>
    var bytesDropped: seq<int>
    var droppedPacketsBefore: seq<int>

    function Data(): SenderData
      reads this
    {
      SenderData(packetTime, packetIndex, acqToNetworkSendTime, acqToNetworkDropTime,
                 networkSendTime, networkDropTime, bytesSent, bytesDropped, droppedPacketsBefore)
    }

    constructor Empty()
      ensures Data() == NoData
    {
      packetTime, packetIndex := [], [];
      acqToNetworkSendTime, acqToNetworkDropTime := [], [];
      networkSendTime, networkDropTime := [], [];
      bytesSent, bytesDropped, droppedPacketsBefore := [], [], [];
    }

    /** The appends of one pass of the loop. */
    method Add(e: SenderEntry)
      modifies this
      ensures Data() == Append(old(Data()), e)
    {
      packetTime := packetTime + [e.packetTime];
      packetIndex := packetIndex + [e.packetIndex];
      acqToNetworkSendTime := acqToNetworkSendTime + [e.acqToNetworkSendTime];
      acqToNetworkDropTime := acqToNetworkDropTime + [e.acqToNetworkDropTime];
      networkSendTime := networkSendTime + [e.networkSendTime];
      networkDropTime := networkDropTime + [e.networkDropTime];
      bytesSent := bytesSent + [e.bytesSent];
      bytesDropped := bytesDropped + [e.bytesDropped];
      droppedPacketsBefore := droppedPacketsBefore + [e.droppedPacketsBefore];
    }

    /** One pass of the loop on the fields of a line. */
    method Consume(v: SenderVars, line: SenderLine) returns (next: SenderVars)
      modifies this
      ensures next == Next(v, line) && Data() == Append(old(Data()), Entry(v, line))
    {
      next := Next(v, line);
      Add(Entry(v, line));
    }

    /**
     * RtpSenderStat(csvFile) on the lines after the header: None where the
     * script raises because a field is not a number.
     */
    static method Load(columns: map<string, int>, lines: seq<Line>) returns (r: Option<RtpSenderStat>)
      requires forall k :: k in KEYS ==> k in columns
      ensures r.None? <==> ReadAll(columns, lines, KEYS).None?
      ensures r.Some? ==> fresh(r.value) && r.value.Data() == Accumulate(Records(ReadAll(columns, lines, KEYS).value)).1
    {
      var stat := new RtpSenderStat.Empty();
      var v := Init;
      for i := 0 to |lines|
        invariant Reads(columns, lines[..i]) == Some((v, stat.Data()))
        invariant fresh(stat)
      {
        var vals := IntVals(columns, Fields(lines[i]), KEYS);
        if vals.None? {
          ReadsSnoc(columns, lines, i);
          ReadsAll(columns, lines);
          return None;
        }
        v := stat.Consume(v, ToSenderLine(vals.value));
        ReadsSnoc(columns, lines, i);
      }
      assert lines[..|lines|] == lines;
      ReadsAll(columns, lines);
      return Some(stat);
    }
  }

  /** The loop over the lines, as the script runs it: None from the first line int() rejects. */
  function Reads(columns: map<string, int>, lines: seq<Line>): Option<(SenderVars, SenderData)>
    requires forall k :: k in KEYS ==> k in columns
  {
    if lines == [] then Some((Init, NoData))
    else
      var p := Reads(columns, lines[..|lines| - 1]);
      var vals := IntVals(columns, Fields(lines[|lines| - 1]), KEYS);
      if p.None? || vals.None? then None
      else
        var l := ToSenderLine(vals.value);
        Some((Next(p.value.0, l), Append(p.value.1, Entry(p.value.0, l))))
  }

  lemma ReadsSnoc(columns: map<string, int>, lines: seq<Line>, i: nat)
    requires forall k :: k in KEYS ==> k in columns
    requires i < |lines|
    ensures var p := Reads(columns, lines[..i]); var vals := IntVals(columns, Fields(lines[i]), KEYS);
      Reads(columns, lines[..i + 1]) ==
        if p.None? || vals.None? then None
        else Some((Next(p.value.0, ToSenderLine(vals.value)), Append(p.value.1, Entry(p.value.0, ToSenderLine(vals.value)))))
  {
    assert lines[..i + 1][..i] == lines[..i];
  }

  /** The loop gives the lists of the specification, or fails exactly when a line does not parse. */
  lemma {:induction false} ReadsAll(columns: map<string, int>, lines: seq<Line>)
    requires forall k :: k in KEYS ==> k in columns
    ensures Reads(columns, lines).None? <==> ReadAll(columns, lines, KEYS).None?
    ensures Reads(columns, lines).Some? ==> Reads(columns, lines).value == Accumulate(Records(ReadAll(columns, lines, KEYS).value))
  {
    if lines != [] {
      var init := lines[..|lines| - 1];
      ReadsAll(columns, init);
      var r := ReadAll(columns, lines, KEYS);
      if r.Some? {
        var rows := ReadAll(columns, init, KEYS).value;
        var vals := IntVals(columns, Fields(lines[|lines| - 1]), KEYS).value;
        assert r.value == rows + [vals];
        RecordsSnoc(rows, vals);
        AccumulateSnoc(Records(rows), ToSenderLine(vals));
      }
    }
  }
}
