/*
 * beaver_rtpreader.py: the RTP reader statistics file (one line per packet
 * received) read into per-packet lists: time since the first reception,
 * network reception time, byte counts, the number of packets missing just
 * before each one, and the unwrapped packet index.
 *
 * Times are exact rationals here where the script computes in floating
 * point.
 */
module BeaverRtpReader {
  import opened CInt
  import opened StatFile
  import SeqUnwrap

  /** The columns the script knows, in the order its loop reads them. */
  const KEYS := ["recvTimestamp", "rtpTimestamp", "rtpTimestampShifted", "rtpSeqNum", "rtpMarkerBit", "bytes"]

  /** The integer fields of one line. */
  datatype ReaderLine = ReaderLine(recvTimestamp: int, rtpTimestamp: int, rtpTimestampShifted: int,
                                   rtpSeqNum: int, rtpMarkerBit: int, bytes: int)

  function ToReaderLine(v: seq<int>): ReaderLine
    requires |v| == |KEYS|
  {
    ReaderLine(v[0], v[1], v[2], v[3], v[4], v[5])
  }

  function Records(rows: seq<seq<int>>): (r: seq<ReaderLine>)
    requires forall i :: 0 <= i < |rows| ==> |rows[i]| == |KEYS|
    ensures |r| == |rows|
  {
    seq(|rows|, i requires 0 <= i < |rows| => ToReaderLine(rows[i]))
  }

  lemma RecordsSnoc(rows: seq<seq<int>>, v: seq<int>)
    requires (forall i :: 0 <= i < |rows| ==> |rows[i]| == |KEYS|) && |v| == |KEYS|
    ensures Records(rows + [v]) == Records(rows) + [ToReaderLine(v)]
  {
    var a, b := Records(rows + [v]), Records(rows) + [ToReaderLine(v)];
    forall i | 0 <= i < |a|
      ensures a[i] == b[i]
    {
      assert (rows + [v])[i] == if i < |rows| then rows[i] else v;
    }
  }

  /** The loop's variables: refTime1, refTime2, the unwrap's seqNumOffset and previousSeqNum. */
  datatype ReaderVars = ReaderVars(refTime1: int, refTime2: real, unwrap: SeqUnwrap.Unwrapper)

  const Init := ReaderVars(0, 0.0, SeqUnwrap.Start)

  /** What one line appends to each list. */
  datatype ReaderEntry = ReaderEntry(packetTime: real, networkRecvTime: real, bytes: int,
                                     missingPacketsBefore: int, packetIndex: int)

  datatype ReaderData = ReaderData(packetTime: seq<real>, networkRecvTime: seq<real>, bytes: seq<int>,
                                   missingPacketsBefore: seq<int>, packetIndex: seq<int>)

  const NoData := ReaderData([], [], [], [], [])

  /** Every list has n entries. */
  predicate Aligned(d: ReaderData, n: nat)
  {
    |d.packetTime| == |d.networkRecvTime| == |d.bytes| == |d.missingPacketsBefore| == |d.packetIndex| == n
  }

  function Append(d: ReaderData, e: ReaderEntry): ReaderData
  {
    ReaderData(d.packetTime + [e.packetTime], d.networkRecvTime + [e.networkRecvTime], d.bytes + [e.bytes],
               d.missingPacketsBefore + [e.missingPacketsBefore], d.packetIndex + [e.packetIndex])
  }

  /** The entries of line i. */
  function EntryAt(d: ReaderData, i: nat): ReaderEntry
    requires Aligned(d, |d.packetTime|) && i < |d.packetTime|
  {
    ReaderEntry(d.packetTime[i], d.networkRecvTime[i], d.bytes[i], d.missingPacketsBefore[i], d.packetIndex[i])
  }

  /** Microseconds to seconds. */
  function Seconds(us: int): real
  {
    us as real / 1000000.0
  }

  /** Microseconds to milliseconds. */
  function Millis(us: real): real
  {
    us / 1000.0
  }

  /** The RTP timestamp (a 90 kHz clock) in microseconds. */
  function AuMicros(rtpTimestamp: int): (r: real)
    ensures r * 90.0 == rtpTimestamp as real * 1000.0
  {
    rtpTimestamp as real * 1000.0 / 90.0
  }

  /** How far the reception lags the access unit's own clock. */
  function Lag(l: ReaderLine): real
  {
    l.recvTimestamp as real - AuMicros(l.rtpTimestamp)
  }

  /** refTime1 once the line is read: its recvTimestamp while refTime1 is still 0. */
  function RefTime1After(v: ReaderVars, l: ReaderLine): int
  {
    if v.refTime1 == 0 then l.recvTimestamp else v.refTime1
  }

  /** refTime2 once the line is read: its lag while refTime2 is still 0. */
  function RefTime2After(v: ReaderVars, l: ReaderLine): real
  {
    if v.refTime2 == 0.0 then Lag(l) else v.refTime2
  }

  /** The loop's variables after a line. */
  function Next(v: ReaderVars, l: ReaderLine): ReaderVars
  {
    ReaderVars(RefTime1After(v, l), RefTime2After(v, l),
               SeqUnwrap.Feed(v.unwrap, l.rtpSeqNum, SeqUnwrap.RTP_MODULUS).0)
  }

  /** What the loop body appends for a line. */
  function Entry(v: ReaderVars, l: ReaderLine): ReaderEntry
  {
    var f := SeqUnwrap.Feed(v.unwrap, l.rtpSeqNum, SeqUnwrap.RTP_MODULUS);
    ReaderEntry(Seconds(l.recvTimestamp - RefTime1After(v, l)),
                if l.rtpTimestampShifted != 0 then Millis((l.recvTimestamp - l.rtpTimestampShifted) as real)
                else Millis(Lag(l) - RefTime2After(v, l)),
                l.bytes, f.2, f.1)
  }

  /** The variables and lists after the loop has read the lines. */
  function Accumulate(ls: seq<ReaderLine>): (r: (ReaderVars, ReaderData))
    ensures Aligned(r.1, |ls|)
  {
    if ls == [] then (Init, NoData)
    else
      var p := Accumulate(ls[..|ls| - 1]);
      (Next(p.0, ls[|ls| - 1]), Append(p.1, Entry(p.0, ls[|ls| - 1])))
  }

  lemma AccumulateSnoc(ls: seq<ReaderLine>, l: ReaderLine)
    ensures Accumulate(ls + [l]) == (Next(Accumulate(ls).0, l), Append(Accumulate(ls).1, Entry(Accumulate(ls).0, l)))
  {
    assert (ls + [l])[..|ls|] == ls;
  }

  /** The entries of line i are those the loop body computes from the variables the earlier lines left. */
  lemma {:induction false} EntryOfLine(ls: seq<ReaderLine>, i: nat)
    requires i < |ls|
    ensures EntryAt(Accumulate(ls).1, i) == Entry(Accumulate(ls[..i]).0, ls[i])
    decreases |ls|
  {
    var init := ls[..|ls| - 1];
    if i < |init| {
      EntryOfLine(init, i);
      assert init[..i] == ls[..i];
    } else {
      assert init == ls[..i];
    }
  }

  // ---------------------------------------------------------------------------
  // What the variables hold

  function RecvTimestamps(ls: seq<ReaderLine>): (r: seq<int>)
    ensures |r| == |ls|
  {
    if ls == [] then [] else RecvTimestamps(ls[..|ls| - 1]) + [ls[|ls| - 1].recvTimestamp]
  }

  function Lags(ls: seq<ReaderLine>): (r: seq<real>)
    ensures |r| == |ls|
  {
    if ls == [] then [] else Lags(ls[..|ls| - 1]) + [Lag(ls[|ls| - 1])]
  }

  function SeqNums(ls: seq<ReaderLine>): (r: seq<int>)
    ensures |r| == |ls|
  {
    seq(|ls|, i requires 0 <= i < |ls| => ls[i].rtpSeqNum)
  }

  /** refTime1 is the first nonzero reception time seen, or 0. */
  lemma {:induction false} RefTime1Holds(ls: seq<ReaderLine>)
    ensures Accumulate(ls).0.refTime1 == FirstSet(RecvTimestamps(ls), 0)
  {
    if ls != [] {
      var init := ls[..|ls| - 1];
      RefTime1Holds(init);
      FirstSetSnoc(RecvTimestamps(init), ls[|ls| - 1].recvTimestamp, 0);
    }
  }

  /** refTime2 is the first nonzero lag seen, or 0. */
  lemma {:induction false} RefTime2Holds(ls: seq<ReaderLine>)
    ensures Accumulate(ls).0.refTime2 == FirstSet(Lags(ls), 0.0)
  {
    if ls != [] {
      var init := ls[..|ls| - 1];
      RefTime2Holds(init);
      FirstSetSnoc(Lags(init), Lag(ls[|ls| - 1]), 0.0);
    }
  }

  /** The unwrap state is that of the sequence numbers seen. */
  lemma {:induction false} UnwrapHolds(ls: seq<ReaderLine>)
    ensures Accumulate(ls).0.unwrap == SeqUnwrap.Run(SeqNums(ls), SeqUnwrap.RTP_MODULUS).state
  {
    if ls != [] {
      var init := ls[..|ls| - 1];
      UnwrapHolds(init);
      assert SeqNums(ls)[..|init|] == SeqNums(init);
    }
  }

  // ---------------------------------------------------------------------------
  // The lists

  /**
   * packetTime is measured from the first nonzero reception time among the
   * lines read so far, this line included.
   */
  lemma PacketTimeFromFirstRecv(ls: seq<ReaderLine>, i: nat)
    requires i < |ls|
    ensures var ref := RefTime1After(Accumulate(ls[..i]).0, ls[i]);
      Accumulate(ls).1.packetTime[i] == Seconds(ls[i].recvTimestamp - ref) &&
      ref == FirstSet(RecvTimestamps(ls[..i]) + [ls[i].recvTimestamp], 0)
  {
    EntryOfLine(ls, i);
    RefTime1Holds(ls[..i]);
    FirstSetSnoc(RecvTimestamps(ls[..i]), ls[i].recvTimestamp, 0);
  }

  /**
   * With a shifted RTP timestamp the network time is the reception less
   * it; without, it is the lag less the first nonzero lag, so that it
   * measures the delay added since that line.
   */
  lemma NetworkRecvTimeOf(ls: seq<ReaderLine>, i: nat)
    requires i < |ls|
    ensures var ref := RefTime2After(Accumulate(ls[..i]).0, ls[i]); var l := ls[i];
      Accumulate(ls).1.networkRecvTime[i] ==
        (if l.rtpTimestampShifted != 0 then Millis((l.recvTimestamp - l.rtpTimestampShifted) as real)
         else Millis(Lag(l) - ref)) &&
      ref == FirstSet(Lags(ls[..i]) + [Lag(l)], 0.0)
  {
    EntryOfLine(ls, i);
    RefTime2Holds(ls[..i]);
    FirstSetSnoc(Lags(ls[..i]), Lag(ls[i]), 0.0);
  }

  /** The first line of a file without shifted timestamps has a network time of 0. */
  lemma FirstLineNoDelay(ls: seq<ReaderLine>)
    requires ls != [] && ls[0].rtpTimestampShifted == 0
    ensures Accumulate(ls).1.networkRecvTime[0] == 0.0
  {
    NetworkRecvTimeOf(ls, 0);
    assert ls[..0] == [];
  }

  /** bytes is copied from each line. */
  lemma BytesCopied(ls: seq<ReaderLine>, i: nat)
    requires i < |ls|
    ensures Accumulate(ls).1.bytes[i] == ls[i].bytes
  {
    EntryOfLine(ls, i);
  }

  /** packetIndex and missingPacketsBefore are the 16-bit unwrap of the sequence numbers. */
  lemma {:induction false} IndexUnwrapped(ls: seq<ReaderLine>)
    ensures Accumulate(ls).1.packetIndex == SeqUnwrap.Run(SeqNums(ls), SeqUnwrap.RTP_MODULUS).indices
    ensures Accumulate(ls).1.missingPacketsBefore == SeqUnwrap.Run(SeqNums(ls), SeqUnwrap.RTP_MODULUS).missing
  {
    if ls != [] {
      var init := ls[..|ls| - 1];
      IndexUnwrapped(init);
      UnwrapHolds(init);
      assert SeqNums(ls)[..|init|] == SeqNums(init);
    }
  }

  // ---------------------------------------------------------------------------
  // The object

  /** RtpReaderStat: the lists the constructor fills, one entry per line. */
  class RtpReaderStat {
    var packetTime: seq<real>
    var networkRecvTime: seq<real>
    var bytes: seq<int>
    var missingPacketsBefore: seq<int>
    var packetIndex: seq<int>

    function Data(): ReaderData
      reads this
    {
      ReaderData(packetTime, networkRecvTime, bytes, missingPacketsBefore, packetIndex)
    }

    constructor Empty()
      ensures Data() == NoData
    {
      packetTime, networkRecvTime, bytes := [], [], [];
      missingPacketsBefore, packetIndex := [], [];
    }

    /** The appends of one pass of the loop. */
    method Add(e: ReaderEntry)
      modifies this
      ensures Data() == Append(old(Data()), e)
    {
      packetTime := packetTime + [e.packetTime];
      networkRecvTime := networkRecvTime + [e.networkRecvTime];
      bytes := bytes + [e.bytes];
      missingPacketsBefore := missingPacketsBefore + [e.missingPacketsBefore];
      packetIndex := packetIndex + [e.packetIndex];
    }

    /** One pass of the loop on the fields of a line. */
    method Consume(v: ReaderVars, line: ReaderLine) returns (next: ReaderVars)
      modifies this
      ensures next == Next(v, line) && Data() == Append(old(Data()), Entry(v, line))
    {
      next := Next(v, line);
      Add(Entry(v, line));
    }

    /**
     * RtpReaderStat(csvFile) on the lines after the header: None where the
     * script raises because a field is not a number.
     */
    static method Load(columns: map<string, int>, lines: seq<Line>) returns (r: Option<RtpReaderStat>)
      requires forall k :: k in KEYS ==> k in columns
      ensures r.None? <==> ReadAll(columns, lines, KEYS).None?
      ensures r.Some? ==> fresh(r.value) && r.value.Data() == Accumulate(Records(ReadAll(columns, lines, KEYS).value)).1
    {
      var stat := new RtpReaderStat.Empty();
      var v := Init;
      for i := 0 to |lines|
        invariant Reads(columns, lines[..i]) == Some((v, stat.Data()))
        invariant fresh(stat)
      {
        var vals := IntVals(columns, Fields(lines[i]), KEYS);
        if vals.None? {
          ReadsSnoc(columns, lines, i);
          ReadsAll(columns, lines);
          return None;
        }
        v := stat.Consume(v, ToReaderLine(vals.value));
        ReadsSnoc(columns, lines, i);
      }
      assert lines[..|lines|] == lines;
      ReadsAll(columns, lines);
      return Some(stat);
    }
  }

  /** The loop over the lines, as the script runs it: None from the first line int() rejects. */
  function Reads(columns: map<string, int>, lines: seq<Line>): Option<(ReaderVars, ReaderData)>
    requires forall k :: k in KEYS ==> k in columns
  {
    if lines == [] then Some((Init, NoData))
    else
      var p := Reads(columns, lines[..|lines| - 1]);
      var vals := IntVals(columns, Fields(lines[|lines| - 1]), KEYS);
      if p.None? || vals.None? then None
      else
        var l := ToReaderLine(vals.value);
        Some((Next(p.value.0, l), Append(p.value.1, Entry(p.value.0, l))))
  }

  lemma ReadsSnoc(columns: map<string, int>, lines: seq<Line>, i: nat)
    requires forall k :: k in KEYS ==> k in columns
    requires i < |lines|
    ensures var p := Reads(columns, lines[..i]); var vals := IntVals(columns, Fields(lines[i]), KEYS);
      Reads(columns, lines[..i + 1]) ==
        if p.None? || vals.None? then None
        else Some((Next(p.value.0, ToReaderLine(vals.value)), Append(p.value.1, Entry(p.value.0, ToReaderLine(vals.value)))))
  {
    assert lines[..i + 1][..i] == lines[..i];
  }

  /** The loop gives the lists of the specification, or fails exactly when a line does not parse. */
  lemma {:induction false} ReadsAll(columns: map<string, int>, lines: seq<Line>)
    requires forall k :: k in KEYS ==> k in columns
    ensures Reads(columns, lines).None? <==> ReadAll(columns, lines, KEYS).None?
    ensures Reads(columns, lines).Some? ==> Reads(columns, lines).value == Accumulate(Records(ReadAll(columns, lines, KEYS).value))
  {
    if lines != [] {
      var init := lines[..|lines| - 1];
      ReadsAll(columns, init);
      var r := ReadAll(columns, lines, KEYS);
      if r.Some? {
        var rows := ReadAll(columns, init, KEYS).value;
        var vals := IntVals(columns, Fields(lines[|lines| - 1]), KEYS).value;
        assert r.value == rows + [vals];
        RecordsSnoc(rows, vals);
        AccumulateSnoc(Records(rows), ToReaderLine(vals));
      }
    }
  }
}
