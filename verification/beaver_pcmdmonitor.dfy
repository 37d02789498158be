/*
 * beaver_pcmdmonitor.py: the PCMD monitoring file (one line per piloting
 * command) read into per-command lists: the unwrapped command index, the
 * sequence number and the five timestamps as written, and the number of
 * commands missing just before each one.
 */
module BeaverPcmdMonitor {
  import opened CInt
  import opened StatFile
  import SeqUnwrap

  /** The columns the script knows, in the order its loop reads them. */
  const KEYS := ["seqNum", "creationTimestamp", "creationTimestampShifted",
                 "receptionTimestamp", "useTimestamp", "netmonTimestamp"]

  /** The integer fields of one line. */
  datatype PcmdLine = PcmdLine(seqNum: int, creationTimestamp: int, creationTimestampShifted: int,
                               receptionTimestamp: int, useTimestamp: int, netmonTimestamp: int)

  function ToPcmdLine(v: seq<int>): PcmdLine
    requires |v| == |KEYS|
  {
    PcmdLine(v[0], v[1], v[2], v[3], v[4], v[5])
  }

  function Records(rows: seq<seq<int>>): (r: seq<PcmdLine>)
    requires forall i :: 0 <= i < |rows| ==> |rows[i]| == |KEYS|
    ensures |r| == |rows|
  {
    seq(|rows|, i requires 0 <= i < |rows| => ToPcmdLine(rows[i]))
  }

  lemma RecordsSnoc(rows: seq<seq<int>>, v: seq<int>)
    requires (forall i :: 0 <= i < |rows| ==> |rows[i]| == |KEYS|) && |v| == |KEYS|
    ensures Records(rows + [v]) == Records(rows) + [ToPcmdLine(v)]
  {
    var a, b := Records(rows + [v]), Records(rows) + [ToPcmdLine(v)];
    forall i | 0 <= i < |a|
      ensures a[i] == b[i]
    {
      assert (rows + [v])[i] == if i < |rows| then rows[i] else v;
    }
  }

  /**
   * The loop's variables that reach the lists: the unwrap's seqNumOffset
   * and previousSeqNum (refTime and droppedCmdCounter are set or
   * initialised but never read).
   */
  type PcmdVars = SeqUnwrap.Unwrapper

  /** What one line appends to each list. */
  datatype PcmdEntry = PcmdEntry(pcmdIndex: int, seqNum: int, creationTimestamp: int, creationTimestampShifted: int,
                                 receptionTimestamp: int, useTimestamp: int, netmonTimestamp: int,
                                 missingPcmdBefore: int)

  datatype PcmdData = PcmdData(pcmdIndex: seq<int>, seqNum: seq<int>, creationTimestamp: seq<int>,
                               creationTimestampShifted: seq<int>, receptionTimestamp: seq<int>,
                               useTimestamp: seq<int>, netmonTimestamp: seq<int>, missingPcmdBefore: seq<int>)

  const NoData := PcmdData([], [], [], [], [], [], [], [])

  /** Every list has n entries. */
  predicate Aligned(d: PcmdData, n: nat)
  {
    |d.pcmdIndex| == |d.seqNum| == |d.creationTimestamp| == |d.creationTimestampShifted| ==
    |d.receptionTimestamp| == |d.useTimestamp| == |d.netmonTimestamp| == |d.missingPcmdBefore| == n
  }

  function Append(d: PcmdData, e: PcmdEntry): PcmdData
  {
    PcmdData(d.pcmdIndex + [e.pcmdIndex], d.seqNum + [e.seqNum], d.creationTimestamp + [e.creationTimestamp],
             d.creationTimestampShifted + [e.creationTimestampShifted], d.receptionTimestamp + [e.receptionTimestamp],
             d.useTimestamp + [e.useTimestamp], d.netmonTimestamp + [e.netmonTimestamp],
             d.missingPcmdBefore + [e.missingPcmdBefore])
  }

  /** The loop's variables after a line. */
  function Next(v: PcmdVars, l: PcmdLine): PcmdVars
  {
    SeqUnwrap.Feed(v, l.seqNum, SeqUnwrap.PCMD_MODULUS).0
  }

  /** What the loop body appends for a line. */
  function Entry(v: PcmdVars, l: PcmdLine): PcmdEntry
  {
    var f := SeqUnwrap.Feed(v, l.seqNum, SeqUnwrap.PCMD_MODULUS);
    PcmdEntry(f.1, l.seqNum, l.creationTimestamp, l.creationTimestampShifted,
              l.receptionTimestamp, l.useTimestamp, l.netmonTimestamp, f.2)
  }

  /** The variables and lists after the loop has read the lines. */
  function Accumulate(ls: seq<PcmdLine>): (r: (PcmdVars, PcmdData))
    ensures Aligned(r.1, |ls|)
  {
    if ls == [] then (SeqUnwrap.Start, NoData)
    else
      var p := Accumulate(ls[..|ls| - 1]);
      (Next(p.0, ls[|ls| - 1]), Append(p.1, Entry(p.0, ls[|ls| - 1])))
  }

  lemma AccumulateSnoc(ls: seq<PcmdLine>, l: PcmdLine)
    ensures Accumulate(ls + [l]) == (Next(Accumulate(ls).0, l), Append(Accumulate(ls).1, Entry(Accumulate(ls).0, l)))
  {
    assert (ls + [l])[..|ls|] == ls;
  }

  function SeqNums(ls: seq<PcmdLine>): (r: seq<int>)
    ensures |r| == |ls|
  {
    seq(|ls|, i requires 0 <= i < |ls| => ls[i].seqNum)
  }

  /**
   * pcmdIndex and missingPcmdBefore are the 8-bit unwrap of the sequence
   * numbers, and the loop's variables are the unwrap's state.
   */
  lemma {:induction false} IndexUnwrapped(ls: seq<PcmdLine>)
    ensures var u := SeqUnwrap.Run(SeqNums(ls), SeqUnwrap.PCMD_MODULUS);
      Accumulate(ls).0 == u.state &&
      Accumulate(ls).1.pcmdIndex == u.indices && Accumulate(ls).1.missingPcmdBefore == u.missing
  {
    if ls != [] {
      var init := ls[..|ls| - 1];
      IndexUnwrapped(init);
      assert SeqNums(ls)[..|init|] == SeqNums(init);
    }
  }

  /** The sequence number and the five timestamps are kept as written, line by line. */
  lemma {:induction false} ColumnsCopied(ls: seq<PcmdLine>)
    ensures var d := Accumulate(ls).1;
      forall i :: 0 <= i < |ls| ==>
        d.seqNum[i] == ls[i].seqNum && d.creationTimestamp[i] == ls[i].creationTimestamp &&
        d.creationTimestampShifted[i] == ls[i].creationTimestampShifted &&
        d.receptionTimestamp[i] == ls[i].receptionTimestamp &&
        d.useTimestamp[i] == ls[i].useTimestamp && d.netmonTimestamp[i] == ls[i].netmonTimestamp
  {
    if ls != [] {
      var init := ls[..|ls| - 1];
      ColumnsCopied(init);
      var d, p := Accumulate(ls).1, Accumulate(init).1;
      forall i | 0 <= i < |init|
        ensures d.seqNum[i] == p.seqNum[i] && d.creationTimestamp[i] == p.creationTimestamp[i]
        ensures d.creationTimestampShifted[i] == p.creationTimestampShifted[i]
        ensures d.receptionTimestamp[i] == p.receptionTimestamp[i]
        ensures d.useTimestamp[i] == p.useTimestamp[i] && d.netmonTimestamp[i] == p.netmonTimestamp[i]
        ensures ls[i] == init[i]
      {
      }
    }
  }

  // ---------------------------------------------------------------------------
  // The object

  /** PcmdMonitorStat: the lists the constructor fills, one entry per line. */
  class PcmdMonitorStat {
    var pcmdIndex: seq<int>
    var seqNum: seq<int>
    var creationTimestamp: seq<int>
    var creationTimestampShifted: seq<int>
    var receptionTimestamp: seq<int>
    var useTimestamp: seq<int>
    var netmonTimestamp: seq<int>
    var missingPcmdBefore: seq<int>

    function Data(): PcmdData
      reads this
    {
      PcmdData(pcmdIndex, seqNum, creationTimestamp, creationTimestampShifted,
               receptionTimestamp, useTimestamp, netmonTimestamp, missingPcmdBefore)
    }

    constructor Empty()
      ensures Data() == NoData
    {
      pcmdIndex, seqNum, creationTimestamp, creationTimestampShifted := [], [], [], [];
      receptionTimestamp, useTimestamp, netmonTimestamp, missingPcmdBefore := [], [], [], [];
    }

    /** The appends of one pass of the loop. */
    method Add(e: PcmdEntry)
      modifies this
      ensures Data() == Append(old(Data()), e)
    {
      pcmdIndex := pcmdIndex + [e.pcmdIndex];
      seqNum := seqNum + [e.seqNum];
      creationTimestamp := creationTimestamp + [e.creationTimestamp];
      creationTimestampShifted := creationTimestampShifted + [e.creationTimestampShifted];
      receptionTimestamp := receptionTimestamp + [e.receptionTimestamp];
      useTimestamp := useTimestamp + [e.useTimestamp];
      netmonTimestamp := netmonTimestamp + [e.netmonTimestamp];
      missingPcmdBefore := missingPcmdBefore + [e.missingPcmdBefore];
    }

    /** One pass of the loop on the fields of a line. */
    method Consume(v: PcmdVars, line: PcmdLine) returns (next: PcmdVars)
      modifies this
      ensures next == Next(v, line) && Data() == Append(old(Data()), Entry(v, line))
    {
      next := Next(v, line);
      Add(Entry(v, line));
    }

    /**
     * PcmdMonitorStat(csvFile) on the lines after the header: None where
     * the script raises because a field is not a number.
     */
    static method Load(columns: map<string, int>, lines: seq<Line>) returns (r: Option<PcmdMonitorStat>)
      requires forall k :: k in KEYS ==> k in columns
      ensures r.None? <==> ReadAll(columns, lines, KEYS).None?
      ensures r.Some? ==> fresh(r.value) && r.value.Data() == Accumulate(Records(ReadAll(columns, lines, KEYS).value)).1
    {
      var stat := new PcmdMonitorStat.Empty();
      var v := SeqUnwrap.Start;
      for i := 0 to |lines|
        invariant Reads(columns, lines[..i]) == Some((v, stat.Data()))
        invariant fresh(stat)
      {
        var vals := IntVals(columns, Fields(lines[i]), KEYS);
        if vals.None? {
          ReadsSnoc(columns, lines, i);
          ReadsAll(columns, lines);
          return None;
        }
        v := stat.Consume(v, ToPcmdLine(vals.value));
        ReadsSnoc(columns, lines, i);
      }
      assert lines[..|lines|] == lines;
      ReadsAll(columns, lines);
      return Some(stat);
    }
  }

  /** The loop over the lines, as the script runs it: None from the first line int() rejects. */
  function Reads(columns: map<string, int>, lines: seq<Line>): Option<(PcmdVars, PcmdData)>
    requires forall k :: k in KEYS ==> k in columns
  {
    if lines == [] then Some((SeqUnwrap.Start, NoData))
    else
      var p := Reads(columns, lines[..|lines| - 1]);
      var vals := IntVals(columns, Fields(lines[|lines| - 1]), KEYS);
      if p.None? || vals.None? then None
      else
        var l := ToPcmdLine(vals.value);
        Some((Next(p.value.0, l), Append(p.value.1, Entry(p.value.0, l))))
  }

  lemma ReadsSnoc(columns: map<string, int>, lines: seq<Line>, i: nat)
    requires forall k :: k in KEYS ==> k in columns
    requires i < |lines|
    ensures var p := Reads(columns, lines[..i]); var vals := IntVals(columns, Fields(lines[i]), KEYS);
      Reads(columns, lines[..i + 1]) ==
        if p.None? || vals.None? then None
        else Some((Next(p.value.0, ToPcmdLine(vals.value)), Append(p.value.1, Entry(p.value.0, ToPcmdLine(vals.value)))))
  {
    assert lines[..i + 1][..i] == lines[..i];
  }

  /** The loop gives the lists of the specification, or fails exactly when a line does not parse. */
  lemma {:induction false} ReadsAll(columns: map<string, int>, lines: seq<Line>)
    requires forall k :: k in KEYS ==> k in columns
    ensures Reads(columns, lines).None? <==> ReadAll(columns, lines, KEYS).None?
    ensures Reads(columns, lines).Some? ==> Reads(columns, lines).value == Accumulate(Records(ReadAll(columns, lines, KEYS).value))
  {
    if lines != [] {
      var init := lines[..|lines| - 1];
      ReadsAll(columns, init);
      var r := ReadAll(columns, lines, KEYS);
      if r.Some? {
        var rows := ReadAll(columns, init, KEYS).value;
        var vals := IntVals(columns, Fields(lines[|lines| - 1]), KEYS).value;
        assert r.value == rows + [vals];
        RecordsSnoc(rows, vals);
        AccumulateSnoc(Records(rows), ToPcmdLine(vals));
      }
    }
  }
}
