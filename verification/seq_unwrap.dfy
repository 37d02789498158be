/*
 * The sequence-number unwrap the statistics scripts share: RTP sequence
 * numbers (16 bits, beaver_rtpsender.py and beaver_rtpreader.py) and PCMD
 * sequence numbers (8 bits, beaver_pcmdmonitor.py) are turned into
 * ever-growing indices by adding an offset that grows by the modulus each
 * time a number falls back by more than half of it, and the numbers skipped
 * between two lines are counted.
 *
 * The modulus m is 65536 or 256; the scripts compare the difference with
 * -32768 and -128, that is with -(m / 2).
 */
module SeqUnwrap {
  import opened CInt

  const RTP_MODULUS := 65536
  const PCMD_MODULUS := 256

  /** The loop's variables: seqNumOffset and previousSeqNum (-1 before the first line). */
  datatype Unwrapper = Unwrapper(offset: int, previous: int)

  const Start := Unwrapper(0, -1)

  datatype Unwrapped = Unwrapped(state: Unwrapper, indices: seq<int>, missing: seq<int>)

  /** The difference to the previous number, with the wrap corrected. */
  function Delta(previous: int, s: int, m: int): int
  {
    var delta := s - previous;
    if delta < -(m / 2) then delta + m else delta
  }

  /** One line: the new variables, then the line's index and the count of numbers missing before it. */
  function Feed(u: Unwrapper, s: int, m: int): (r: (Unwrapper, int, int))
    ensures r.0.previous == s && r.1 == s + r.0.offset && r.2 >= 0
    ensures u.previous == -1 ==> r.0.offset == u.offset && r.2 == 0
  {
    if u.previous != -1 then
      var delta := Delta(u.previous, s, m);
      var offset := if s - u.previous < -(m / 2) then u.offset + m else u.offset;
      (Unwrapper(offset, s), s + offset, if delta > 0 then delta - 1 else 0)
    else
      (Unwrapper(u.offset, s), s + u.offset, 0)
  }

  /** The numbers of all lines fed in order, from the start. */
  function Run(ss: seq<int>, m: int): (r: Unwrapped)
    ensures |r.indices| == |r.missing| == |ss|
  {
    if ss == [] then Unwrapped(Start, [], [])
    else
      var p := Run(ss[..|ss| - 1], m);
      var f := Feed(p.state, ss[|ss| - 1], m);
      Unwrapped(f.0, p.indices + [f.1], p.missing + [f.2])
  }

  /** The prefix of a run is the run of the prefix. */
  lemma {:induction false} RunPrefix(ss: seq<int>, m: int, k: nat)
    requires k <= |ss|
    ensures Run(ss[..k], m).indices == Run(ss, m).indices[..k]
    ensures Run(ss[..k], m).missing == Run(ss, m).missing[..k]
    decreases |ss|
  {
    if k < |ss| {
      assert ss[..|ss| - 1][..k] == ss[..k];
      RunPrefix(ss[..|ss| - 1], m, k);
    } else {
      assert ss[..k] == ss;
    }
  }

  /**
   * The offset is never negative, a multiple of the modulus and never
   * decreases: each index is its number plus such an offset, and the
   * offset of a later line is at least that of an earlier one.
   */
  lemma {:induction false} OffsetsGrow(ss: seq<int>, m: int)
    requires m > 0
    ensures var r := Run(ss, m);
      r.state.offset >= 0 && r.state.offset % m == 0 &&
      (ss != [] ==> r.state.offset == r.indices[|ss| - 1] - ss[|ss| - 1]) &&
      (ss == [] ==> r.state == Start) &&
      forall i :: 0 <= i < |ss| ==>
        r.indices[i] - ss[i] >= 0 && (r.indices[i] - ss[i]) % m == 0 && r.indices[i] - ss[i] <= r.state.offset
  {
    if ss != [] {
      var init := ss[..|ss| - 1];
      OffsetsGrow(init, m);
      var p := Run(init, m);
      var r := Run(ss, m);
      assert r.indices[..|init|] == p.indices;
      assert r.state.offset == p.state.offset || r.state.offset == p.state.offset + m;
      assert (p.state.offset + m) % m == 0 by { AddModulus(p.state.offset, m); }
      forall i | 0 <= i < |init|
        ensures r.indices[i] - ss[i] >= 0 && (r.indices[i] - ss[i]) % m == 0 && r.indices[i] - ss[i] <= r.state.offset
      {
        assert r.indices[i] == p.indices[i] && ss[i] == init[i];
      }
    }
  }

  lemma AddModulus(x: int, m: int)
    requires m > 0 && x % m == 0
    ensures (x + m) % m == 0
  {
    var q := x / m;
    assert x == q * m;
    assert x + m == (q + 1) * m + 0;
    DivModUnique(x + m, q + 1, 0, m);
  }

  /** The step from one line to the next, as the unwrap sees it. */
  lemma StepFacts(ss: seq<int>, m: int, i: nat)
    requires 0 < i < |ss| && ss[i - 1] != -1
    ensures var r := Run(ss, m); var d := Delta(ss[i - 1], ss[i], m);
      r.indices[i] - r.indices[i - 1] == d && r.missing[i] == if d > 0 then d - 1 else 0
  {
    RunPrefix(ss, m, i + 1);
    assert ss[..i + 1][..i] == ss[..i];
    LastOffset(ss[..i], m);
  }

  /**
   * The count missing before a line is the gap between its index and the
   * previous one, less one, or 0 when the index does not grow; the first
   * line has none missing.
   */
  lemma MissingIsGap(ss: seq<int>, m: int)
    requires ss != [] && forall i :: 0 <= i < |ss| ==> ss[i] != -1
    ensures var r := Run(ss, m);
      r.missing[0] == 0 &&
      forall i :: 0 < i < |ss| ==>
        r.missing[i] == if r.indices[i] - r.indices[i - 1] > 0 then r.indices[i] - r.indices[i - 1] - 1 else 0
  {
    RunPrefix(ss, m, 1);
    assert ss[..1][..0] == [];
    forall i | 0 < i < |ss| {
      StepFacts(ss, m, i);
    }
  }

  /** After at least one line, the state holds the last number and the last index less it. */
  lemma LastOffset(ss: seq<int>, m: int)
    requires ss != []
    ensures Run(ss, m).state.previous == ss[|ss| - 1]
    ensures Run(ss, m).state.offset == Run(ss, m).indices[|ss| - 1] - ss[|ss| - 1]
  {
  }

  /** Each step forward by less than half the modulus, with the wrap taken into account. */
  predicate ForwardSteps(ss: seq<int>, m: int)
    requires m > 0
  {
    (forall i :: 0 <= i < |ss| ==> 0 <= ss[i] < m) &&
    forall i :: 0 < i < |ss| ==> 0 < Step(ss[i - 1], ss[i], m) < m / 2
  }

  /**
   * On numbers that each step forward by less than half the modulus, the
   * indices grow by exactly the step, counted modulo the modulus, and the
   * count missing is the step less one.
   */
  lemma ForwardIndices(ss: seq<int>, m: int)
    requires m > 0 && m % 2 == 0 && ForwardSteps(ss, m)
    ensures var r := Run(ss, m);
      forall i :: 0 < i < |ss| ==>
        r.indices[i] - r.indices[i - 1] == Step(ss[i - 1], ss[i], m) &&
        r.missing[i] == Step(ss[i - 1], ss[i], m) - 1
  {
    var r := Run(ss, m);
    forall i | 0 < i < |ss|
      ensures r.indices[i] - r.indices[i - 1] == Step(ss[i - 1], ss[i], m)
      ensures r.missing[i] == Step(ss[i - 1], ss[i], m) - 1
    {
      assert 0 <= ss[i - 1] < m && 0 <= ss[i] < m && 0 < Step(ss[i - 1], ss[i], m) < m / 2;
      StepFacts(ss, m, i);
      DeltaIsStep(ss[i - 1], ss[i], m);
    }
  }

  /** The forward distance from a to b, modulo m. */
  function Step(a: int, b: int, m: int): int
    requires m > 0
  {
    (b - a) % m
  }

  lemma DeltaIsStep(a: int, b: int, m: int)
    requires m > 0 && 0 <= a < m && 0 <= b < m && 0 < Step(a, b, m) < m / 2
    ensures Delta(a, b, m) == Step(a, b, m)
  {
    if b - a < 0 {
      DivModUnique(b - a, -1, b - a + m, m);
    } else {
      DivModUnique(b - a, 0, b - a, m);
    }
  }

  function Sum(xs: seq<int>): int
  {
    if xs == [] then 0 else Sum(xs[..|xs| - 1]) + xs[|xs| - 1]
  }

  /**
   * With every step forward by less than half the modulus, the lines seen
   * plus those counted missing cover exactly the indices from the first
   * to the last.
   */
  lemma {:induction false} MissingAccounts(ss: seq<int>, m: int)
    requires m > 0 && m % 2 == 0 && ss != [] && ForwardSteps(ss, m)
    ensures var r := Run(ss, m);
      |ss| + Sum(r.missing) == r.indices[|ss| - 1] - r.indices[0] + 1
    decreases |ss|
  {
    if |ss| > 1 {
      var r := Run(ss, m);
      var init := ss[..|ss| - 1];
      var p := Run(init, m);
      assert ForwardSteps(init, m);
      MissingAccounts(init, m);
      RunPrefix(ss, m, |init|);
      StepFacts(ss, m, |ss| - 1);
      DeltaIsStep(ss[|ss| - 2], ss[|ss| - 1], m);
      assert r.missing == p.missing + [r.missing[|ss| - 1]];
    }
  }

  /** An 8-bit counter passing 255: the indices go on to 256 and 257. */
  lemma PcmdWrapExample()
    ensures Run([254, 255, 0, 1], PCMD_MODULUS).indices == [254, 255, 256, 257]
  {
    assert [254, 255, 0, 1][..3] == [254, 255, 0];
    assert [254, 255, 0][..2] == [254, 255];
    assert [254, 255][..1] == [254];
    assert [254][..0] == [];
  }

  /** One packet lost between 10 and 12: the line for 12 counts one missing. */
  lemma LossExample()
    ensures Run([10, 12, 13], RTP_MODULUS).missing == [0, 1, 0]
  {
    assert [10, 12, 13][..2] == [10, 12];
    assert [10, 12][..1] == [10];
    assert [10][..0] == [];
  }
}
