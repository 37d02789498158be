/*
 * The monitoring history the RTP sender and receiver keep
 * (src/arstream2_rtp_sender.c, src/arstream2_rtp_receiver.c): a ring of
 * 2048 points, the index of the newest one and how many are valid, and the
 * backward scan of their GetMonitoring over the points of a time window.
 */
module MonitoringRing {

  /** ARSTREAM2_RTP_SENDER_MONITORING_MAX_POINTS and ARSTREAM2_RTP_RECEIVER_MONITORING_MAX_POINTS. */
  const MAX_POINTS: int := 2048

  /** The step of the backward scans: `(idx - 1 >= 0) ? idx - 1 : MAX_POINTS - 1`. */
  function Prev(idx: int): (r: int)
    requires 0 <= idx < MAX_POINTS
    ensures 0 <= r < MAX_POINTS && r == (idx - 1) % MAX_POINTS
  {
    if idx - 1 >= 0 then idx - 1 else MAX_POINTS - 1
  }

  /** The slot k places behind `index`. */
  function Behind(index: int, k: int): int
  {
    (index - k) % MAX_POINTS
  }

  /** One step back from the slot k places behind `index` is the slot k + 1 places behind it. */
  lemma PrevBehind(index: int, k: int)
    ensures Prev(Behind(index, k)) == Behind(index, k + 1)
  {
    var q, r := (index - k) / MAX_POINTS, (index - k) % MAX_POINTS;
    assert index - k - 1 == q * MAX_POINTS + (r - 1);
  }

  /** The n slots of the ring from `index` backwards: the newest point first. */
  function RecentOf<P>(s: seq<P>, index: int, n: nat): (r: seq<P>)
    requires |s| == MAX_POINTS && n <= MAX_POINTS
    ensures |r| == n && forall k :: 0 <= k < n ==> r[k] == s[(index - k) % MAX_POINTS]
  {
    seq(n, k requires 0 <= k < n => s[(index - k) % MAX_POINTS])
  }

  /**
   * Writing the slot after `index` and moving to it puts the new point in
   * front of the history; the oldest point drops out once the ring is full.
   */
  lemma RecentAfterPush<P>(s: seq<P>, index: int, n: nat, p: P)
    requires |s| == MAX_POINTS && n <= MAX_POINTS && 0 <= index < MAX_POINTS
    ensures var j := (index + 1) % MAX_POINTS;
      var m := if n < MAX_POINTS then n + 1 else n;
      RecentOf(s[j := p], j, m) == [p] + RecentOf(s, index, n)[..m - 1]
  {
    var j := (index + 1) % MAX_POINTS;
    var m := if n < MAX_POINTS then n + 1 else n;
    var a, b := RecentOf(s[j := p], j, m), [p] + RecentOf(s, index, n)[..m - 1];
    forall k | 0 <= k < m
      ensures a[k] == b[k]
    {
      if k > 0 {
        assert (j - k) % MAX_POINTS == (index - (k - 1)) % MAX_POINTS;
        assert (j - k) % MAX_POINTS != j;
      }
    }
  }

  /**
   * A ring of monitoring points: `index` is the slot of the newest point and
   * `count` how many points were recorded, at most MAX_POINTS.
   */
  class Ring<P> {
    const points: array<P>
    var count: int
    var index: int

    ghost predicate Valid()
      reads this
    {
      points.Length == MAX_POINTS && 0 <= count <= MAX_POINTS && 0 <= index < MAX_POINTS
    }

    /** The recorded points, newest first. */
    ghost function Recent(): (r: seq<P>)
      reads this, points
      requires Valid()
      ensures |r| == count
    {
      RecentOf(points[..], index, count)
    }

    /** The ring inside the memset record: no point yet, every slot zeroed. */
    constructor Init(zero: P)
      ensures Valid() && count == 0 && index == 0 && fresh(points)
      ensures forall k :: 0 <= k < MAX_POINTS ==> points[k] == zero
    {
      points := new P[MAX_POINTS](_ => zero);
      count := 0;
      index := 0;
    }

    /**
     * The update of UpdateMonitoring: the count grows up to MAX_POINTS, the
     * index moves one slot forward (modulo MAX_POINTS) and the point is
     * written there; no other slot changes.
     */
    method Push(p: P)
      requires Valid()
      modifies this, points
      ensures Valid()
      ensures count == (if old(count) < MAX_POINTS then old(count) + 1 else MAX_POINTS)
      ensures index == (old(index) + 1) % MAX_POINTS
      ensures points[..] == old(points[..])[index := p]
      ensures Recent() == [p] + old(Recent())[..count - 1]
    {
      RecentAfterPush(points[..], index, count, p);
      if count < MAX_POINTS {
        count := count + 1;
      }
      index := (index + 1) % MAX_POINTS;
      points[index] := p;
    }
  }

  /**
   * The points GetMonitoring uses, from a history newest first: points
   * stamped after `start` are skipped, the scan stops at the first point
   * more than `interval` older than `start`, and the others are kept.
   */
  function Window<P>(pts: seq<P>, time: P -> int, start: int, interval: int): (r: seq<P>)
    ensures |r| <= |pts|
  {
    if pts == [] then []
    else if time(pts[0]) > start then Window(pts[1..], time, start, interval)
    else if start - time(pts[0]) > interval then []
    else [pts[0]] + Window(pts[1..], time, start, interval)
  }

  /** Every point of the window is stamped within `interval` before `start`. */
  lemma {:induction false} WindowInInterval<P>(pts: seq<P>, time: P -> int, start: int, interval: int)
    ensures forall p :: p in Window(pts, time, start, interval) ==> start - interval <= time(p) <= start
  {
    if pts != [] {
      WindowInInterval(pts[1..], time, start, interval);
    }
  }

  /** Every point of the window is a point of the history scanned. */
  lemma {:induction false} WindowIsSubset<P>(pts: seq<P>, time: P -> int, start: int, interval: int)
    ensures forall p :: p in Window(pts, time, start, interval) ==> p in pts
  {
    if pts != [] {
      WindowIsSubset(pts[1..], time, start, interval);
    }
  }

  /**
   * One step of the scan: after `i` points, with `w` the window so far, the
   * next point is skipped, ends the scan, or joins the window.
   */
  lemma WindowStep<P>(pts: seq<P>, time: P -> int, start: int, interval: int, i: int)
    requires 0 <= i < |pts|
    ensures var rest, p := Window(pts[i..], time, start, interval), pts[i];
      if time(p) > start then rest == Window(pts[i + 1..], time, start, interval)
      else if start - time(p) > interval then rest == []
      else rest == [p] + Window(pts[i + 1..], time, start, interval)
  {
    assert pts[i..][1..] == pts[i + 1..];
  }

  /**
   * The backward scan's invariant carried over one point: with `w` the
   * window of the first `i` points, the next point is skipped, ends the
   * scan, or joins `w`.
   */
  lemma ScanStep<P>(pts: seq<P>, time: P -> int, start: int, interval: int, i: int, w: seq<P>)
    requires 0 <= i < |pts|
    requires Window(pts, time, start, interval) == w + Window(pts[i..], time, start, interval)
    ensures var p := pts[i];
      if time(p) > start then Window(pts, time, start, interval) == w + Window(pts[i + 1..], time, start, interval)
      else if start - time(p) > interval then Window(pts, time, start, interval) == w
      else Window(pts, time, start, interval) == (w + [p]) + Window(pts[i + 1..], time, start, interval)
  {
    WindowStep(pts, time, start, interval, i);
    var rest := Window(pts[i + 1..], time, start, interval);
    assert w + [] == w;
    assert w + ([pts[i]] + rest) == (w + [pts[i]]) + rest;
  }

  /** A scan that reached the end of the history has the whole window. */
  lemma ScanEnd<P>(pts: seq<P>, time: P -> int, start: int, interval: int, w: seq<P>)
    requires Window(pts, time, start, interval) == w + Window(pts[|pts|..], time, start, interval)
    ensures Window(pts, time, start, interval) == w
  {
    assert pts[|pts|..] == [] && w + [] == w;
  }
}
