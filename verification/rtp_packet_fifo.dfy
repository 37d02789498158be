/*
 * The RTP packet FIFO of the sender and the RTP packet builder
 * (src/arstream2_rtp.c).
 *
 * The FIFO is the generic intrusive pool of LinkedFifo holding packets, plus
 * the `msgVec` array that FillMsgVec fills for sendmmsg. Between two calls no
 * item is held by a caller, so the pool is always conserved.
 *
 * The sender's monitoring callback is modelled by returning the sequence of
 * calls it would receive (empty when no callback is registered).
 */
module RtpPacketFifo {
  import opened LinkedFifo
  import opened CInt

  const IP_HEADER_SIZE: int := 20
  const UDP_HEADER_SIZE: int := 8
  /** sizeof(ARSTREAM2_RTP_Header_t): a packed 2+2+4+4 byte record. */
  const RTP_HEADER_SIZE: int := 12
  const TOTAL_HEADERS_SIZE: int := RTP_HEADER_SIZE + UDP_HEADER_SIZE + IP_HEADER_SIZE
  const MAX_PAYLOAD_SIZE: int := 0xFFFF - TOTAL_HEADERS_SIZE
  const SENDER_SSRC: int := 0x41525353
  const RECEIVER_SSRC: int := 0x41525352

  /** The RTP fixed header in host order; it is written with htons/htonl. */
  datatype RtpHeader = RtpHeader(flags: u16, seqNum: u16, timestamp: u32, ssrc: u32)

  /** What an iovec entry points at. */
  datatype IovBase = HeaderBuffer | ExtensionBuffer | PayloadBuffer

  datatype Iov = Iov(base: IovBase, len: int)

  datatype Packet = Packet(
    inputTimestamp: u64, timeoutTimestamp: u64, ntpTimestamp: u64, rtpTimestamp: u64,
    seqNum: u16, markerBit: u32, importance: u32, priority: u32,
    headerExtension: seq<byte>, headerExtensionSize: int,
    payload: seq<byte>, payloadSize: int,
    header: RtpHeader, msgIov: seq<Iov>)

  /** A pool item after the memset of FifoInit. */
  const ZeroPacket: Packet :=
    Packet(0, 0, 0, 0, 0, 0, 0, 0, [], 0, [], 0, RtpHeader(0, 0, 0, 0), [])

  /** One sendmmsg entry as FillMsgVec leaves it: no name, no control data, flags and msg_len 0. */
  datatype MsgHdr = MsgHdr(iov: seq<Iov>, iovLen: int, msgLen: int)

  /** The arguments of one monitoring callback call. */
  datatype Report = Report(
    inputTimestamp: u64, curTime: u64, ntpTimestamp: u64, rtpTimestamp: u64,
    seqNum: u16, markerBit: u32, bytesSent: int, bytesDropped: int)

  /** The part of the sender context used here. */
  datatype SenderContext = SenderContext(
    rtpClockRate: u32, rtpTimestampOffset: u32, senderSsrc: u32, hasMonitoringCallback: bool)

  function MsgHdrOf(p: Packet): MsgHdr {
    MsgHdr(p.msgIov, |p.msgIov|, 0)
  }

  function SentReport(p: Packet, curTime: u64): Report {
    Report(p.inputTimestamp, curTime, p.ntpTimestamp, p.rtpTimestamp, p.seqNum, p.markerBit, p.payloadSize, 0)
  }

  function DroppedReport(p: Packet, curTime: u64): Report {
    Report(p.inputTimestamp, curTime, p.ntpTimestamp, p.rtpTimestamp, p.seqNum, p.markerBit, 0, p.payloadSize)
  }

  function SentReports(s: seq<Packet>, curTime: u64): seq<Report> {
    seq(|s|, i requires 0 <= i < |s| => SentReport(s[i], curTime))
  }

  function DroppedReports(s: seq<Packet>, curTime: u64): seq<Report> {
    seq(|s|, i requires 0 <= i < |s| => DroppedReport(s[i], curTime))
  }

  /** One more packet visited: one more report at the end. */
  lemma ReportsSnoc(s: seq<Packet>, n: int, curTime: u64)
    requires 0 <= n < |s|
    ensures SentReports(s[..n + 1], curTime) == SentReports(s[..n], curTime) + [SentReport(s[n], curTime)]
    ensures DroppedReports(s[..n + 1], curTime) == DroppedReports(s[..n], curTime) + [DroppedReport(s[n], curTime)]
  {
    assert s[..n + 1] == s[..n] + [s[n]];
    ReportsAppend(s[..n], s[n], curTime);
  }

  lemma ReportsAppend(s: seq<Packet>, p: Packet, curTime: u64)
    ensures SentReports(s + [p], curTime) == SentReports(s, curTime) + [SentReport(p, curTime)]
    ensures DroppedReports(s + [p], curTime) == DroppedReports(s, curTime) + [DroppedReport(p, curTime)]
  {
  }

  /** A packet whose timeout is set and has passed at curTime. */
  predicate Expired(p: Packet, curTime: u64) {
    p.timeoutTimestamp != 0 && p.timeoutTimestamp <= curTime
  }

  /** The packets of s that are not expired, in order. */
  function Kept(s: seq<Packet>, curTime: u64): seq<Packet> {
    if s == [] then []
    else Kept(s[..|s| - 1], curTime) + (if Expired(s[|s| - 1], curTime) then [] else [s[|s| - 1]])
  }

  /** The packets of s that are expired, in order. */
  function ExpiredOf(s: seq<Packet>, curTime: u64): seq<Packet> {
    if s == [] then []
    else ExpiredOf(s[..|s| - 1], curTime) + (if Expired(s[|s| - 1], curTime) then [s[|s| - 1]] else [])
  }

  /**
   * A timeout clean-up splits the queue: every packet is either kept or
   * dropped, the kept ones are exactly the unexpired ones and the dropped
   * ones exactly the expired ones.
   */
  lemma {:induction false} TimeoutPartition(s: seq<Packet>, curTime: u64)
    ensures |Kept(s, curTime)| + |ExpiredOf(s, curTime)| == |s|
    ensures multiset(Kept(s, curTime)) + multiset(ExpiredOf(s, curTime)) == multiset(s)
    ensures forall p :: p in Kept(s, curTime) ==> !Expired(p, curTime)
    ensures forall p :: p in ExpiredOf(s, curTime) ==> Expired(p, curTime)
  {
    if s != [] {
      var init := s[..|s| - 1];
      TimeoutPartition(init, curTime);
      assert s == init + [s[|s| - 1]];
    }
  }

  /** With no expired packet the clean-up keeps the queue as it is. */
  lemma {:induction false} KeptAllFresh(s: seq<Packet>, curTime: u64)
    requires forall i :: 0 <= i < |s| ==> !Expired(s[i], curTime)
    ensures Kept(s, curTime) == s && ExpiredOf(s, curTime) == []
  {
    if s != [] {
      KeptAllFresh(s[..|s| - 1], curTime);
      assert s == s[..|s| - 1] + [s[|s| - 1]];
    }
  }

  lemma KeptStep(s: seq<Packet>, n: int, curTime: u64)
    requires 0 <= n < |s|
    ensures Kept(s[..n + 1], curTime) ==
      Kept(s[..n], curTime) + (if Expired(s[n], curTime) then [] else [s[n]])
    ensures ExpiredOf(s[..n + 1], curTime) ==
      ExpiredOf(s[..n], curTime) + (if Expired(s[n], curTime) then [s[n]] else [])
  {
    assert s[..n + 1][..n] == s[..n];
  }

  /**
   * The progress of CleanFromTimeout's walk over orig, on values: after the
   * first n packets the queue c holds the m kept ones ahead of the unvisited
   * rest, and the count and the reports cover the expired ones.
   */
  ghost predicate Progress(orig: seq<Packet>, n: int, m: int, c: seq<Packet>, count: int,
                           hasCallback: bool, reports: seq<Report>, curTime: u64)
  {
    0 <= n <= |orig| && m == |Kept(orig[..n], curTime)| &&
    c == Kept(orig[..n], curTime) + orig[n..] &&
    count == |ExpiredOf(orig[..n], curTime)| &&
    reports == (if hasCallback then DroppedReports(ExpiredOf(orig[..n], curTime), curTime) else [])
  }

  /** Stepping over an unexpired packet: the queue is unchanged and the kept prefix grows. */
  lemma KeepProgress(orig: seq<Packet>, n: int, m: int, c: seq<Packet>, count: int,
                     hasCallback: bool, reports: seq<Report>, curTime: u64)
    requires Progress(orig, n, m, c, count, hasCallback, reports, curTime)
    requires n < |orig| && !Expired(orig[n], curTime)
    ensures m < |c| && c[m] == orig[n] && (m + 1 < |c| <==> n + 1 < |orig|)
    ensures Progress(orig, n + 1, m + 1, c, count, hasCallback, reports, curTime)
  {
    KeptStep(orig, n, curTime);
    assert Kept(orig[..n + 1], curTime) + orig[n + 1..] == Kept(orig[..n], curTime) + orig[n..];
  }

  /** Dropping an expired packet: it leaves the queue at position m and is counted and reported. */
  lemma ExpireProgress(orig: seq<Packet>, n: int, m: int, c: seq<Packet>, count: int,
                       hasCallback: bool, reports: seq<Report>, curTime: u64)
    requires Progress(orig, n, m, c, count, hasCallback, reports, curTime)
    requires n < |orig| && Expired(orig[n], curTime)
    ensures m < |c| && c[m] == orig[n] && (m < |c| - 1 <==> n + 1 < |orig|)
    ensures Progress(orig, n + 1, m, c[..m] + c[m + 1..], count + 1, hasCallback,
                     if hasCallback then reports + [DroppedReport(orig[n], curTime)] else reports, curTime)
  {
    KeptStep(orig, n, curTime);
    DropAt(Kept(orig[..n], curTime), orig[n..]);
    ReportsAppend(ExpiredOf(orig[..n], curTime), orig[n], curTime);
  }

  /** The walk has visited every packet: the queue is what the clean-up keeps. */
  lemma DoneProgress(orig: seq<Packet>, n: int, m: int, c: seq<Packet>, count: int,
                     hasCallback: bool, reports: seq<Report>, curTime: u64)
    requires Progress(orig, n, m, c, count, hasCallback, reports, curTime) && n == |orig|
    ensures c == Kept(orig, curTime) && count == |ExpiredOf(orig, curTime)|
    ensures reports == (if hasCallback then DroppedReports(ExpiredOf(orig, curTime), curTime) else [])
  {
    assert orig[..n] == orig;
  }

  class PacketFifo {
    const items: Fifo<Packet>
    const msgVec: array<MsgHdr>

    ghost predicate Valid()
      reads this, items, items.pool
    {
      items.Valid() && items.Conserved() && msgVec.Length == items.size
    }

    /** The queued packets, head first. */
    ghost function Contents(): seq<Packet>
      reads this, items, items.pool
      requires Valid()
    {
      items.Contents()
    }

    /**
     * The allocation and loop of FifoInit: the pool of maxCount zeroed
     * items, all pushed on the free list, an empty queue and a zeroed
     * msgVec of maxCount entries.
     */
    constructor Init(maxCount: int)
      requires maxCount > 0
      ensures Valid() && fresh(items) && fresh(items.pool) && fresh(msgVec)
      ensures items.size == maxCount && Contents() == [] && items.free == maxCount - 1
      ensures items.count == 0 && items.head == NIL && items.tail == NIL
      ensures forall j :: 0 <= j < maxCount ==> j in items.freeList
    {
      items := new Fifo<Packet>.Init(maxCount, _ => ZeroPacket);
      msgVec := new MsgHdr[maxCount](_ => MsgHdr([], 0, 0));
      new;
      DescendingCovers(maxCount);
      DescendingAt(maxCount, 0);
    }

    /** EnqueuePacket: -2 when full, else the packet is appended. */
    method EnqueuePacket(packet: Packet) returns (ret: int)
      requires Valid()
      modifies items, items.pool
      ensures Valid() && items.size == old(items.size)
      ensures ret == (if old(items.count) >= items.size then -2 else 0)
      ensures ret == -2 ==> Contents() == old(Contents())
      ensures ret == 0 ==> Contents() == old(Contents()) + [packet]
    {
      if items.count >= items.size {
        return -2;
      }
      ret := items.EnqueueValue(packet);
    }

    /**
     * EnqueuePackets: -1 for a non-positive count, -2 unless the whole batch
     * fits with one item to spare; otherwise the packets are appended in
     * array order.
     */
    method EnqueuePackets(packets: seq<Packet>, packetCount: int) returns (ret: int)
      requires Valid() && packetCount <= |packets|
      modifies items, items.pool
      ensures Valid() && items.size == old(items.size)
      ensures ret == (if packetCount <= 0 then -1
                      else if old(items.count) + packetCount >= items.size then -2
                      else 0)
      ensures ret != 0 ==> Contents() == old(Contents())
      ensures ret == 0 ==> Contents() == old(Contents()) + packets[..packetCount]
    {
      if packetCount <= 0 {
        return -1;
      }
      if items.count + packetCount >= items.size {
        return -2;
      }
      items.EnqueueValues(packets[..packetCount]);
      ret := 0;
    }

    /** DequeuePacket: -2 on an empty queue, else the head packet, whose item returns to the free list. */
    method DequeuePacket() returns (ret: int, packet: Packet)
      requires Valid()
      modifies items, items.pool
      ensures Valid() && items.size == old(items.size)
      ensures old(Contents()) == [] ==> ret == -2 && Contents() == []
      ensures old(Contents()) != [] ==>
        ret == 0 && packet == old(Contents()[0]) && Contents() == old(Contents()[1..])
    {
      packet := ZeroPacket;
      if items.head == NIL || items.count == 0 {
        return -2, packet;
      }
      packet := items.TakeHead();
      ret := 0;
    }

    /**
     * DequeuePackets: -1 for a non-positive maximum, -2 on an empty queue,
     * else the first min(maxPacketCount, count) packets in FIFO order.
     */
    method DequeuePackets(maxPacketCount: int) returns (ret: int, packets: seq<Packet>)
      requires Valid()
      modifies items, items.pool
      ensures Valid() && items.size == old(items.size)
      ensures ret == (if maxPacketCount <= 0 then -1 else if old(Contents()) == [] then -2 else 0)
      ensures ret != 0 ==> packets == [] && Contents() == old(Contents())
      ensures ret == 0 ==>
        var n := Min(maxPacketCount, |old(Contents())|);
        packets == old(Contents())[..n] && Contents() == old(Contents())[n..]
    {
      packets := [];
      if maxPacketCount <= 0 {
        return -1, packets;
      }
      if items.head == NIL || items.count == 0 {
        return -2, packets;
      }
      packets := items.TakeFront(maxPacketCount);
      ret := 0;
    }

    /** One iteration of FillMsgVec's loop: the entry for the i-th queued packet. */
    method FillEntry(i: int, cur: int) returns (next: int)
      requires Valid() && 0 <= i < |items.queue| && cur == items.queue[i]
      modifies msgVec
      ensures i < msgVec.Length && msgVec[..] == old(msgVec[..])[i := MsgHdrOf(Contents()[i])]
      ensures next == (if i + 1 < |items.queue| then items.queue[i + 1] else NIL)
    {
      ChainAt(items.pool[..], items.queue, i);
      var p := items.pool[cur].value;
      msgVec[i] := MsgHdrOf(p);
      next := items.pool[cur].next;
    }

    /**
     * FillMsgVec: -2 on an empty queue, else one msgVec entry per queued
     * packet (at most size of them), in queue order; returns how many.
     */
    method FillMsgVec() returns (ret: int)
      requires Valid()
      modifies msgVec
      ensures Valid() && Contents() == old(Contents())
      ensures old(Contents()) == [] ==> ret == -2
      ensures old(Contents()) != [] ==> ret == |Contents()| && ret <= msgVec.Length
      ensures old(Contents()) != [] ==> forall j :: 0 <= j < ret ==> msgVec[j] == MsgHdrOf(Contents()[j])
      ensures forall j :: Max(ret, 0) <= j < msgVec.Length ==> msgVec[j] == old(msgVec[j])
    {
      if items.head == NIL || items.count == 0 {
        return -2;
      }
      var cur := items.head;
      var i := 0;
      while cur != NIL && i < items.size
        invariant Valid() && Contents() == old(Contents())
        invariant 0 <= i <= |items.queue|
        invariant cur == (if i < |items.queue| then items.queue[i] else NIL)
        invariant forall j :: 0 <= j < i ==> msgVec[j] == MsgHdrOf(Contents()[j])
        invariant forall j :: i <= j < msgVec.Length ==> msgVec[j] == old(msgVec[j])
        decreases |items.queue| - i
      {
        cur := FillEntry(i, cur);
        i := i + 1;
      }
      ret := i;
    }

    /**
     * The removal step of the three clean-up loops: the packet queued at
     * position m leaves the queue, its item returns to the free list, and
     * the walk continues with the item that followed it.
     */
    method RemoveAt(k: int, ghost m: int) returns (p: Packet, next: int)
      requires Valid() && 0 <= m < |items.queue| && items.queue[m] == k
      modifies items, items.pool
      ensures Valid() && items.size == old(items.size) && items.pool == old(items.pool)
      ensures p == old(Contents()[m]) && Contents() == old(Contents()[..m] + Contents()[m + 1..])
      ensures next == (if m < |items.queue| then items.queue[m] else NIL)
    {
      p := items.pool[k].value;
      next := items.UnlinkAndFree(k, m);
    }

    /** RemoveAt at the head of a non-empty queue. */
    method RemoveHead() returns (p: Packet, next: int)
      requires Valid() && Contents() != []
      modifies items, items.pool
      ensures Valid() && items.size == old(items.size) && items.pool == old(items.pool)
      ensures p == old(Contents()[0]) && Contents() == old(Contents()[1..]) && next == items.head
      ensures (next == NIL) == (Contents() == [])
    {
      p, next := RemoveAt(items.head, 0);
      items.EmptyIff();
    }

    /** CleanFromMsgVec's loop: the first msgVecCount packets (or all) are reported as sent and freed. */
    method SendFront(hasCallback: bool, msgVecCount: nat, curTime: u64) returns (i: int, reports: seq<Report>)
      requires Valid()
      modifies items, items.pool
      ensures Valid() && items.size == old(items.size)
      ensures i == Min(msgVecCount, |old(Contents())|) && Contents() == old(Contents())[i..]
      ensures reports == (if hasCallback then SentReports(old(Contents())[..i], curTime) else [])
    {
      reports := [];
      ghost var orig := Contents();
      var cur := items.head;
      items.EmptyIff();
      i := 0;
      while cur != NIL && i < msgVecCount
        invariant Valid() && items.size == old(items.size) && items.pool == old(items.pool)
        invariant 0 <= i <= |orig| && i <= msgVecCount && Contents() == orig[i..]
        invariant cur == items.head && (cur == NIL) == (i == |orig|)
        invariant reports == (if hasCallback then SentReports(orig[..i], curTime) else [])
        decreases |orig| - i
      {
        var p;
        p, cur := RemoveHead();
        if hasCallback {
          reports := reports + [SentReport(p, curTime)];
        }
        ReportsSnoc(orig, i, curTime);
        i := i + 1;
      }
    }

    /**
     * CleanFromMsgVec: after sendmmsg reported msgVecCount messages sent,
     * -2 on an empty queue, else the first min(msgVecCount, count) packets
     * are reported as sent and their items returned to the free list.
     */
    method CleanFromMsgVec(hasCallback: bool, msgVecCount: nat, curTime: u64) returns (ret: int, reports: seq<Report>)
      requires Valid()
      modifies items, items.pool
      ensures Valid() && items.size == old(items.size)
      ensures old(Contents()) == [] ==> ret == -2 && reports == [] && Contents() == []
      ensures old(Contents()) != [] ==>
        ret == Min(msgVecCount, |old(Contents())|) &&
        Contents() == old(Contents())[ret..] &&
        reports == (if hasCallback then SentReports(old(Contents())[..ret], curTime) else [])
    {
      reports := [];
      if items.head == NIL || items.count == 0 {
        return -2, reports;
      }
      ret, reports := SendFront(hasCallback, msgVecCount, curTime);
    }

    /**
     * The state of CleanFromTimeout's walk after the first n packets of
     * orig, as Progress says, with cur the item of the first unvisited one.
     */
    ghost predicate Walk(orig: seq<Packet>, n: int, m: int, cur: int, count: int,
                         hasCallback: bool, reports: seq<Report>, curTime: u64)
      reads this, items, items.pool
    {
      Valid() && Progress(orig, n, m, Contents(), count, hasCallback, reports, curTime) &&
      cur == (if n < |orig| then items.queue[m] else NIL)
    }

    /** Dropping an expired packet: it leaves the queue, is counted and reported. */
    method ExpireStep(hasCallback: bool, curTime: u64, cur: int, count: int, reports: seq<Report>,
                      ghost orig: seq<Packet>, ghost n: int, ghost m: int)
      returns (cur': int, count': int, reports': seq<Report>)
      requires Walk(orig, n, m, cur, count, hasCallback, reports, curTime)
      requires n < |orig| && Expired(orig[n], curTime)
      modifies items, items.pool
      ensures Walk(orig, n + 1, m, cur', count', hasCallback, reports', curTime)
      ensures items.size == old(items.size) && items.pool == old(items.pool)
    {
      ExpireProgress(orig, n, m, Contents(), count, hasCallback, reports, curTime);
      var p;
      p, cur' := RemoveAt(cur, m);
      count' := count + 1;
      reports' := reports;
      if hasCallback {
        reports' := reports + [DroppedReport(p, curTime)];
      }
    }

    /** One iteration of CleanFromTimeout's loop: drop the packet at cur if it has expired, else step over it. */
    method TimeoutStep(hasCallback: bool, curTime: u64, cur: int, count: int, reports: seq<Report>,
                       ghost orig: seq<Packet>, ghost n: int, ghost m: int)
      returns (cur': int, count': int, reports': seq<Report>, ghost m': int)
      requires Walk(orig, n, m, cur, count, hasCallback, reports, curTime) && cur != NIL
      modifies items, items.pool
      ensures Walk(orig, n + 1, m', cur', count', hasCallback, reports', curTime)
      ensures items.size == old(items.size) && items.pool == old(items.pool)
    {
      ChainAt(items.pool[..], items.queue, m);
      var p := items.pool[cur].value;
      if p.timeoutTimestamp != 0 && p.timeoutTimestamp <= curTime {
        cur', count', reports' := ExpireStep(hasCallback, curTime, cur, count, reports, orig, n, m);
        m' := m;
      } else {
        KeepProgress(orig, n, m, Contents(), count, hasCallback, reports, curTime);
        cur' := items.pool[cur].next;
        m' := m + 1;
        count' := count;
        reports' := reports;
      }
    }

    /** CleanFromTimeout's loop: the expired packets leave the queue, wherever they are. */
    method DropExpired(hasCallback: bool, curTime: u64) returns (count: int, reports: seq<Report>)
      requires Valid()
      modifies items, items.pool
      ensures Valid() && items.size == old(items.size)
      ensures Contents() == Kept(old(Contents()), curTime) && count == |ExpiredOf(old(Contents()), curTime)|
      ensures reports == (if hasCallback then DroppedReports(ExpiredOf(old(Contents()), curTime), curTime) else [])
    {
      reports := [];
      ghost var orig := Contents();
      var cur := items.head;
      count := 0;
      ghost var n := 0;
      ghost var m := 0;
      items.EmptyIff();
      while cur != NIL
        invariant Walk(orig, n, m, cur, count, hasCallback, reports, curTime)
        invariant items.size == old(items.size) && items.pool == old(items.pool)
        decreases |orig| - n
      {
        cur, count, reports, m := TimeoutStep(hasCallback, curTime, cur, count, reports, orig, n, m);
        n := n + 1;
      }
      DoneProgress(orig, n, m, Contents(), count, hasCallback, reports, curTime);
    }

    /**
     * CleanFromTimeout: -1 when curTime is 0, -2 on an empty queue; else
     * every expired packet is unlinked wherever it is, reported as dropped
     * and returned to the free list, the others keep their order; returns
     * how many were dropped.
     */
    method CleanFromTimeout(hasCallback: bool, curTime: u64) returns (ret: int, reports: seq<Report>)
      requires Valid()
      modifies items, items.pool
      ensures Valid() && items.size == old(items.size)
      ensures curTime == 0 ==> ret == -1 && reports == [] && Contents() == old(Contents())
      ensures curTime != 0 && old(Contents()) == [] ==> ret == -2 && reports == [] && Contents() == []
      ensures curTime != 0 && old(Contents()) != [] ==>
        Contents() == Kept(old(Contents()), curTime) &&
        ret == |ExpiredOf(old(Contents()), curTime)| &&
        reports == (if hasCallback then DroppedReports(ExpiredOf(old(Contents()), curTime), curTime) else [])
    {
      reports := [];
      if curTime == 0 {
        return -1, reports;
      }
      if items.head == NIL || items.count == 0 {
        return -2, reports;
      }
      ret, reports := DropExpired(hasCallback, curTime);
    }

    /** Flush's loop: every queued packet is reported as dropped and its item freed. */
    method DropAll(hasCallback: bool, curTime: u64) returns (count: int, reports: seq<Report>)
      requires Valid()
      modifies items, items.pool
      ensures Valid() && items.size == old(items.size)
      ensures Contents() == [] && count == |old(Contents())|
      ensures reports == (if hasCallback then DroppedReports(old(Contents()), curTime) else [])
    {
      reports := [];
      ghost var orig := Contents();
      var cur := items.head;
      count := 0;
      while cur != NIL
        invariant Valid() && items.size == old(items.size) && items.pool == old(items.pool)
        invariant 0 <= count <= |orig| && Contents() == orig[count..] && cur == items.head
        invariant reports == (if hasCallback then DroppedReports(orig[..count], curTime) else [])
        decreases |orig| - count
      {
        var p;
        p, cur := RemoveHead();
        if hasCallback {
          reports := reports + [DroppedReport(p, curTime)];
        }
        ReportsSnoc(orig, count, curTime);
        count := count + 1;
      }
      assert orig[..count] == orig;
    }

    /**
     * Flush: -1 when curTime is 0, -2 on an empty queue; else every packet
     * is reported as dropped and returned to the free list; returns how many.
     */
    method Flush(hasCallback: bool, curTime: u64) returns (ret: int, reports: seq<Report>)
      requires Valid()
      modifies items, items.pool
      ensures Valid() && items.size == old(items.size)
      ensures curTime == 0 ==> ret == -1 && reports == [] && Contents() == old(Contents())
      ensures curTime != 0 && old(Contents()) == [] ==> ret == -2 && reports == [] && Contents() == []
      ensures curTime != 0 && old(Contents()) != [] ==>
        Contents() == [] && ret == |old(Contents())| &&
        reports == (if hasCallback then DroppedReports(old(Contents()), curTime) else [])
    {
      reports := [];
      if curTime == 0 {
        return -1, reports;
      }
      if items.head == NIL || items.count == 0 {
        return -2, reports;
      }
      ret, reports := DropAll(hasCallback, curTime);
    }
  }

  /** FifoInit: -1 and no FIFO for maxCount <= 0, else a fresh FIFO with every item free. */
  method FifoInit(maxCount: int) returns (ret: int, fifo: PacketFifo?)
    ensures maxCount <= 0 ==> ret == -1 && fifo == null
    ensures maxCount > 0 ==> ret == 0 && fifo != null && fresh(fifo) && fresh(fifo.items) && fresh(fifo.items.pool)
    ensures maxCount > 0 ==> fifo.Valid() && fifo.items.size == maxCount && fifo.Contents() == []
  {
    if maxCount <= 0 {
      return -1, null;
    }
    fifo := new PacketFifo.Init(maxCount);
    ret := 0;
  }

  function Min(a: int, b: int): int {
    if a < b then a else b
  }

  function Max(a: int, b: int): int {
    if a < b then b else a
  }

  lemma DropAt<X>(a: seq<X>, b: seq<X>)
    requires b != []
    ensures (a + b)[..|a|] + (a + b)[|a| + 1..] == a + b[1..]
  {
    assert (a + b)[..|a|] == a;
    assert (a + b)[|a| + 1..] == b[1..];
  }

  /* ---------------------------------------------------------------- */
  /* Packet generation                                                 */
  /* ---------------------------------------------------------------- */

  datatype Generated = Generated(ret: int, packet: Packet)

  /** The RTP timestamp of an NTP time in microseconds: rounded, in 64-bit unsigned arithmetic. */
  function RtpTimestamp(ctx: SenderContext, ntpTimestamp: u64): u64 {
    U64(ntpTimestamp * ctx.rtpClockRate + ctx.rtpTimestampOffset + 500000) / 1000000
  }

  /**
   * Sender_GeneratePacket: fills the packet for one payload. A missing
   * payload buffer or a zero payload size is rejected with -1 and leaves the
   * packet as it was. The extension pointer and size are stored only when
   * both are given; the X bit and the extension iovec entry follow the size
   * argument alone.
   */
  function GeneratePacket(
    ctx: SenderContext, packet: Packet,
    payload: Option<seq<byte>>, payloadSize: u32,
    headerExtension: Option<seq<byte>>, headerExtensionSize: u32,
    ntpTimestamp: u64, inputTimestamp: u64, timeoutTimestamp: u64,
    seqNum: u16, markerBit: u32, importance: u32, priority: u32): (r: Generated)
    ensures payload.None? || payloadSize == 0 <==> r.ret == -1
    ensures r.ret == -1 ==> r.packet == packet
    ensures r.ret == 0 ==> r.packet.payloadSize == payloadSize && r.packet.payload == payload.value
    ensures r.ret == 0 ==> |r.packet.msgIov| == (if headerExtensionSize > 0 then 3 else 2)
  {
    if payload.None? || payloadSize == 0 then Generated(-1, packet)
    else
      var rtpTs := RtpTimestamp(ctx, ntpTimestamp);
      var stored := headerExtension.Some? && headerExtensionSize > 0;
      var flags := 0x8060 + (if headerExtensionSize > 0 then 0x1000 else 0) + (if markerBit != 0 then 0x80 else 0);
      var iov := [Iov(HeaderBuffer, RTP_HEADER_SIZE)] +
        (if headerExtensionSize > 0 then [Iov(ExtensionBuffer, headerExtensionSize)] else []) +
        [Iov(PayloadBuffer, payloadSize)];
      Generated(0, packet.(
        inputTimestamp := inputTimestamp, timeoutTimestamp := timeoutTimestamp,
        ntpTimestamp := ntpTimestamp, rtpTimestamp := rtpTs, seqNum := seqNum,
        markerBit := markerBit, importance := importance, priority := priority,
        headerExtension := if stored then headerExtension.value else packet.headerExtension,
        headerExtensionSize := if stored then headerExtensionSize else packet.headerExtensionSize,
        payload := payload.value, payloadSize := payloadSize,
        header := RtpHeader(flags, seqNum, U32(rtpTs), ctx.senderSsrc),
        msgIov := iov))
  }

  /** The 12 header bytes on the wire (htons/htonl of each field). */
  function HeaderBytes(h: RtpHeader): (r: seq<byte>)
    ensures |r| == RTP_HEADER_SIZE
  {
    BE16(h.flags) + BE16(h.seqNum) + BE32(h.timestamp) + BE32(h.ssrc)
  }

  /** The fields of an RTP fixed header as section 5.1 of RFC 3550 lays them out. */
  datatype RtpFields = RtpFields(
    version: int, padding: int, extension: int, csrcCount: int,
    marker: int, payloadType: int, sequenceNumber: int, timestamp: int, ssrc: int)

  /** Reads the fixed header of an RTP packet (section 5.1 of RFC 3550). */
  function ParseRtpHeader(b: seq<byte>): (f: RtpFields)
    requires |b| >= RTP_HEADER_SIZE
    ensures 0 <= f.version < 4 && 0 <= f.csrcCount < 16 && 0 <= f.payloadType < 128
  {
    RtpFields(
      b[0] / 64, (b[0] / 32) % 2, (b[0] / 16) % 2, b[0] % 16,
      b[1] / 128, b[1] % 128,
      FromBE(b[2..4]), FromBE(b[4..8]), FromBE(b[8..12]))
  }

  /** The total number of bytes an iovec array describes. */
  function IovTotal(iov: seq<Iov>): int {
    if iov == [] then 0 else IovTotal(iov[..|iov| - 1]) + iov[|iov| - 1].len
  }

  /**
   * A generated packet's header reads back, per section 5.1 of RFC 3550, as
   * version 2, no padding, no CSRC, payload type 96, the X bit iff an
   * extension size was given, the M bit iff markerBit, the sequence number,
   * the low 32 bits of the RTP timestamp and the sender SSRC.
   */
  lemma GeneratedHeaderReadsBack(
    ctx: SenderContext, packet: Packet,
    payload: Option<seq<byte>>, payloadSize: u32,
    headerExtension: Option<seq<byte>>, headerExtensionSize: u32,
    ntpTimestamp: u64, inputTimestamp: u64, timeoutTimestamp: u64,
    seqNum: u16, markerBit: u32, importance: u32, priority: u32)
    requires payload.Some? && payloadSize != 0
    ensures var g := GeneratePacket(ctx, packet, payload, payloadSize, headerExtension, headerExtensionSize,
                                    ntpTimestamp, inputTimestamp, timeoutTimestamp, seqNum, markerBit, importance, priority);
      g.ret == 0 &&
      ParseRtpHeader(HeaderBytes(g.packet.header)) ==
        RtpFields(2, 0, if headerExtensionSize > 0 then 1 else 0, 0, if markerBit != 0 then 1 else 0, 96,
                  seqNum, RtpTimestamp(ctx, ntpTimestamp) % TWO_32, ctx.senderSsrc)
  {
    var g := GeneratePacket(ctx, packet, payload, payloadSize, headerExtension, headerExtensionSize,
                            ntpTimestamp, inputTimestamp, timeoutTimestamp, seqNum, markerBit, importance, priority);
    var h := g.packet.header;
    FlagsBits(h.flags, headerExtensionSize > 0, markerBit != 0);
    ParseHeaderBytes(h);
  }

  /** The first two header bytes the sender writes: V=2, P=0, CC=0, PT=96, and the X and M bits. */
  lemma FlagsBits(flags: int, x: bool, m: bool)
    requires flags == 0x8060 + (if x then 0x1000 else 0) + (if m then 0x80 else 0)
    ensures flags / 0x4000 == 2 && (flags / 0x2000) % 2 == 0 && (flags / 0x100) % 16 == 0
    ensures (flags / 0x1000) % 2 == (if x then 1 else 0) && (flags / 0x80) % 2 == (if m then 1 else 0)
    ensures flags % 0x80 == 96
  {
    if x && m {
      assert flags == 0x90E0;
    } else if x {
      assert flags == 0x9060;
    } else if m {
      assert flags == 0x80E0;
    } else {
      assert flags == 0x8060;
    }
  }

  /** Reading back the bytes of a header gives its fields (section 5.1 of RFC 3550). */
  lemma ParseHeaderBytes(h: RtpHeader)
    ensures var f := ParseRtpHeader(HeaderBytes(h));
      f.sequenceNumber == h.seqNum && f.timestamp == h.timestamp && f.ssrc == h.ssrc &&
      f.version == h.flags / 0x4000 && f.padding == (h.flags / 0x2000) % 2 &&
      f.extension == (h.flags / 0x1000) % 2 && f.csrcCount == (h.flags / 0x100) % 16 &&
      f.marker == (h.flags / 0x80) % 2 && f.payloadType == h.flags % 0x80
  {
    var b := HeaderBytes(h);
    assert b[..2] == BE16(h.flags) && b[2..4] == BE16(h.seqNum);
    assert b[4..8] == BE32(h.timestamp) && b[8..12] == BE32(h.ssrc);
    assert b[0] == h.flags / 0x100 && b[1] == h.flags % 0x100;
    FlagsBytes(h.flags);
  }

  /** The bit fields of the 16-bit flags word, read from its two network-order bytes. */
  lemma FlagsBytes(flags: u16)
    ensures var hi := flags / 0x100; var lo := flags % 0x100;
      hi / 64 == flags / 0x4000 && (hi / 32) % 2 == (flags / 0x2000) % 2 &&
      (hi / 16) % 2 == (flags / 0x1000) % 2 && hi % 16 == (flags / 0x100) % 16 &&
      lo / 128 == (flags / 0x80) % 2 && lo % 128 == flags % 0x80
  {
    var hi := flags / 0x100;
    var lo := flags % 0x100;
    assert flags == hi * 0x100 + lo;
  }

  /** The iovec entries cover the 12-byte header, the extension (when sized) and the payload. */
  lemma GeneratedIovTotal(
    ctx: SenderContext, packet: Packet,
    payload: Option<seq<byte>>, payloadSize: u32,
    headerExtension: Option<seq<byte>>, headerExtensionSize: u32,
    ntpTimestamp: u64, inputTimestamp: u64, timeoutTimestamp: u64,
    seqNum: u16, markerBit: u32, importance: u32, priority: u32)
    requires payload.Some? && payloadSize != 0
    ensures var g := GeneratePacket(ctx, packet, payload, payloadSize, headerExtension, headerExtensionSize,
                                    ntpTimestamp, inputTimestamp, timeoutTimestamp, seqNum, markerBit, importance, priority);
      IovTotal(g.packet.msgIov) == RTP_HEADER_SIZE + headerExtensionSize + payloadSize
  {
    var g := GeneratePacket(ctx, packet, payload, payloadSize, headerExtension, headerExtensionSize,
                            ntpTimestamp, inputTimestamp, timeoutTimestamp, seqNum, markerBit, importance, priority);
    var iov := g.packet.msgIov;
    if headerExtensionSize > 0 {
      assert iov[..2][..1] == [iov[0]] && iov[..2][..1][..0] == [];
      assert IovTotal(iov[..2][..1]) == iov[0].len;
      assert IovTotal(iov[..2]) == iov[0].len + iov[1].len;
      assert IovTotal(iov) == IovTotal(iov[..2]) + iov[2].len;
    } else {
      assert iov[..1][..0] == [];
      assert IovTotal(iov[..1]) == iov[0].len;
      assert IovTotal(iov) == IovTotal(iov[..1]) + iov[1].len;
    }
  }

  /**
   * Without 64-bit overflow the RTP timestamp is the clock-rate scaled NTP
   * time plus offset, rounded to the nearest integer: it is off by at most
   * half a unit (1000000 scaled units).
   */
  lemma RtpTimestampRounds(ctx: SenderContext, ntpTimestamp: u64)
    requires ntpTimestamp * ctx.rtpClockRate + ctx.rtpTimestampOffset + 500000 < TWO_64
    ensures var x := ntpTimestamp * ctx.rtpClockRate + ctx.rtpTimestampOffset;
      var t := RtpTimestamp(ctx, ntpTimestamp);
      x - 500000 < t * 1000000 <= x + 500000
  {
    var x := ntpTimestamp * ctx.rtpClockRate + ctx.rtpTimestampOffset;
    assert U64(x + 500000) == x + 500000;
    RoundedQuotient(x);
  }

  lemma RoundedQuotient(x: int)
    requires x >= 0
    ensures x - 500000 < ((x + 500000) / 1000000) * 1000000 <= x + 500000
  {
  }
}
