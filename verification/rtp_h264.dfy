/*
 * The sender's NALU FIFO (src/arstream2_rtp_h264.c): the intrusive pool of
 * LinkedFifo holding NALU descriptors, which callers copy in and out, so
 * between two calls no item is held and the pool is conserved.
 *
 * FifoInit as written does not build the free list (its loop never moves
 * to the next item); FifoInitAsWritten and PopFreeRaw show what it builds
 * and FifoInit is the evidently intended initialisation.
 */
module RtpH264 {
  import opened LinkedFifo
  import opened CInt

  /** ARSTREAM2_RTPH264_Nalu_t. */
  datatype Nalu = Nalu(
    inputTimestamp: u64, timeoutTimestamp: u64, ntpTimestamp: u64,
    isLastInAu: u32, seqNumForcedDiscontinuity: u32, importance: u32, priority: u32,
    metadata: Ptr, metadataSize: u32, nalu: Ptr, naluSize: u32,
    auUserPtr: Ptr, naluUserPtr: Ptr)

  /** A pool item after the memset of FifoInit. */
  const ZeroNalu: Nalu := Nalu(0, 0, 0, 0, 0, 0, 0, Null, 0, Null, 0, Null, Null)

  /*
   * FifoInit as written.
   */

  /**
   * FifoInit as written: `cur` is set to the first item once, before the
   * loop, and never advanced, so every iteration pushes pool[0] again. With
   * two items or more pool[0] ends up linked to itself and is the whole
   * free list; every other item is on no list.
   */
  method FifoInitAsWritten(maxCount: int) returns (ret: int, pool: array?<Slot<Nalu>>, free: int)
    ensures maxCount <= 0 ==> ret == -1 && pool == null && free == NIL
    ensures maxCount > 0 ==> ret == 0 && pool != null && fresh(pool) && pool.Length == maxCount && free == 0
    ensures maxCount > 0 ==> pool[0] == (if maxCount >= 2 then Slot(ZeroNalu, 0, 0) else Slot(ZeroNalu, NIL, NIL))
    ensures maxCount > 0 ==> forall j :: 1 <= j < maxCount ==> pool[j] == Slot(ZeroNalu, NIL, NIL)
  {
    if maxCount <= 0 {
      return -1, null, NIL;
    }
    pool := new Slot<Nalu>[maxCount](_ => Slot(ZeroNalu, NIL, NIL));
    free := NIL;
    var cur := 0;
    var i := 0;
    while i < maxCount
      invariant 0 <= i <= maxCount && cur == 0
      invariant free == (if i == 0 then NIL else 0)
      invariant pool[0] == (if i >= 2 then Slot(ZeroNalu, 0, 0) else Slot(ZeroNalu, NIL, NIL))
      invariant forall j :: 1 <= j < maxCount ==> pool[j] == Slot(ZeroNalu, NIL, NIL)
    {
      if free != NIL {
        pool[free] := pool[free].(prev := cur);
        pool[cur] := pool[cur].(next := free);
      }
      free := cur;
      i := i + 1;
    }
    ret := 0;
  }

  /**
   * FifoPopFreeItem on the raw links, as written: the item is taken off the
   * head of whatever `free` points to, its successor's prev and its own next
   * are cleared. Returns the item, the links after and the new free pointer.
   */
  function PopFreeRaw(s: seq<Slot<Nalu>>, free: int): (r: (int, seq<Slot<Nalu>>, int))
    requires free == NIL || 0 <= free < |s|
    requires forall j :: 0 <= j < |s| ==> s[j].next == NIL || 0 <= s[j].next < |s|
    ensures |r.1| == |s| && (r.2 == NIL || 0 <= r.2 < |s|)
    ensures forall j :: 0 <= j < |s| ==> r.1[j].next == NIL || 0 <= r.1[j].next < |s|
    ensures r.0 == free && (free != NIL ==> r.2 == s[free].next)
  {
    if free == NIL then (NIL, s, free)
    else
      var next := s[free].next;
      var t := if next != NIL then s[next := s[next].(prev := NIL)] else s;
      (free, t[free := t[free].(next := NIL)], next)
  }

  /**
   * What FifoInit's links lead to: from a FIFO of two or more items, the
   * first two pops both hand out pool[0] (the same item given to two
   * owners), and the free list is then empty although no other item was
   * ever handed out.
   */
  lemma FifoInitAsWrittenPopsFirstItemTwice(s: seq<Slot<Nalu>>)
    requires |s| >= 2 && s[0] == Slot(ZeroNalu, 0, 0)
    requires forall j :: 1 <= j < |s| ==> s[j] == Slot(ZeroNalu, NIL, NIL)
    ensures var p1 := PopFreeRaw(s, 0);
      var p2 := PopFreeRaw(p1.1, p1.2);
      p1.0 == 0 && p2.0 == 0 && p2.2 == NIL
  {
    var p1 := PopFreeRaw(s, 0);
    assert p1.2 == 0 && p1.1[0].next == NIL;
  }

  /*
   * The evidently intended FIFO: FifoInit with every item pushed in turn,
   * and the FIFO operations.
   */

  /** FifoInit: -1 for maxCount <= 0, else every item, zeroed, on the free list and an empty queue. */
  method FifoInit(maxCount: int) returns (ret: int, fifo: Fifo?<Nalu>)
    ensures maxCount <= 0 ==> ret == -1 && fifo == null
    ensures maxCount > 0 ==> ret == 0 && fifo != null && fresh(fifo) && fresh(fifo.pool)
    ensures maxCount > 0 ==> fifo.Valid() && fifo.Conserved() && fifo.size == maxCount && fifo.Contents() == []
    ensures maxCount > 0 ==> fifo.freeList == Descending(maxCount)
    ensures maxCount > 0 ==> forall j :: 0 <= j < maxCount ==> fifo.pool[j].value == ZeroNalu
  {
    if maxCount <= 0 {
      return -1, null;
    }
    fifo := new Fifo<Nalu>.Init(maxCount, _ => ZeroNalu);
    ret := 0;
  }

  /**
   * The free list FifoInit builds hands out maxCount different items: popping
   * it n times gives n distinct items, and every item of the pool is on it.
   */
  lemma FifoInitHandsOutDistinctItems(maxCount: nat, i: int, j: int)
    requires 0 <= i < j < maxCount
    ensures |Descending(maxCount)| == maxCount && Descending(maxCount)[i] != Descending(maxCount)[j]
    ensures forall k :: 0 <= k < maxCount ==> k in Descending(maxCount)
  {
    DescendingAt(maxCount, i);
    DescendingAt(maxCount, j);
    DescendingCovers(maxCount);
  }

  /**
   * FifoEnqueueNalu: -2 when count >= size, -3 when no free item is left
   * (which the conserved pool rules out below that bound); otherwise the
   * NALU is copied into a new tail item.
   */
  method EnqueueNalu(fifo: Fifo<Nalu>, nalu: Nalu) returns (ret: int)
    requires fifo.Valid() && fifo.Conserved()
    modifies fifo, fifo.pool
    ensures fifo.Valid() && fifo.Conserved() && fifo.size == old(fifo.size) && fifo.pool == old(fifo.pool)
    ensures ret == (if old(fifo.count) >= fifo.size then -2 else 0)
    ensures ret == -2 ==> fifo.Contents() == old(fifo.Contents())
    ensures ret == 0 ==> fifo.Contents() == old(fifo.Contents()) + [nalu]
  {
    if fifo.count >= fifo.size {
      return -2;
    }
    ret := fifo.EnqueueValue(nalu);
  }

  /**
   * FifoEnqueueNalus: -1 for a non-positive count, -2 unless the whole batch
   * fits with one item to spare; otherwise the NALUs are appended in array
   * order.
   */
  method EnqueueNalus(fifo: Fifo<Nalu>, nalus: seq<Nalu>, naluCount: int) returns (ret: int)
    requires fifo.Valid() && fifo.Conserved() && naluCount <= |nalus|
    modifies fifo, fifo.pool
    ensures fifo.Valid() && fifo.Conserved() && fifo.size == old(fifo.size) && fifo.pool == old(fifo.pool)
    ensures ret == (if naluCount <= 0 then -1 else if old(fifo.count) + naluCount >= fifo.size then -2 else 0)
    ensures ret != 0 ==> fifo.Contents() == old(fifo.Contents())
    ensures ret == 0 ==> fifo.Contents() == old(fifo.Contents()) + nalus[..naluCount]
  {
    if naluCount <= 0 {
      return -1;
    }
    if fifo.count + naluCount >= fifo.size {
      return -2;
    }
    fifo.EnqueueValues(nalus[..naluCount]);
    ret := 0;
  }

  /** FifoDequeueNalu: -2 on an empty queue, else the head NALU, whose item returns to the free list. */
  method DequeueNalu(fifo: Fifo<Nalu>) returns (ret: int, nalu: Nalu)
    requires fifo.Valid() && fifo.Conserved()
    modifies fifo, fifo.pool
    ensures fifo.Valid() && fifo.Conserved() && fifo.size == old(fifo.size) && fifo.pool == old(fifo.pool)
    ensures old(fifo.Contents()) == [] ==> ret == -2 && fifo.Contents() == []
    ensures old(fifo.Contents()) != [] ==>
      ret == 0 && nalu == old(fifo.Contents()[0]) && fifo.Contents() == old(fifo.Contents()[1..])
  {
    nalu := ZeroNalu;
    fifo.EmptyIff();
    if fifo.head == NIL || fifo.count == 0 {
      return -2, nalu;
    }
    nalu := fifo.TakeHead();
    ret := 0;
  }

  /**
   * FifoDequeueNalus: -1 for a non-positive maximum, -2 on an empty queue,
   * else the first min(maxNaluCount, count) NALUs in FIFO order, their
   * number reported in naluCount.
   */
  method DequeueNalus(fifo: Fifo<Nalu>, maxNaluCount: int) returns (ret: int, nalus: seq<Nalu>, naluCount: int)
    requires fifo.Valid() && fifo.Conserved()
    modifies fifo, fifo.pool
    ensures fifo.Valid() && fifo.Conserved() && fifo.size == old(fifo.size) && fifo.pool == old(fifo.pool)
    ensures ret == (if maxNaluCount <= 0 then -1 else if old(fifo.Contents()) == [] then -2 else 0)
    ensures ret != 0 ==> nalus == [] && naluCount == 0 && fifo.Contents() == old(fifo.Contents())
    ensures ret == 0 ==>
      naluCount == |nalus| &&
      naluCount == (if maxNaluCount < |old(fifo.Contents())| then maxNaluCount else |old(fifo.Contents())|) &&
      nalus == old(fifo.Contents())[..naluCount] && fifo.Contents() == old(fifo.Contents())[naluCount..]
  {
    nalus := [];
    naluCount := 0;
    if maxNaluCount <= 0 {
      return -1, nalus, naluCount;
    }
    fifo.EmptyIff();
    if fifo.head == NIL || fifo.count == 0 {
      return -2, nalus, naluCount;
    }
    nalus := fifo.TakeFront(maxNaluCount);
    naluCount := |nalus|;
    ret := 0;
  }
}
