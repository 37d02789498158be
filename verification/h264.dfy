/*
 * H.264 NALU and access-unit records, their FIFOs and the per-access-unit
 * NALU list (src/arstream2_h264.c).
 *
 * The NALU FIFO and the AU FIFO are the intrusive pool of LinkedFifo holding
 * NalUnit and AccessUnit payloads; their Pop/Push/Enqueue/Dequeue/Flush
 * functions are the Fifo methods. An access unit threads its NALUs through
 * NALU FIFO items that its owner holds (items on neither FIFO list), reusing
 * the items' own prev/next links; the ghost list naming those items, head
 * first, travels beside the AccessUnit value.
 *
 * The enumerations and record layouts come from arstream2_h264.h, which is
 * not part of this model: only the enumerators the library uses are listed,
 * and the zeroed pool items are taken to hold the UNKNOWN and NON_VCL
 * enumerators.
 */
module H264 {
  import opened LinkedFifo
  import opened CInt

  datatype NaluType = NaluTypeUnknown | NaluTypeSlice | NaluTypeSliceIdr | NaluTypeSei | NaluTypeSps | NaluTypePps

  datatype SliceType = SliceTypeNonVcl | SliceTypeI | SliceTypeP

  datatype NalUnit = NalUnit(
    inputTimestamp: u64, timeoutTimestamp: u64, ntpTimestamp: u64, extRtpTimestamp: u64, rtpTimestamp: u64,
    isLastInAu: int, seqNumForcedDiscontinuity: int, missingPacketsBefore: int,
    importance: int, priority: int,
    metadata: Ptr, metadataSize: int, nalu: Ptr, naluSize: int,
    auUserPtr: Ptr, naluUserPtr: Ptr,
    naluType: NaluType, sliceType: SliceType)

  /**
   * An access unit: three buffers it owns with their capacities, the sizes
   * used in them, the timestamps of its first NALU and its NALU list
   * (head and tail slots of the NALU FIFO pool, NIL for NULL).
   */
  datatype AccessUnit = AccessUnit(
    buffer: Ptr, bufferSize: u32, metadataBuffer: Ptr, metadataBufferSize: u32,
    userDataBuffer: Ptr, userDataBufferSize: u32,
    auSize: u32, metadataSize: u32, userDataSize: u32,
    inputTimestamp: u64, timeoutTimestamp: u64, ntpTimestamp: u64, extRtpTimestamp: u64, rtpTimestamp: u64,
    naluCount: int, naluHead: int, naluTail: int)

  /** Every field zero or NULL, the NALU type UNKNOWN and the slice type NON_VCL. */
  predicate IsResetNalu(n: NalUnit) {
    n.inputTimestamp == 0 && n.timeoutTimestamp == 0 && n.ntpTimestamp == 0 &&
    n.extRtpTimestamp == 0 && n.rtpTimestamp == 0 &&
    n.isLastInAu == 0 && n.seqNumForcedDiscontinuity == 0 && n.missingPacketsBefore == 0 &&
    n.importance == 0 && n.priority == 0 &&
    n.metadata == Null && n.metadataSize == 0 && n.nalu == Null && n.naluSize == 0 &&
    n.auUserPtr == Null && n.naluUserPtr == Null &&
    n.naluType == NaluTypeUnknown && n.sliceType == SliceTypeNonVcl
  }

  const EmptyNalu: NalUnit :=
    NalUnit(0, 0, 0, 0, 0, 0, 0, 0, 0, 0, Null, 0, Null, 0, Null, Null, NaluTypeUnknown, SliceTypeNonVcl)

  function NaluReset(n: NalUnit): (r: NalUnit)
    ensures IsResetNalu(r)
  {
    EmptyNalu
  }

  /** The reset state is a single record: a NALU is reset exactly when resetting it changes nothing. */
  lemma NaluResetUnique(n: NalUnit, m: NalUnit)
    ensures IsResetNalu(n) <==> n == NaluReset(m)
  {
    if IsResetNalu(n) {
      assert n == EmptyNalu;
    }
  }

  /** The two access units own the same buffers with the same capacities. */
  predicate SameBuffers(a: AccessUnit, b: AccessUnit) {
    a.buffer == b.buffer && a.bufferSize == b.bufferSize &&
    a.metadataBuffer == b.metadataBuffer && a.metadataBufferSize == b.metadataBufferSize &&
    a.userDataBuffer == b.userDataBuffer && a.userDataBufferSize == b.userDataBufferSize
  }

  /** Nothing used in the buffers, no timestamps and an empty NALU list. */
  predicate IsEmptyAu(au: AccessUnit) {
    au.auSize == 0 && au.metadataSize == 0 && au.userDataSize == 0 &&
    au.inputTimestamp == 0 && au.timeoutTimestamp == 0 && au.ntpTimestamp == 0 &&
    au.extRtpTimestamp == 0 && au.rtpTimestamp == 0 &&
    au.naluCount == 0 && au.naluHead == NIL && au.naluTail == NIL
  }

  function AuReset(au: AccessUnit): (r: AccessUnit)
    ensures IsEmptyAu(r) && SameBuffers(r, au)
  {
    au.(auSize := 0, metadataSize := 0, userDataSize := 0,
        inputTimestamp := 0, timeoutTimestamp := 0, ntpTimestamp := 0, extRtpTimestamp := 0, rtpTimestamp := 0,
        naluCount := 0, naluHead := NIL, naluTail := NIL)
  }

  /**
   * AuReset keeps the buffers and nothing else: two access units reset to
   * the same record exactly when they own the same buffers, and a reset
   * access unit holds the empty NALU list whatever the pool.
   */
  lemma AuResetKeepsOnlyBuffers<T>(a: AccessUnit, b: AccessUnit, s: seq<Slot<T>>)
    ensures AuReset(a) == AuReset(b) <==> SameBuffers(a, b)
    ensures AuReset(AuReset(a)) == AuReset(a)
    ensures AuList(s, AuReset(a), [])
  {
  }

  /*
   * FIFO initialisation. The pool allocation and the free-list loop are
   * Fifo.Init; the AU FIFO then gives each item its own buffers.
   */

  method NaluFifoInit(maxCount: int) returns (ret: int, fifo: Fifo?<NalUnit>)
    ensures maxCount <= 0 ==> ret == -1 && fifo == null
    ensures maxCount > 0 ==> ret == 0 && fifo != null && fresh(fifo) && fresh(fifo.pool)
    ensures maxCount > 0 ==> fifo.Valid() && fifo.Conserved() && fifo.size == maxCount
    ensures maxCount > 0 ==> fifo.queue == [] && fifo.freeList == Descending(maxCount)
    ensures maxCount > 0 ==> forall j :: 0 <= j < maxCount ==> IsResetNalu(fifo.pool[j].value)
  {
    if maxCount <= 0 {
      return -1, null;
    }
    fifo := new Fifo<NalUnit>.Init(maxCount, _ => EmptyNalu);
    ret := 0;
  }

  /** Item j of a fresh AU FIFO: zeroed, with buffers of the configured sizes where a size is positive. */
  function InitialAu(j: int, bufferSize: i32, metadataBufferSize: i32, userDataBufferSize: i32): AccessUnit {
    AccessUnit(
      if bufferSize > 0 then Ptr(3 * j) else Null, if bufferSize > 0 then bufferSize else 0,
      if metadataBufferSize > 0 then Ptr(3 * j + 1) else Null, if metadataBufferSize > 0 then metadataBufferSize else 0,
      if userDataBufferSize > 0 then Ptr(3 * j + 2) else Null, if userDataBufferSize > 0 then userDataBufferSize else 0,
      0, 0, 0, 0, 0, 0, 0, 0, 0, NIL, NIL)
  }

  method AuFifoInit(maxCount: int, bufferSize: i32, metadataBufferSize: i32, userDataBufferSize: i32)
    returns (ret: int, fifo: Fifo?<AccessUnit>)
    ensures maxCount <= 0 ==> ret == -1 && fifo == null
    ensures maxCount > 0 ==> ret == 0 && fifo != null && fresh(fifo) && fresh(fifo.pool)
    ensures maxCount > 0 ==> fifo.Valid() && fifo.Conserved() && fifo.size == maxCount
    ensures maxCount > 0 ==> fifo.queue == [] && fifo.freeList == Descending(maxCount)
    ensures maxCount > 0 ==> forall j :: 0 <= j < maxCount ==>
      var au := fifo.pool[j].value;
      IsEmptyAu(au) &&
      (au.buffer != Null <==> bufferSize > 0) && au.bufferSize == (if bufferSize > 0 then bufferSize else 0) &&
      (au.metadataBuffer != Null <==> metadataBufferSize > 0) &&
      au.metadataBufferSize == (if metadataBufferSize > 0 then metadataBufferSize else 0) &&
      (au.userDataBuffer != Null <==> userDataBufferSize > 0) &&
      au.userDataBufferSize == (if userDataBufferSize > 0 then userDataBufferSize else 0)
  {
    if maxCount <= 0 {
      return -1, null;
    }
    fifo := new Fifo<AccessUnit>.Init(maxCount, j => InitialAu(j, bufferSize, metadataBufferSize, userDataBufferSize));
    ret := 0;
  }

  /*
   * The NALU list of an access unit.
   */

  /** `l` is the NALU list of `au` in the NALU pool `s`: linked, and matching its head, tail and count. */
  ghost predicate AuList<T>(s: seq<Slot<T>>, au: AccessUnit, l: seq<int>) {
    Chain(s, l) && InRange(l, |s|) && au.naluHead == First(l) && au.naluTail == Last(l) && au.naluCount == |l|
  }

  /** All slots of l are held by the owner of the access unit. */
  ghost predicate AllHeld<T>(nalus: Fifo<T>, l: seq<int>)
    reads nalus
  {
    forall x :: x in l ==> nalus.Held(x)
  }

  /** The five timestamps an access unit takes from its first NALU. */
  function WithTimestampsOf(au: AccessUnit, n: NalUnit): AccessUnit {
    au.(inputTimestamp := n.inputTimestamp, timeoutTimestamp := n.timeoutTimestamp,
        ntpTimestamp := n.ntpTimestamp, extRtpTimestamp := n.extRtpTimestamp, rtpTimestamp := n.rtpTimestamp)
  }

  /**
   * Appends the held NALU item k to the access unit. The first NALU of an
   * access unit gives it its timestamps.
   */
  method AuEnqueueNalu(au: AccessUnit, nalus: Fifo<NalUnit>, k: int, ghost l: seq<int>) returns (au': AccessUnit)
    requires nalus.Valid() && AuList(nalus.pool[..], au, l) && AllHeld(nalus, l) && nalus.Held(k) && k !in l
    modifies nalus.pool
    ensures nalus.Valid() && AuList(nalus.pool[..], au', l + [k]) && AllHeld(nalus, l + [k])
    ensures nalus.pool[..] == PushBackLinks(old(nalus.pool[..]), l, NIL, k)
    ensures au' == (if au.naluCount == 0 then WithTimestampsOf(au, old(nalus.pool[k].value)) else au)
                     .(naluCount := au.naluCount + 1, naluHead := First(l + [k]), naluTail := k)
  {
    ghost var s := nalus.pool[..];
    au' := au;
    if au.naluCount == 0 {
      au' := WithTimestampsOf(au', nalus.pool[k].value);
    }
    if au.naluTail != NIL {
      nalus.pool[au.naluTail] := nalus.pool[au.naluTail].(next := k);
      nalus.pool[k] := nalus.pool[k].(prev := au.naluTail, next := NIL);
    } else {
      nalus.pool[k] := nalus.pool[k].(prev := NIL, next := NIL);
    }
    au' := au'.(naluTail := k);
    if au.naluHead == NIL {
      au' := au'.(naluHead := k);
    }
    au' := au'.(naluCount := au.naluCount + 1);
    assert nalus.pool[..] == PushBackLinks(s, l, NIL, k);
    PushBackChain(s, l, NIL, k);
    assert l != [] ==> Last(l) in l;
    EditHeld(s, nalus.pool[..], nalus.queue, nalus.freeList, nalus.contents, {k, Last(l)});
  }

  /**
   * Takes the first NALU item off the access unit's list; NIL when the list
   * is empty. The access unit keeps its timestamps.
   */
  method AuDequeueNalu(au: AccessUnit, nalus: Fifo<NalUnit>, ghost l: seq<int>) returns (au': AccessUnit, k: int)
    requires nalus.Valid() && AuList(nalus.pool[..], au, l) && AllHeld(nalus, l)
    modifies nalus.pool
    ensures nalus.Valid()
    ensures l == [] ==> k == NIL && au' == au && nalus.pool[..] == old(nalus.pool[..])
    ensures l != [] ==> k == l[0] && AuList(nalus.pool[..], au', l[1..]) && AllHeld(nalus, l[1..])
    ensures l != [] ==> nalus.pool[..] == PopFrontLinks(old(nalus.pool[..]), l)
    ensures l != [] ==> au' == au.(naluCount := |l| - 1, naluHead := First(l[1..]), naluTail := Last(l[1..]))
  {
    if au.naluHead == NIL || au.naluCount == 0 {
      return au, NIL;
    }
    ghost var s := nalus.pool[..];
    k := au.naluHead;
    var next := nalus.pool[k].next;
    assert l[0] in l;
    PopFrontChain(s, l);
    if next != NIL {
      nalus.pool[next] := nalus.pool[next].(prev := NIL);
      au' := au.(naluHead := next, naluCount := au.naluCount - 1);
    } else {
      au' := au.(naluHead := NIL, naluCount := 0, naluTail := NIL);
    }
    nalus.pool[k] := nalus.pool[k].(prev := NIL, next := NIL);
    assert nalus.pool[..] == PopFrontLinks(s, l);
    assert |l| > 1 ==> l[1] in l && Last(l[1..]) == Last(l);
    EditHeld(s, nalus.pool[..], nalus.queue, nalus.freeList, nalus.contents, if |l| > 1 then {k, l[1]} else {k});
  }

  /**
   * Inserts the held NALU item k in front of next, the item at position i
   * of the access unit's list; k becomes the head when next was the head.
   * This is the evidently intended behaviour: the item before next is made
   * to point forward to k.
   */
  method AuEnqueueNaluBefore(au: AccessUnit, nalus: Fifo<NalUnit>, k: int, next: int, ghost l: seq<int>, ghost i: int)
    returns (au': AccessUnit)
    requires nalus.Valid() && AuList(nalus.pool[..], au, l) && AllHeld(nalus, l) && nalus.Held(k) && k !in l
    requires 0 <= i < |l| && l[i] == next
    modifies nalus.pool
    ensures nalus.Valid() && AuList(nalus.pool[..], au', l[..i] + [k] + l[i..]) && AllHeld(nalus, l[..i] + [k] + l[i..])
    ensures nalus.pool[..] == InsertLinks(old(nalus.pool[..]), l, NIL, i, k)
    ensures au' == au.(naluCount := au.naluCount + 1, naluHead := if i == 0 then k else au.naluHead)
  {
    ghost var s := nalus.pool[..];
    var wasHead := SpliceIn(nalus.pool, k, next, l, i);
    au' := au;
    if wasHead {
      au' := au'.(naluHead := k);
    }
    au' := au'.(naluCount := au.naluCount + 1);
    InsertKeepsAuList(s, au, l, i, k);
    EditHeld(s, nalus.pool[..], nalus.queue, nalus.freeList, nalus.contents, if i > 0 then {k, l[i], l[i - 1]} else {k, l[i]});
  }

  /** Inserting k at position i of an access unit's list gives the access unit one more NALU at that position. */
  lemma InsertKeepsAuList<T>(s: seq<Slot<T>>, au: AccessUnit, l: seq<int>, i: int, k: int)
    requires AuList(s, au, l) && 0 <= i < |l| && 0 <= k < |s| && k !in l
    ensures var t := InsertLinks(s, l, NIL, i, k);
      var r := l[..i] + [k] + l[i..];
      AuList(t, au.(naluCount := au.naluCount + 1, naluHead := if i == 0 then k else au.naluHead), r) &&
      SameValues(s, t) && (forall x :: x in r ==> x in l || x == k) && l[i] in l && (i > 0 ==> l[i - 1] in l) &&
      forall x :: 0 <= x < |s| && x != k && x != l[i] && (i == 0 || x != l[i - 1]) ==> t[x] == s[x]
  {
    var r := l[..i] + [k] + l[i..];
    InsertChain(s, l, NIL, i, k);
    assert r[0] == (if i == 0 then k else l[0]) && Last(r) == Last(l) by {
      assert r[|r| - 1] == l[|l| - 1];
    }
    assert forall x :: x in r ==> x in l || x == k;
  }

  /** The pointer writes of AuEnqueueNaluBefore; reports whether next was the head. */
  method SpliceIn<T>(pool: array<Slot<T>>, k: int, next: int, ghost l: seq<int>, ghost i: int) returns (wasHead: bool)
    requires Chain(pool[..], l) && InRange(l, pool.Length) && 0 <= i < |l| && l[i] == next && 0 <= k < pool.Length && k !in l
    modifies pool
    ensures pool[..] == InsertLinks(old(pool[..]), l, NIL, i, k) && wasHead == (i == 0)
  {
    ChainAt(pool[..], l, i);
    LinkedDistinct(pool[..], l, NIL);
    var p := pool[next].prev;
    pool[k] := pool[k].(next := next);
    if p != NIL {
      pool[k] := pool[k].(prev := p);
      pool[p] := pool[p].(next := k);
    } else {
      pool[k] := pool[k].(prev := NIL);
    }
    pool[next] := pool[next].(prev := k);
    wasHead := p == NIL;
  }

  /** The links AuEnqueueNaluBefore leaves as written: the item before next keeps pointing to next. */
  ghost function InsertLinksAsWritten<T>(s: seq<Slot<T>>, l: seq<int>, i: int, k: int): seq<Slot<T>>
    requires InRange(l, |s|) && 0 <= i < |l| && 0 <= k < |s|
  {
    var p := if i == 0 then NIL else l[i - 1];
    var t := s[k := s[k].(prev := p, next := l[i])];
    t[l[i] := t[l[i]].(prev := k)]
  }

  /** AuEnqueueNaluBefore as written: the predecessor's next pointer is never set. */
  method AuEnqueueNaluBeforeAsWritten(au: AccessUnit, nalus: Fifo<NalUnit>, k: int, next: int, ghost l: seq<int>, ghost i: int)
    returns (au': AccessUnit)
    requires nalus.Valid() && AuList(nalus.pool[..], au, l) && AllHeld(nalus, l) && nalus.Held(k) && k !in l
    requires 0 <= i < |l| && l[i] == next
    modifies nalus.pool
    ensures nalus.Valid()
    ensures nalus.pool[..] == InsertLinksAsWritten(old(nalus.pool[..]), l, i, k)
    ensures au' == au.(naluCount := au.naluCount + 1, naluHead := if i == 0 then k else au.naluHead)
  {
    ghost var s := nalus.pool[..];
    ChainAt(s, l, i);
    var p := nalus.pool[next].prev;
    nalus.pool[k] := nalus.pool[k].(next := next);
    au' := au;
    if p != NIL {
      nalus.pool[k] := nalus.pool[k].(prev := p);
    } else {
      nalus.pool[k] := nalus.pool[k].(prev := NIL);
      au' := au'.(naluHead := k);
    }
    nalus.pool[next] := nalus.pool[next].(prev := k);
    au' := au'.(naluCount := au.naluCount + 1);
    assert nalus.pool[..] == InsertLinksAsWritten(s, l, i, k);
    assert l[i] in l;
    EditHeld(s, nalus.pool[..], nalus.queue, nalus.freeList, nalus.contents, {k, l[i]});
  }

  /**
   * As written, an insertion anywhere but at the head does not produce the
   * intended list: walking forward from the head still goes from the item
   * before next straight to next, so the inserted item is counted in
   * naluCount but never reached. At the head the code is right.
   */
  lemma EnqueueBeforeAsWrittenLosesItem<T>(s: seq<Slot<T>>, l: seq<int>, i: int, k: int)
    requires Chain(s, l) && InRange(l, |s|) && 0 <= i < |l| && 0 <= k < |s| && k !in l
    ensures var t := InsertLinksAsWritten(s, l, i, k);
      (i == 0 ==> t == InsertLinks(s, l, NIL, i, k)) &&
      (i > 0 ==> t[l[i - 1]].next == l[i] && !Chain(t, l[..i] + [k] + l[i..]))
  {
    var t := InsertLinksAsWritten(s, l, i, k);
    if i > 0 {
      var r := l[..i] + [k] + l[i..];
      ChainAt(s, l, i - 1);
      LinkedDistinct(s, l, NIL);
      assert t[l[i - 1]].next == l[i];
      if Chain(t, r) {
        assert r[i - 1] == l[i - 1] && r[i] == k;
        ChainAt(t, r, i - 1);
        assert false;
      }
    }
  }

  /*
   * Growing the access-unit buffer. MIN_REALLOC (the minimum growth step,
   * whose value is in arstream2_h264.h) and the outcome of realloc are
   * parameters; the arithmetic is on unsigned int.
   */

  /** The size realloc is asked for: the needed size, or at least MIN_REALLOC more than the current capacity. */
  function NewBufferSize(au: AccessUnit, size: u32, minRealloc: u32): u32 {
    var needed := U32(au.auSize + size);
    var stepped := U32(au.bufferSize + minRealloc);
    if needed < stepped then stepped else needed
  }

  /**
   * AuCheckSizeRealloc as written: when the data does not fit, the buffer is
   * replaced by realloc's result (NULL on failure, -1), but bufferSize keeps
   * the old capacity.
   */
  function AuCheckSizeReallocAsWritten(au: AccessUnit, size: u32, minRealloc: u32, realloced: Ptr): (r: (int, AccessUnit))
    ensures r.0 == 0 || r.0 == -1
    ensures r.1.bufferSize == au.bufferSize
    ensures U32(au.auSize + size) <= au.bufferSize ==> r == (0, au)
  {
    if U32(au.auSize + size) > au.bufferSize then
      var au' := au.(buffer := realloced);
      if realloced == Null then (-1, au') else (0, au')
    else
      (0, au)
  }

  /**
   * As written, a successful growth leaves the recorded capacity too small
   * for the data it was grown for (an empty access unit with no capacity
   * asked for one byte), so the next check reallocates again.
   */
  lemma AuCheckSizeReallocAsWrittenKeepsSize()
    ensures var au := InitialAu(0, 0, 0, 0);
      var r := AuCheckSizeReallocAsWritten(au, 1, 0, Ptr(7));
      r.0 == 0 && r.1.bufferSize < U32(r.1.auSize + 1) &&
      AuCheckSizeReallocAsWritten(r.1, 1, 0, Ptr(8)).1.buffer == Ptr(8)
  {
  }

  /**
   * AuCheckSizeRealloc with the capacity recorded: after a 0 result the
   * buffer has room for auSize + size bytes, and only the buffer and its
   * capacity ever change.
   */
  function AuCheckSizeRealloc(au: AccessUnit, size: u32, minRealloc: u32, realloced: Ptr): (r: (int, AccessUnit))
    ensures r.0 == (if U32(au.auSize + size) > au.bufferSize && realloced == Null then -1 else 0)
    ensures r.0 == 0 ==> U32(au.auSize + size) <= r.1.bufferSize
    ensures r.1 == au.(buffer := r.1.buffer, bufferSize := r.1.bufferSize)
    ensures U32(au.auSize + size) <= au.bufferSize ==> r == (0, au)
  {
    if U32(au.auSize + size) > au.bufferSize then
      var newSize := NewBufferSize(au, size, minRealloc);
      if realloced == Null then (-1, au.(buffer := realloced)) else (0, au.(buffer := realloced, bufferSize := newSize))
    else
      (0, au)
  }

  /** Once a check succeeded, checking again for the same size leaves the access unit alone. */
  lemma AuCheckSizeReallocSettles(au: AccessUnit, size: u32, minRealloc: u32, realloced: Ptr, again: Ptr)
    requires AuCheckSizeRealloc(au, size, minRealloc, realloced).0 == 0
    ensures var au' := AuCheckSizeRealloc(au, size, minRealloc, realloced).1;
      AuCheckSizeRealloc(au', size, minRealloc, again) == (0, au')
  {
  }
}
