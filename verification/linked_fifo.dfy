/*
 * The intrusive FIFO shared by the packet, NALU and access-unit queues of the
 * library: a fixed pool of items, each carrying `prev`/`next` links, threaded
 * into a LIFO free list and a head/tail queue with a `count`.
 *
 * Pointers into the pool are modelled as slot indices, NULL as NIL (-1).
 * The ghost sequences `queue` and `freeList` name the slots on each list in
 * list order; a slot on neither list is "held" by a caller (popped from the
 * free list or dequeued and not yet given back). The links of held slots are
 * left to the caller, which is how the per-access-unit NALU list reuses them.
 */
module LinkedFifo {

  const NIL: int := -1

  /** One pool item: the payload and the two links. */
  datatype Slot<T> = Slot(value: T, prev: int, next: int)

  ghost predicate InRange(l: seq<int>, n: int) {
    forall i :: 0 <= i < |l| ==> 0 <= l[i] < n
  }

  ghost predicate Disjoint(a: seq<int>, b: seq<int>) {
    forall x :: x in a ==> x !in b
  }

  /** The head pointer of a list: its first slot, or NIL when empty. */
  function First(l: seq<int>): int {
    if l == [] then NIL else l[0]
  }

  /** The tail pointer of a list: its last slot, or NIL when empty. */
  function Last(l: seq<int>): int {
    if l == [] then NIL else l[|l| - 1]
  }

  /**
   * The slots of `l` are doubly linked through `s`, link by link: each is a
   * pool index, occurs once, points back to its predecessor (`prev` for the
   * first one) and forward to its successor (NIL after the last one).
   */
  ghost predicate Linked<T>(s: seq<Slot<T>>, l: seq<int>, prev: int)
    decreases |l|
  {
    l == [] ||
    (0 <= l[0] < |s| && s[l[0]].prev == prev && s[l[0]].next == First(l[1..]) &&
     l[0] !in l[1..] && Linked(s, l[1..], l[0]))
  }

  /** A whole NULL-terminated list: nothing before its head. */
  ghost predicate Chain<T>(s: seq<Slot<T>>, l: seq<int>) {
    Linked(s, l, NIL)
  }

  /** `l` carries the payloads `c`, in order. */
  ghost predicate Carries<T>(s: seq<Slot<T>>, l: seq<int>, c: seq<T>) {
    |c| == |l| && forall i :: 0 <= i < |l| ==> 0 <= l[i] < |s| && s[l[i]].value == c[i]
  }

  /** Link edits leave every payload in place. */
  ghost predicate SameValues<T>(s: seq<Slot<T>>, t: seq<Slot<T>>) {
    |t| == |s| && forall j :: 0 <= j < |s| ==> t[j].value == s[j].value
  }

  /** Splicing out position i of a list splices out its payload. */
  lemma CarriesRemove<T>(s: seq<Slot<T>>, t: seq<Slot<T>>, l: seq<int>, c: seq<T>, i: int)
    requires Carries(s, l, c) && SameValues(s, t) && 0 <= i < |l|
    ensures Carries(t, l[..i] + l[i + 1..], c[..i] + c[i + 1..])
  {
    var r := l[..i] + l[i + 1..];
    var d := c[..i] + c[i + 1..];
    forall j | 0 <= j < |r| ensures 0 <= r[j] < |t| && t[r[j]].value == d[j] {
      var src := if j < i then j else j + 1;
      assert r[j] == l[src] && d[j] == c[src];
    }
  }

  /** [n-1, ..., 1, 0]: the free list built by pushing pool[0], pool[1], ... in turn. */
  ghost function Descending(n: nat): seq<int> {
    if n == 0 then [] else [n - 1] + Descending(n - 1)
  }

  lemma {:induction false} DescendingAt(n: nat, i: int)
    requires 0 <= i < n
    ensures |Descending(n)| == n && Descending(n)[i] == n - 1 - i
  {
    if i > 0 {
      DescendingAt(n - 1, i - 1);
    } else if n > 1 {
      DescendingAt(n - 1, 0);
    }
  }

  lemma {:induction false} DescendingLength(n: nat)
    ensures |Descending(n)| == n
  {
    if n > 0 { DescendingLength(n - 1); }
  }

  /** Every slot of a pool of n items is on the initial free list. */
  lemma DescendingCovers(n: nat)
    ensures |Descending(n)| == n && InRange(Descending(n), n)
    ensures forall k :: 0 <= k < n ==> k in Descending(n)
  {
    DescendingLength(n);
    forall i | 0 <= i < n ensures Descending(n)[i] == n - 1 - i { DescendingAt(n, i); }
    forall k | 0 <= k < n ensures k in Descending(n) {
      assert Descending(n)[n - 1 - k] == k;
    }
  }

  /** The links around position i of a linked list. */
  lemma {:induction false} LinkedAt<T>(s: seq<Slot<T>>, l: seq<int>, p: int, i: int)
    requires Linked(s, l, p) && 0 <= i < |l|
    ensures 0 <= l[i] < |s|
    ensures s[l[i]].next == (if i + 1 < |l| then l[i + 1] else NIL)
    ensures s[l[i]].prev == (if i == 0 then p else l[i - 1])
  {
    if i > 0 {
      LinkedAt(s, l[1..], l[0], i - 1);
    }
  }

  lemma ChainAt<T>(s: seq<Slot<T>>, l: seq<int>, i: int)
    requires Chain(s, l) && 0 <= i < |l|
    ensures 0 <= l[i] < |s|
    ensures s[l[i]].next == (if i + 1 < |l| then l[i + 1] else NIL)
    ensures s[l[i]].prev == (if i == 0 then NIL else l[i - 1])
  {
    LinkedAt(s, l, NIL, i);
  }

  /** No slot occurs twice on a linked list. */
  lemma {:induction false} LinkedDistinct<T>(s: seq<Slot<T>>, l: seq<int>, p: int)
    requires Linked(s, l, p)
    ensures forall i, j :: 0 <= i < j < |l| ==> l[i] != l[j]
  {
    if l != [] {
      LinkedDistinct(s, l[1..], l[0]);
      forall i, j | 0 <= i < j < |l| ensures l[i] != l[j] {
        if i == 0 {
          assert l[j] == l[1..][j - 1];
        } else {
          assert l[i] == l[1..][i - 1] && l[j] == l[1..][j - 1];
        }
      }
    }
  }

  /** A linked list only depends on the links of its own slots. */
  lemma {:induction false} LinkedFrame<T>(s: seq<Slot<T>>, t: seq<Slot<T>>, l: seq<int>, p: int)
    requires Linked(s, l, p) && |t| == |s|
    requires forall x :: x in l && 0 <= x < |s| ==> t[x].prev == s[x].prev && t[x].next == s[x].next
    ensures Linked(t, l, p)
  {
    if l != [] {
      assert l[0] in l;
      LinkedFrame(s, t, l[1..], l[0]);
    }
  }

  /** The links after unlinking the first slot of list l (the successor's prev and the slot's own links cleared). */
  ghost function PopFrontLinks<T>(s: seq<Slot<T>>, l: seq<int>): seq<Slot<T>>
    requires InRange(l, |s|) && l != []
  {
    var t := if |l| > 1 then s[l[1] := s[l[1]].(prev := NIL)] else s;
    t[l[0] := t[l[0]].(prev := NIL, next := NIL)]
  }

  /** The links after pushing slot k in front of list l. */
  ghost function PushFrontLinks<T>(s: seq<Slot<T>>, l: seq<int>, k: int): seq<Slot<T>>
    requires InRange(l, |s|) && 0 <= k < |s|
  {
    var t := if l != [] then s[l[0] := s[l[0]].(prev := k)] else s;
    t[k := t[k].(prev := NIL, next := First(l))]
  }

  /**
   * The links after appending slot k behind list l, whose predecessor is p
   * (NIL for a whole list): the old last slot, or p when l is empty, points
   * to k.
   */
  ghost function PushBackLinks<T>(s: seq<Slot<T>>, l: seq<int>, p: int, k: int): seq<Slot<T>>
    requires InRange(l, |s|) && 0 <= k < |s| && (p == NIL || 0 <= p < |s|)
  {
    var last := if l == [] then p else Last(l);
    var t := if last != NIL then s[last := s[last].(next := k)] else s;
    t[k := t[k].(prev := last, next := NIL)]
  }

  /**
   * The links after splicing out the slot at position i of list l, whose
   * predecessor is p0 (NIL for a whole list); the slot's own links stay.
   */
  ghost function RemoveLinks<T>(s: seq<Slot<T>>, l: seq<int>, p0: int, i: int): seq<Slot<T>>
    requires InRange(l, |s|) && 0 <= i < |l| && (p0 == NIL || 0 <= p0 < |s|)
  {
    var p := if i == 0 then p0 else l[i - 1];
    var nx := if i + 1 < |l| then l[i + 1] else NIL;
    var t := if nx != NIL then s[nx := s[nx].(prev := p)] else s;
    if p != NIL then t[p := t[p].(next := nx)] else t
  }

  lemma PopFrontChain<T>(s: seq<Slot<T>>, l: seq<int>)
    requires Chain(s, l) && InRange(l, |s|) && l != []
    ensures var t := PopFrontLinks(s, l);
      |t| == |s| && Chain(t, l[1..]) && t[l[0]] == Slot(s[l[0]].value, NIL, NIL) &&
      l[0] !in l[1..] && First(l[1..]) == s[l[0]].next && SameValues(s, t)
  {
    var t := PopFrontLinks(s, l);
    var r := l[1..];
    assert Linked(s, r, l[0]);
    if r != [] {
      assert Linked(s, r[1..], r[0]) && r[0] !in r[1..];
      LinkedFrame(s, t, r[1..], r[0]);
      assert Linked(t, r, NIL);
    }
  }

  lemma PushFrontChain<T>(s: seq<Slot<T>>, l: seq<int>, k: int)
    requires Chain(s, l) && InRange(l, |s|) && 0 <= k < |s| && k !in l
    ensures var t := PushFrontLinks(s, l, k);
      |t| == |s| && Chain(t, [k] + l) && SameValues(s, t)
  {
    var t := PushFrontLinks(s, l, k);
    var r := [k] + l;
    assert r[1..] == l;
    if l != [] {
      assert Linked(s, l[1..], l[0]) && l[0] !in l[1..];
      LinkedFrame(s, t, l[1..], l[0]);
      assert Linked(t, l, k);
    }
    assert Linked(t, r, NIL);
  }

  lemma {:induction false} PushBackChain<T>(s: seq<Slot<T>>, l: seq<int>, p: int, k: int)
    requires Linked(s, l, p) && InRange(l, |s|) && 0 <= k < |s| && k !in l && k != p
    requires p == NIL || 0 <= p < |s|
    ensures var t := PushBackLinks(s, l, p, k);
      |t| == |s| && Linked(t, l + [k], p) && SameValues(s, t)
  {
    var t := PushBackLinks(s, l, p, k);
    var r := l + [k];
    if l == [] {
      assert r == [k] && r[1..] == [];
    } else {
      assert r[0] == l[0] && r[1..] == l[1..] + [k];
      assert Linked(s, l[1..], l[0]) && l[0] !in l[1..];
      PushBackChain(s, l[1..], l[0], k);
      assert PushBackLinks(s, l[1..], l[0], k) == t;
      if |l| > 1 {
        assert Last(l) == l[1..][|l| - 2];
        assert Last(l) != l[0];
      }
    }
  }

  /** RemoveChain at the first position: the successor takes over the predecessor p0. */
  lemma RemoveFirstChain<T>(s: seq<Slot<T>>, l: seq<int>, p0: int)
    requires Linked(s, l, p0) && InRange(l, |s|) && l != []
    requires p0 == NIL || (0 <= p0 < |s| && p0 !in l)
    ensures var t := RemoveLinks(s, l, p0, 0);
      |t| == |s| && Linked(t, l[1..], p0) && SameValues(s, t)
  {
    var t := RemoveLinks(s, l, p0, 0);
    assert Linked(s, l[1..], l[0]);
    if |l| > 1 {
      var u := l[1..];
      assert Linked(s, u[1..], u[0]) && u[0] !in u[1..];
      assert u[0] in l;
      LinkedFrame(s, t, u[1..], u[0]);
      assert Linked(t, u, p0);
    }
  }

  lemma {:induction false} RemoveChain<T>(s: seq<Slot<T>>, l: seq<int>, p0: int, i: int)
    requires Linked(s, l, p0) && InRange(l, |s|) && 0 <= i < |l|
    requires p0 == NIL || (0 <= p0 < |s| && p0 !in l)
    ensures var t := RemoveLinks(s, l, p0, i);
      |t| == |s| && Linked(t, l[..i] + l[i + 1..], p0) && SameValues(s, t)
    decreases |l|, 1
  {
    if i == 0 {
      assert l[..i] + l[i + 1..] == l[1..];
      RemoveFirstChain(s, l, p0);
    } else {
      RemoveLaterChain(s, l, p0, i);
    }
  }

  /** RemoveChain past the first position: the first slot stays, the rest is the same removal one step in. */
  lemma {:induction false} RemoveLaterChain<T>(s: seq<Slot<T>>, l: seq<int>, p0: int, i: int)
    requires Linked(s, l, p0) && InRange(l, |s|) && 0 < i < |l|
    requires p0 == NIL || (0 <= p0 < |s| && p0 !in l)
    ensures var t := RemoveLinks(s, l, p0, i);
      |t| == |s| && Linked(t, l[..i] + l[i + 1..], p0) && SameValues(s, t)
    decreases |l|, 0
  {
    var r := l[..i] + l[i + 1..];
    var t := RemoveLinks(s, l, p0, i);
    assert Linked(s, l[1..], l[0]) && l[0] !in l[1..];
    assert r[0] == l[0] && r[1..] == l[1..][..i - 1] + l[1..][i..];
    RemoveChain(s, l[1..], l[0], i - 1);
    assert RemoveLinks(s, l[1..], l[0], i - 1) == t;
    LinkedDistinct(s, l, p0);
    assert i + 1 < |l| ==> l[0] != l[i + 1];
    assert i > 1 ==> l[0] != l[i - 1];
    assert forall x :: x in r[1..] ==> x in l[1..];
  }

  /*
   * The pool holds two lists at once. Each edit of one list below keeps the
   * other list's chain, and the two lists apart.
   */

  /** The queue and the free list, both well linked, in the pool and apart. */
  ghost predicate Lists<T>(s: seq<Slot<T>>, q: seq<int>, f: seq<int>) {
    Chain(s, q) && Chain(s, f) && InRange(q, |s|) && InRange(f, |s|) && Disjoint(q, f)
  }

  lemma PopFrontPair<T>(s: seq<Slot<T>>, l: seq<int>, o: seq<int>)
    requires Chain(s, l) && Chain(s, o) && InRange(l, |s|) && Disjoint(l, o) && l != []
    ensures var t := PopFrontLinks(s, l);
      |t| == |s| && Chain(t, l[1..]) && Chain(t, o) && Disjoint(l[1..], o) && Disjoint(o, l[1..]) &&
      InRange(l[1..], |s|) && l[0] !in o && l[0] !in l[1..] && First(l[1..]) == s[l[0]].next &&
      (|l| > 1 ==> Last(l[1..]) == Last(l)) &&
      t[l[0]] == Slot(s[l[0]].value, NIL, NIL) && SameValues(s, t)
  {
    var t := PopFrontLinks(s, l);
    PopFrontChain(s, l);
    assert l[0] in l;
    assert |l| > 1 ==> l[1] in l;
    LinkedFrame(s, t, o, NIL);
  }

  lemma PushFrontPair<T>(s: seq<Slot<T>>, l: seq<int>, o: seq<int>, k: int)
    requires Chain(s, l) && Chain(s, o) && InRange(l, |s|) && Disjoint(l, o)
    requires 0 <= k < |s| && k !in l && k !in o
    ensures var t := PushFrontLinks(s, l, k);
      |t| == |s| && Chain(t, [k] + l) && Chain(t, o) && Disjoint([k] + l, o) && Disjoint(o, [k] + l) &&
      InRange([k] + l, |s|) && SameValues(s, t)
  {
    var t := PushFrontLinks(s, l, k);
    PushFrontChain(s, l, k);
    assert l != [] ==> l[0] in l;
    LinkedFrame(s, t, o, NIL);
  }

  lemma PushBackPair<T>(s: seq<Slot<T>>, l: seq<int>, o: seq<int>, k: int)
    requires Chain(s, l) && Chain(s, o) && InRange(l, |s|) && Disjoint(l, o)
    requires 0 <= k < |s| && k !in l && k !in o
    ensures var t := PushBackLinks(s, l, NIL, k);
      |t| == |s| && Chain(t, l + [k]) && Chain(t, o) && Disjoint(l + [k], o) && Disjoint(o, l + [k]) &&
      InRange(l + [k], |s|) && SameValues(s, t)
  {
    var t := PushBackLinks(s, l, NIL, k);
    PushBackChain(s, l, NIL, k);
    assert l != [] ==> Last(l) in l;
    LinkedFrame(s, t, o, NIL);
  }

  lemma RemovePair<T>(s: seq<Slot<T>>, l: seq<int>, o: seq<int>, i: int)
    requires Chain(s, l) && Chain(s, o) && InRange(l, |s|) && Disjoint(l, o) && 0 <= i < |l|
    ensures var t := RemoveLinks(s, l, NIL, i);
      var r := l[..i] + l[i + 1..];
      |t| == |s| && Chain(t, r) && Chain(t, o) && Disjoint(r, o) && Disjoint(o, r) &&
      InRange(r, |s|) && l[i] !in o && l[i] !in r && t[l[i]] == s[l[i]] &&
      (s[l[i]].prev == NIL) == (i == 0) && (s[l[i]].next == NIL) == (i == |l| - 1) &&
      First(r) == (if i == 0 then s[l[i]].next else First(l)) &&
      Last(r) == (if i == |l| - 1 then s[l[i]].prev else Last(l)) &&
      SameValues(s, t)
  {
    var t := RemoveLinks(s, l, NIL, i);
    var r := l[..i] + l[i + 1..];
    RemoveChain(s, l, NIL, i);
    ChainAt(s, l, i);
    LinkedDistinct(s, l, NIL);
    assert forall j :: 0 <= j < |r| ==> r[j] == (if j < i then l[j] else l[j + 1]);
    assert l[i] !in r;
    assert i > 0 ==> l[i - 1] in l;
    assert i + 1 < |l| ==> l[i + 1] in l;
    assert l[i] in l;
    LinkedFrame(s, t, o, NIL);
  }

  /** The slots of l in reverse order: the order a stack receives them in. */
  ghost function Reversed(l: seq<int>): seq<int> {
    if l == [] then [] else Reversed(l[1..]) + [l[0]]
  }

  lemma {:induction false} ReversedSnoc(l: seq<int>, n: int)
    requires 0 <= n < |l|
    ensures Reversed(l[..n + 1]) == [l[n]] + Reversed(l[..n])
  {
    if n > 0 {
      ReversedSnoc(l[1..], n - 1);
      assert l[..n + 1][1..] == l[1..][..n];
      assert l[..n][1..] == l[1..][..n - 1];
    } else {
      assert l[..1][1..] == [];
    }
  }

  /** The slot numbers below n. */
  ghost function Below(n: int): set<int>
    decreases n
  {
    if n <= 0 then {} else Below(n - 1) + {n - 1}
  }

  lemma {:induction false} BelowFacts(n: nat)
    ensures |Below(n)| == n
    ensures forall j :: j in Below(n) <==> 0 <= j < n
  {
    if n > 0 {
      BelowFacts(n - 1);
    }
  }

  lemma {:induction false} ElementsCard(l: seq<int>)
    ensures |set x | x in l| <= |l|
  {
    if l != [] {
      ElementsCard(l[1..]);
      assert (set x | x in l) == (set x | x in l[1..]) + {l[0]};
    }
  }

  lemma SubsetCard(a: set<int>, b: set<int>)
    requires a <= b
    ensures |a| <= |b|
  {
    assert b == a + (b - a);
  }

  /** A list in a pool of n slots that is shorter than n leaves some slot off it. */
  lemma ChainMissesSlot<T>(s: seq<Slot<T>>, l: seq<int>)
    requires |l| < |s|
    ensures exists j :: 0 <= j < |s| && j !in l
  {
    if forall j :: 0 <= j < |s| ==> j in l {
      BelowFacts(|s|);
      ElementsCard(l);
      SubsetCard(Below(|s|), set x | x in l);
      assert false;
    }
  }

  /*
   * Lists threaded through held slots: an access unit keeps its NALUs in a
   * list of its own over NALU FIFO items that are on neither FIFO list.
   */

  /**
   * The links after inserting slot k in front of the slot at position i of
   * list l, whose predecessor is p0 (NIL for a whole list): k sits between
   * the predecessor p of l[i] and l[i], and both of them point to k.
   */
  ghost function InsertLinks<T>(s: seq<Slot<T>>, l: seq<int>, p0: int, i: int, k: int): seq<Slot<T>>
    requires InRange(l, |s|) && 0 <= i < |l| && 0 <= k < |s| && (p0 == NIL || 0 <= p0 < |s|)
  {
    var p := if i == 0 then p0 else l[i - 1];
    var t := s[k := s[k].(prev := p, next := l[i])];
    var u := t[l[i] := t[l[i]].(prev := k)];
    if p != NIL then u[p := u[p].(next := k)] else u
  }

  lemma {:induction false} InsertChain<T>(s: seq<Slot<T>>, l: seq<int>, p0: int, i: int, k: int)
    requires Linked(s, l, p0) && InRange(l, |s|) && 0 <= i < |l| && 0 <= k < |s| && k !in l && k != p0
    requires p0 == NIL || (0 <= p0 < |s| && p0 !in l)
    ensures var t := InsertLinks(s, l, p0, i, k);
      |t| == |s| && Linked(t, l[..i] + [k] + l[i..], p0) && SameValues(s, t)
    decreases |l|, 1
  {
    if i == 0 {
      assert l[..i] + [k] + l[i..] == [k] + l;
      InsertFirstChain(s, l, p0, k);
    } else {
      InsertLaterChain(s, l, p0, i, k);
    }
  }

  /** InsertChain at the first position: k takes over the predecessor p0 and leads the list. */
  lemma InsertFirstChain<T>(s: seq<Slot<T>>, l: seq<int>, p0: int, k: int)
    requires Linked(s, l, p0) && InRange(l, |s|) && l != [] && 0 <= k < |s| && k !in l && k != p0
    requires p0 == NIL || (0 <= p0 < |s| && p0 !in l)
    ensures var t := InsertLinks(s, l, p0, 0, k);
      |t| == |s| && Linked(t, [k] + l, p0) && SameValues(s, t)
  {
    var t := InsertLinks(s, l, p0, 0, k);
    assert Linked(s, l[1..], l[0]) && l[0] !in l[1..];
    assert l[0] in l;
    LinkedFrame(s, t, l[1..], l[0]);
    assert Linked(t, l, k);
    assert ([k] + l)[1..] == l;
  }

  /** InsertChain past the first position: the first slot stays, the rest is the same insertion one step in. */
  lemma {:induction false} InsertLaterChain<T>(s: seq<Slot<T>>, l: seq<int>, p0: int, i: int, k: int)
    requires Linked(s, l, p0) && InRange(l, |s|) && 0 < i < |l| && 0 <= k < |s| && k !in l && k != p0
    requires p0 == NIL || (0 <= p0 < |s| && p0 !in l)
    ensures var t := InsertLinks(s, l, p0, i, k);
      |t| == |s| && Linked(t, l[..i] + [k] + l[i..], p0) && SameValues(s, t)
    decreases |l|, 0
  {
    var r := l[..i] + [k] + l[i..];
    var rest := l[1..][..i - 1] + [k] + l[1..][i - 1..];
    var t := InsertLinks(s, l, p0, i, k);
    assert Linked(s, l[1..], l[0]) && l[0] !in l[1..];
    assert r[0] == l[0] && r[1..] == rest;
    InsertChain(s, l[1..], l[0], i - 1, k);
    assert InsertLinks(s, l[1..], l[0], i - 1, k) == t;
    assert l[0] !in rest by {
      assert l[0] != k;
      assert forall x :: x in rest ==> x in l[1..] || x == k;
    }
    assert t[l[0]].prev == p0 && t[l[0]].next == First(rest) by {
      assert l[i] in l[1..] && l[0] != l[i];
      if i > 1 {
        assert l[i - 1] in l[1..] && rest[0] == l[1];
      }
    }
  }

  /**
   * Editing the links of slots that are on neither list leaves both lists
   * and the queue's payloads as they were.
   */
  lemma EditHeld<T>(s: seq<Slot<T>>, t: seq<Slot<T>>, q: seq<int>, f: seq<int>, c: seq<T>, edited: set<int>)
    requires Lists(s, q, f) && Carries(s, q, c) && SameValues(s, t)
    requires forall x :: x in edited ==> x !in q && x !in f
    requires forall x :: 0 <= x < |s| && x !in edited ==> t[x] == s[x]
    ensures Lists(t, q, f) && Carries(t, q, c)
  {
    LinkedFrame(s, t, q, NIL);
    LinkedFrame(s, t, f, NIL);
  }

  class Fifo<T> {
    var pool: array<Slot<T>>
    var size: int
    var count: int
    var head: int
    var tail: int
    var free: int
    ghost var queue: seq<int>
    ghost var freeList: seq<int>
    /** The payloads waiting in the queue, head first. */
    ghost var contents: seq<T>

    ghost predicate Valid()
      reads this, pool
    {
      pool.Length == size &&
      Lists(pool[..], queue, freeList) && Carries(pool[..], queue, contents) &&
      count == |queue| && count <= size && head == First(queue) && tail == Last(queue) && free == First(freeList)
    }

    /** No item is held by a caller: every item of the pool is on one of the two lists. */
    ghost predicate Conserved()
      reads this
    {
      |queue| + |freeList| == size
    }

    /** Slot k belongs to a caller: it is on neither list. */
    ghost predicate Held(k: int)
      reads this
    {
      0 <= k < size && k !in queue && k !in freeList
    }

    ghost function Contents(): seq<T>
      reads this
    {
      contents
    }

    /** The head pointer is NIL exactly when the queue is empty. */
    lemma EmptyIff()
      requires Valid()
      ensures (head == NIL) == (queue == []) == (contents == [])
    {
    }

    /**
     * Pool allocation followed by the initialisation loop: every item is
     * pushed in turn on the free list, so the free list is pool[n-1], ..., pool[0].
     * Item j starts with the payload init(j): the zeroed record plus whatever
     * per-item buffers the caller allocates.
     */
    constructor Init(maxCount: int, init: int -> T)
      requires maxCount > 0
      ensures Valid() && Conserved() && fresh(pool) && size == maxCount
      ensures queue == [] && freeList == Descending(maxCount)
      ensures forall j :: 0 <= j < maxCount ==> pool[j].value == init(j)
    {
      pool := new Slot<T>[maxCount](j => Slot(init(j), NIL, NIL));
      size := maxCount;
      count := 0;
      head := NIL;
      tail := NIL;
      free := NIL;
      queue := [];
      freeList := [];
      contents := [];
      new;
      var i := 0;
      while i < maxCount
        invariant 0 <= i <= maxCount && fresh(pool) && Valid() && size == maxCount
        invariant queue == [] && freeList == Descending(i)
        invariant forall j :: 0 <= j < maxCount ==> pool[j].value == init(j)
      {
        // the loop body is the free-list push
        DescendingCovers(i);
        PushFree(i);
        i := i + 1;
      }
      DescendingLength(maxCount);
    }

    /** Copies a value into a held item (the memcpy into a popped item). */
    method SetValue(k: int, v: T)
      requires Valid() && Held(k)
      modifies pool
      ensures Valid() && pool[..] == old(pool[..])[k := old(pool[k]).(value := v)]
    {
      ghost var s := pool[..];
      pool[k] := pool[k].(value := v);
      LinkedFrame(s, pool[..], queue, NIL);
      LinkedFrame(s, pool[..], freeList, NIL);
    }

    /** Takes the first item off the free list; NIL when the free list is empty. */
    method PopFree() returns (k: int)
      requires Valid()
      modifies this, pool
      ensures Valid() && pool == old(pool) && size == old(size) && queue == old(queue)
      ensures count == old(count) && head == old(head) && tail == old(tail) && contents == old(contents)
      ensures old(freeList) == [] ==> k == NIL && freeList == [] && pool[..] == old(pool[..])
      ensures old(freeList) != [] ==> k == old(freeList[0]) && freeList == old(freeList[1..]) && Held(k)
      ensures old(freeList) != [] ==> pool[..] == PopFrontLinks(old(pool[..]), old(freeList))
    {
      if free == NIL {
        k := NIL;
        return;
      }
      ghost var s := pool[..];
      PopFrontPair(s, freeList, queue);
      freeList := freeList[1..];
      k := free;
      var nx := pool[k].next;
      free := nx;
      if nx != NIL {
        pool[nx] := pool[nx].(prev := NIL);
      }
      pool[k] := pool[k].(prev := NIL, next := NIL);
    }

    /** Puts a held item back at the head of the free list. */
    method PushFree(k: int)
      requires Valid() && Held(k)
      modifies this, pool
      ensures Valid() && pool == old(pool) && size == old(size) && queue == old(queue)
      ensures count == old(count) && head == old(head) && tail == old(tail) && contents == old(contents)
      ensures freeList == [k] + old(freeList)
      ensures pool[..] == PushFrontLinks(old(pool[..]), old(freeList), k)
    {
      ghost var s := pool[..];
      PushFrontPair(s, freeList, queue, k);
      freeList := [k] + freeList;
      if free != NIL {
        pool[free] := pool[free].(prev := k);
      }
      pool[k] := pool[k].(next := free, prev := NIL);
      free := k;
    }

    /** Links a held item at the tail; -2 and no change when count >= size. */
    method EnqueueItem(k: int) returns (ret: int)
      requires Valid() && Held(k)
      modifies this, pool
      ensures Valid() && pool == old(pool) && size == old(size) && freeList == old(freeList)
      ensures ret == (if old(count) >= size then -2 else 0)
      ensures ret == -2 ==> queue == old(queue) && contents == old(contents) && pool[..] == old(pool[..])
      ensures ret == 0 ==> queue == old(queue) + [k] && contents == old(contents) + [old(pool[k].value)]
      ensures ret == 0 ==> pool[..] == PushBackLinks(old(pool[..]), old(queue), NIL, k)
    {
      if count >= size {
        return -2;
      }
      ghost var s := pool[..];
      PushBackPair(s, queue, freeList, k);
      ghost var q := queue;
      queue := queue + [k];
      contents := contents + [pool[k].value];
      LinkAtTail(k, q);
      tail := k;
      if head == NIL {
        head := k;
      }
      count := count + 1;
      ret := 0;
    }

    /** The two link writes of EnqueueItem: the old tail, if any, points to k, and k to the old tail. */
    method LinkAtTail(k: int, ghost q: seq<int>)
      requires pool.Length == size && InRange(q, size) && 0 <= k < size && tail == Last(q)
      modifies pool
      ensures pool[..] == PushBackLinks(old(pool[..]), q, NIL, k)
    {
      if tail != NIL {
        pool[tail] := pool[tail].(next := k);
      }
      pool[k] := pool[k].(prev := tail, next := NIL);
    }

    /** Unlinks the head item and hands it to the caller; NIL on an empty queue. */
    method DequeueItem() returns (k: int)
      requires Valid()
      modifies this, pool
      ensures Valid() && pool == old(pool) && size == old(size) && freeList == old(freeList)
      ensures old(queue) == [] ==> k == NIL && queue == [] && contents == [] && pool[..] == old(pool[..])
      ensures old(queue) != [] ==> k == old(queue[0]) && queue == old(queue[1..]) && Held(k)
      ensures old(queue) != [] ==> contents == old(contents[1..]) && pool[k].value == old(contents[0])
      ensures old(queue) != [] ==> pool[..] == PopFrontLinks(old(pool[..]), old(queue))
    {
      if head == NIL || count == 0 {
        k := NIL;
        return;
      }
      ghost var s := pool[..];
      PopFrontPair(s, queue, freeList);
      queue := queue[1..];
      contents := contents[1..];
      k := head;
      var nx := pool[k].next;
      if nx != NIL {
        pool[nx] := pool[nx].(prev := NIL);
        head := nx;
        count := count - 1;
      } else {
        head := NIL;
        count := 0;
        tail := NIL;
      }
      pool[k] := pool[k].(prev := NIL, next := NIL);
    }

    /**
     * Unlinks the queued item at position i wherever it is, re-linking its
     * neighbours (the in-loop removal of the packet FIFO's clean-up loops).
     * The item's own links are left as they were.
     */
    method Unlink(k: int, ghost i: int)
      requires Valid() && 0 <= i < |queue| && queue[i] == k
      modifies this, pool
      ensures Valid() && pool == old(pool) && size == old(size) && freeList == old(freeList)
      ensures queue == old(queue[..i] + queue[i + 1..]) && Held(k)
      ensures contents == old(contents[..i] + contents[i + 1..])
      ensures pool[..] == RemoveLinks(old(pool[..]), old(queue), NIL, i)
    {
      ghost var s := pool[..];
      ghost var q := queue;
      RemovePair(s, q, freeList, i);
      queue := q[..i] + q[i + 1..];
      contents := contents[..i] + contents[i + 1..];
      var p := pool[k].prev;
      var nx := pool[k].next;
      SpliceOut(k, i, q);
      CarriesRemove(s, pool[..], q, old(contents), i);
      count := count - 1;
      if nx == NIL {
        tail := p;
      }
      if p == NIL {
        head := nx;
      }
    }

    /** The two link writes of Unlink: the neighbours of the item at position i of q point past it. */
    method SpliceOut(k: int, ghost i: int, ghost q: seq<int>)
      requires pool.Length == size && Chain(pool[..], q) && InRange(q, size) && 0 <= i < |q| && q[i] == k
      modifies pool
      ensures pool[..] == RemoveLinks(old(pool[..]), q, NIL, i)
    {
      ChainAt(pool[..], q, i);
      var p := pool[k].prev;
      var nx := pool[k].next;
      if nx != NIL {
        pool[nx] := pool[nx].(prev := p);
      }
      if p != NIL {
        pool[p] := pool[p].(next := nx);
      }
    }

    /**
     * The removal step of the packet FIFO's clean-up loops: unlink the
     * queued item at position i, read its successor, give it back to the
     * free list.
     */
    method UnlinkAndFree(k: int, ghost i: int) returns (next: int)
      requires Valid() && 0 <= i < |queue| && queue[i] == k
      modifies this, pool
      ensures Valid() && pool == old(pool) && size == old(size)
      ensures queue == old(queue[..i] + queue[i + 1..]) && freeList == [k] + old(freeList)
      ensures contents == old(contents[..i] + contents[i + 1..])
      ensures next == (if i < |queue| then queue[i] else NIL)
    {
      ChainAt(pool[..], queue, i);
      Unlink(k, i);
      next := pool[k].next;
      PushFree(k);
    }

    /**
     * Moves every queued item to the free list, head first, and returns how
     * many were moved: the dequeue/push-free loop of the FIFO flushes.
     */
    method Flush() returns (count': int)
      requires Valid()
      modifies this, pool
      ensures Valid() && pool == old(pool) && size == old(size)
      ensures queue == [] && contents == [] && count' == |old(queue)|
      ensures freeList == Reversed(old(queue)) + old(freeList)
    {
      count' := 0;
      ghost var q := queue;
      ghost var f := freeList;
      while true
        invariant Valid() && pool == old(pool) && size == old(size)
        invariant 0 <= count' <= |q| && queue == q[count'..] && freeList == Reversed(q[..count']) + f
        decreases |q| - count'
      {
        var moved := RecycleHead(q, count', f);
        if !moved {
          break;
        }
        count' := count' + 1;
      }
      assert q[..count'] == q;
    }

    /**
     * One iteration of the flush loop, after n items of q have been moved
     * onto f: the head item, if any, goes to the free list.
     */
    method RecycleHead(ghost q: seq<int>, ghost n: int, ghost f: seq<int>) returns (moved: bool)
      requires Valid() && 0 <= n <= |q| && queue == q[n..] && freeList == Reversed(q[..n]) + f
      modifies this, pool
      ensures Valid() && pool == old(pool) && size == old(size)
      ensures moved == (n < |q|)
      ensures !moved ==> queue == [] && contents == [] && freeList == Reversed(q) + f
      ensures moved ==> queue == q[n + 1..] && freeList == Reversed(q[..n + 1]) + f
    {
      var item := DequeueItem();
      moved := item != NIL;
      if moved {
        PushFree(item);
        ReversedSnoc(q, n);
      } else {
        assert q[..n] == q;
      }
    }

    /**
     * The enqueue step of the packet and NALU FIFOs: pop a free item (-3
     * when there is none), copy the value into it and link it at the tail.
     */
    method EnqueueValue(v: T) returns (ret: int)
      requires Valid() && Conserved() && count < size
      modifies this, pool
      ensures Valid() && Conserved() && size == old(size) && pool == old(pool)
      ensures ret == 0 && count == old(count) + 1 && contents == old(contents) + [v]
    {
      assert freeList != [];
      var k := PopFree();
      assert k != NIL;
      if k == NIL {
        return -3;
      }
      SetValue(k, v);
      ret := EnqueueItem(k);
    }

    /** The loop of the batch enqueues: each value in turn goes through EnqueueValue. */
    method EnqueueValues(vs: seq<T>)
      requires Valid() && Conserved() && count + |vs| <= size
      modifies this, pool
      ensures Valid() && Conserved() && size == old(size) && pool == old(pool)
      ensures count == old(count) + |vs| && contents == old(contents) + vs
    {
      var i := 0;
      while i < |vs|
        invariant 0 <= i <= |vs| && Valid() && Conserved() && size == old(size) && pool == old(pool)
        invariant count == old(count) + i && contents == old(contents) + vs[..i]
      {
        var r := EnqueueValue(vs[i]);
        assert vs[..i + 1] == vs[..i] + [vs[i]];
        i := i + 1;
      }
      assert vs[..i] == vs;
    }

    /** The dequeue step of the packet and NALU FIFOs: unlink the head item, copy its value out and free it. */
    method TakeHead() returns (v: T)
      requires Valid() && Conserved() && contents != []
      modifies this, pool
      ensures Valid() && Conserved() && size == old(size) && pool == old(pool)
      ensures v == old(contents[0]) && contents == old(contents[1..])
      ensures (head == NIL) == (contents == [])
    {
      var k := DequeueItem();
      v := pool[k].value;
      PushFree(k);
      EmptyIff();
    }

    /** The loop of the batch dequeues: up to n values leave the head of the queue, in order. */
    method TakeFront(n: nat) returns (vs: seq<T>)
      requires Valid() && Conserved()
      modifies this, pool
      ensures Valid() && Conserved() && size == old(size) && pool == old(pool)
      ensures |vs| == if n < |old(contents)| then n else |old(contents)|
      ensures vs == old(contents)[..|vs|] && contents == old(contents)[|vs|..]
    {
      vs := [];
      ghost var orig := contents;
      EmptyIff();
      var i := 0;
      while head != NIL && i < n
        invariant Valid() && Conserved() && size == old(size) && pool == old(pool)
        invariant 0 <= i <= |orig| && i <= n
        invariant vs == orig[..i] && contents == orig[i..]
        invariant (head == NIL) == (i == |orig|)
        decreases |orig| - i
      {
        vs := TakeNext(orig, i, vs);
        i := i + 1;
      }
    }

    /** One iteration of TakeFront, after i values of orig have been taken into vs. */
    method TakeNext(ghost orig: seq<T>, ghost i: int, vs: seq<T>) returns (vs': seq<T>)
      requires Valid() && Conserved() && 0 <= i < |orig| && vs == orig[..i] && contents == orig[i..]
      modifies this, pool
      ensures Valid() && Conserved() && size == old(size) && pool == old(pool)
      ensures vs' == orig[..i + 1] && contents == orig[i + 1..] && (head == NIL) == (i + 1 == |orig|)
    {
      var v := TakeHead();
      vs' := vs + [v];
      assert vs' == orig[..i + 1];
    }
  }
}
