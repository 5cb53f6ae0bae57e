/** Reference counts of buffers, zero-copy slices that hold their parents, and the release cascade
    (bolt/buffer/Buffer.h, bolt/buffer/Buffer.cpp). */
module BufferHeap {
  import opened Types
  import opened Sums

  type Byte = bv8
  type BufferId = int
  type PointerId = int

  /** kPaddedSize: the 64-byte header plus simd::kPadding for vector units of up to 32 bytes. */
  const PADDED_SIZE: nat := 96

  /** A pool-backed buffer with its memory, `size` bytes of it in use, or a BufferView over `size` bytes of its parent from `offset` on. */
  datatype Buffer =
    | Pooled(bytes: seq<Byte>, size: nat)
    | View(parent: BufferId, offset: nat, size: nat)

  /** All buffers, their reference counts, the BufferPtr variables, the bytes taken from the pool, and the
      buffers freed so far. Identifiers are given out in order. */
  datatype Heap = Heap(
    buffers: map<BufferId, Buffer>,
    counts: map<BufferId, int>,
    pointers: map<PointerId, BufferId>,
    nextId: BufferId,
    poolBytes: int,
    freed: seq<BufferId>)

  ghost function PointersTo(pointers: map<PointerId, BufferId>, b: BufferId): set<PointerId> {
    set p | p in pointers && pointers[p] == b
  }

  ghost function ViewsOf(buffers: map<BufferId, Buffer>, b: BufferId): set<BufferId> {
    set v | v in buffers && buffers[v].View? && buffers[v].parent == b
  }

  /** How many pointers and slices hold `b`. */
  ghost function Holders(h: Heap, b: BufferId): nat {
    |PointersTo(h.pointers, b)| + |ViewsOf(h.buffers, b)|
  }

  lemma PointerAdded(pointers: map<PointerId, BufferId>, p: PointerId, target: BufferId, b: BufferId)
    requires p !in pointers
    ensures |PointersTo(pointers[p := target], b)| == |PointersTo(pointers, b)| + if target == b then 1 else 0
  {
    assert PointersTo(pointers[p := target], b) == PointersTo(pointers, b) + if target == b then {p} else {};
  }

  lemma PointerRemoved(pointers: map<PointerId, BufferId>, p: PointerId, b: BufferId)
    requires p in pointers
    ensures |PointersTo(pointers, b)| == |PointersTo(pointers - {p}, b)| + if pointers[p] == b then 1 else 0
  {
    PointerAdded(pointers - {p}, p, pointers[p], b);
    assert (pointers - {p})[p := pointers[p]] == pointers;
  }

  lemma ViewAdded(buffers: map<BufferId, Buffer>, n: BufferId, x: Buffer, b: BufferId)
    requires n !in buffers
    ensures |ViewsOf(buffers[n := x], b)| == |ViewsOf(buffers, b)| + if x.View? && x.parent == b then 1 else 0
  {
    assert ViewsOf(buffers[n := x], b) == ViewsOf(buffers, b) + if x.View? && x.parent == b then {n} else {};
  }

  lemma ViewRemoved(buffers: map<BufferId, Buffer>, n: BufferId, b: BufferId)
    requires n in buffers
    ensures |ViewsOf(buffers, b)| == |ViewsOf(buffers - {n}, b)| + if buffers[n].View? && buffers[n].parent == b then 1 else 0
  {
    ViewAdded(buffers - {n}, n, buffers[n], b);
    assert (buffers - {n})[n := buffers[n]] == buffers;
  }

  /** Pool bytes a buffer accounts for. */
  function Charge(x: Buffer): nat {
    if x.Pooled? then |x.bytes| + PADDED_SIZE else 0
  }

  ghost function ChargeIn(buffers: map<BufferId, Buffer>): BufferId -> int {
    (b: BufferId) => if b in buffers then Charge(buffers[b]) else 0
  }

  ghost function PoolCharge(buffers: map<BufferId, Buffer>): int {
    Sum(buffers.Keys, ChargeIn(buffers))
  }

  /** A live buffer's place among the others. */
  ghost predicate WellPlaced(buffers: map<BufferId, Buffer>, nextId: BufferId, b: BufferId)
    requires b in buffers
  {
    var x := buffers[b];
    && 0 <= b < nextId
    && (x.Pooled? ==> x.size <= |x.bytes|)
    && (x.View? ==> x.parent < b && x.parent in buffers && x.offset + x.size <= buffers[x.parent].size)
  }

  ghost predicate AllPlaced(h: Heap) {
    forall b {:trigger WellPlaced(h.buffers, h.nextId, b)} :: b in h.buffers ==> WellPlaced(h.buffers, h.nextId, b)
  }

  /** Every buffer ever made is either live or was freed once. */
  ghost predicate FreedOnce(h: Heap) {
    && 0 <= h.nextId
    && (forall i, j :: 0 <= i < j < |h.freed| ==> h.freed[i] != h.freed[j])
    && (forall b :: b in h.freed ==> b !in h.buffers)
    && (forall b :: 0 <= b < h.nextId <==> b in h.buffers || b in h.freed)
  }

  ghost predicate PointersLive(h: Heap) {
    forall p :: p in h.pointers ==> h.pointers[p] in h.buffers
  }

  /** Counts are holder counts, plus one for the buffer `dropped` whose last reference is being released. */
  ghost predicate CountsMatch(h: Heap, dropped: Option<BufferId>) {
    && h.counts.Keys == h.buffers.Keys
    && (forall b :: b in h.buffers ==> h.counts[b] == Holders(h, b) + if dropped == Some(b) then 1 else 0)
    && (forall b :: b in h.buffers ==> h.counts[b] > 0)
  }

  /** The invariant; `dropped` is the buffer whose last dropped reference is still counted, if any. */
  ghost predicate Counted(h: Heap, dropped: Option<BufferId>) {
    && AllPlaced(h) && FreedOnce(h) && PointersLive(h) && CountsMatch(h, dropped)
    && h.poolBytes == PoolCharge(h.buffers)
    && (dropped.Some? ==> dropped.value in h.buffers)
  }

  ghost predicate Valid(h: Heap) {
    Counted(h, None)
  }

  function Empty(): Heap {
    Heap(map[], map[], map[], 0, 0, [])
  }

  lemma EmptyValid()
    ensures Valid(Empty())
  {}

  // ----- the operations on heaps -----

  /** A new buffer `x`, held by the new pointer `p`. */
  function AddBuffer(h: Heap, p: PointerId, x: Buffer): Heap {
    h.(buffers := h.buffers[h.nextId := x], counts := h.counts[h.nextId := 1], pointers := h.pointers[p := h.nextId],
       nextId := h.nextId + 1, poolBytes := h.poolBytes + Charge(x))
  }

  function AddRef(h: Heap, b: BufferId): Heap
    requires b in h.counts
  {
    h.(counts := h.counts[b := h.counts[b] + 1])
  }

  function DropCount(h: Heap, b: BufferId): Heap
    requires b in h.counts
  {
    h.(counts := h.counts[b := h.counts[b] - 1])
  }

  /** freeToPool or delete. */
  function Free(h: Heap, b: BufferId): Heap
    requires b in h.buffers
  {
    h.(buffers := h.buffers - {b}, counts := h.counts - {b},
       poolBytes := h.poolBytes - Charge(h.buffers[b]), freed := h.freed + [b])
  }

  lemma ChargeInsert(buffers: map<BufferId, Buffer>, b: BufferId, x: Buffer)
    requires b !in buffers
    ensures PoolCharge(buffers[b := x]) == PoolCharge(buffers) + Charge(x)
  {
    var buffers' := buffers[b := x];
    assert buffers'.Keys == buffers.Keys + {b};
    SumInsert(buffers.Keys, ChargeIn(buffers'), b);
    SumCongruent(buffers.Keys, ChargeIn(buffers), ChargeIn(buffers'));
  }

  lemma ChargeRemove(buffers: map<BufferId, Buffer>, b: BufferId)
    requires b in buffers
    ensures PoolCharge(buffers - {b}) == PoolCharge(buffers) - Charge(buffers[b])
  {
    ChargeInsert(buffers - {b}, b, buffers[b]);
    assert (buffers - {b})[b := buffers[b]] == buffers;
  }

  lemma AddBufferPlaced(h: Heap, p: PointerId, x: Buffer)
    requires AllPlaced(h) && FreedOnce(h) && PointersLive(h)
    requires x.Pooled? ==> x.size <= |x.bytes|
    requires x.View? ==> x.parent in h.buffers && x.offset + x.size <= h.buffers[x.parent].size
    ensures AllPlaced(AddBuffer(h, p, x)) && FreedOnce(AddBuffer(h, p, x)) && PointersLive(AddBuffer(h, p, x))
  {
    var h' := AddBuffer(h, p, x);
    assert h.nextId !in h.buffers;
    forall b | b in h'.buffers
      ensures WellPlaced(h'.buffers, h'.nextId, b)
    {
      if b != h.nextId { assert WellPlaced(h.buffers, h.nextId, b); }
      if x.View? { assert WellPlaced(h.buffers, h.nextId, x.parent); }
    }
  }

  /** Nobody holds an identifier that has not been given out. */
  lemma UnusedUnheld(h: Heap, n: BufferId)
    requires AllPlaced(h) && PointersLive(h) && n !in h.buffers
    ensures Holders(h, n) == 0
  {
    forall v | v in h.buffers ensures v !in ViewsOf(h.buffers, n) { assert WellPlaced(h.buffers, h.nextId, v); }
    forall p | p in h.pointers ensures p !in PointersTo(h.pointers, n) { assert h.pointers[p] in h.buffers; }
    assert ViewsOf(h.buffers, n) == {};
    assert PointersTo(h.pointers, n) == {};
  }

  lemma AddBufferHolders(h: Heap, p: PointerId, x: Buffer, b: BufferId)
    requires h.nextId !in h.buffers && p !in h.pointers
    ensures Holders(AddBuffer(h, p, x), b) ==
            Holders(h, b) + (if b == h.nextId then 1 else 0) + if x.View? && x.parent == b then 1 else 0
  {
    PointerAdded(h.pointers, p, h.nextId, b);
    ViewAdded(h.buffers, h.nextId, x, b);
  }

  lemma AllocateValid(h: Heap, p: PointerId, bytes: seq<Byte>, size: nat)
    requires Valid(h) && p !in h.pointers && size <= |bytes|
    ensures Valid(AddBuffer(h, p, Pooled(bytes, size)))
  {
    var x := Pooled(bytes, size);
    var h' := AddBuffer(h, p, x);
    AddBufferPlaced(h, p, x);
    ChargeInsert(h.buffers, h.nextId, x);
    UnusedUnheld(h, h.nextId);
    forall b | b in h'.buffers
      ensures h'.counts[b] == Holders(h', b) && h'.counts[b] > 0
    {
      AddBufferHolders(h, p, x, b);
    }
  }

  /** The heap with a slice of `b`, held by the new pointer `p`. */
  function Sliced(h: Heap, p: PointerId, b: BufferId, offset: nat, length: nat): Heap
    requires b in h.counts
  {
    AddRef(AddBuffer(h, p, View(b, offset, length)), b)
  }

  lemma SliceValid(h: Heap, p: PointerId, b: BufferId, offset: nat, length: nat)
    requires Valid(h) && p !in h.pointers && b in h.buffers && offset + length <= h.buffers[b].size
    ensures Valid(Sliced(h, p, b, offset, length))
  {
    var x := View(b, offset, length);
    AddBufferPlaced(h, p, x);
    ChargeInsert(h.buffers, h.nextId, x);
    SliceCounts(h, p, b, x);
  }

  lemma SliceCounts(h: Heap, p: PointerId, b: BufferId, x: Buffer)
    requires Valid(h) && p !in h.pointers && b in h.buffers && x.View? && x.parent == b
    ensures CountsMatch(AddRef(AddBuffer(h, p, x), b), None)
  {
    var h' := AddRef(AddBuffer(h, p, x), b);
    assert h.nextId !in h.buffers;
    UnusedUnheld(h, h.nextId);
    forall c | c in h'.buffers
      ensures h'.counts[c] == Holders(h', c) && h'.counts[c] > 0
    {
      AddBufferHolders(h, p, x, c);
    }
  }

  lemma CopyValid(h: Heap, p: PointerId, b: BufferId)
    requires Valid(h) && p !in h.pointers && b in h.buffers
    ensures Valid(AddRef(h, b).(pointers := h.pointers[p := b]))
  {
    var h' := AddRef(h, b).(pointers := h.pointers[p := b]);
    forall c | c in h'.buffers
      ensures h'.counts[c] == Holders(h', c) && h'.counts[c] > 0
    {
      PointerAdded(h.pointers, p, b, c);
    }
  }

  /** A pointer goes away; its reference is still counted. */
  lemma DropPointerCounted(h: Heap, p: PointerId)
    requires Valid(h) && p in h.pointers
    ensures Counted(h.(pointers := h.pointers - {p}), Some(h.pointers[p]))
  {
    var h', b := h.(pointers := h.pointers - {p}), h.pointers[p];
    forall c | c in h'.buffers
      ensures h'.counts[c] == Holders(h', c) + if Some(b) == Some(c) then 1 else 0
    {
      PointerRemoved(h.pointers, p, c);
    }
  }

  /** release() of a buffer that others still hold. */
  lemma ReleaseShared(h: Heap, b: BufferId)
    requires Counted(h, Some(b)) && h.counts[b] > 1
    ensures Valid(DropCount(h, b))
  {
    var h' := DropCount(h, b);
    assert forall c :: Holders(h', c) == Holders(h, c);
  }

  /** release() of a buffer nobody else holds: it is freed, and a view drops its parent. */
  lemma ReleaseLast(h: Heap, b: BufferId)
    requires Counted(h, Some(b)) && h.counts[b] == 1
    ensures Counted(Free(h, b), if h.buffers[b].View? then Some(h.buffers[b].parent) else None)
  {
    assert WellPlaced(h.buffers, h.nextId, b);
    FreePlaced(h, b);
    ChargeRemove(h.buffers, b);
    ReleaseCounts(h, b);
  }

  lemma ReleaseCounts(h: Heap, b: BufferId)
    requires Counted(h, Some(b)) && h.counts[b] == 1
    ensures CountsMatch(Free(h, b), if h.buffers[b].View? then Some(h.buffers[b].parent) else None)
  {
    var h', x := Free(h, b), h.buffers[b];
    forall c | c in h'.buffers
      ensures h'.counts[c] == Holders(h', c) + (if x.View? && x.parent == c then 1 else 0) && h'.counts[c] > 0
    {
      ViewRemoved(h.buffers, b, c);
    }
  }

  lemma FreePlaced(h: Heap, b: BufferId)
    requires AllPlaced(h) && FreedOnce(h) && PointersLive(h) && b in h.buffers && Holders(h, b) == 0
    ensures AllPlaced(Free(h, b)) && FreedOnce(Free(h, b)) && PointersLive(Free(h, b))
  {
    var h' := Free(h, b);
    assert WellPlaced(h.buffers, h.nextId, b);
    assert ViewsOf(h.buffers, b) == {} && PointersTo(h.pointers, b) == {};
    forall c | c in h'.buffers
      ensures WellPlaced(h'.buffers, h'.nextId, c)
    {
      assert WellPlaced(h.buffers, h.nextId, c);
      assert c !in ViewsOf(h.buffers, b);
    }
    forall p | p in h'.pointers
      ensures h'.pointers[p] in h'.buffers
    {
      assert p !in PointersTo(h.pointers, b);
    }
  }

  // ----- changing a live buffer -----

  /** The pool-backed buffer `b` with other memory and size; the pool accounts for the difference. */
  function Resize(h: Heap, b: BufferId, bytes: seq<Byte>, size: nat): Heap
    requires b in h.buffers && h.buffers[b].Pooled?
  {
    h.(buffers := h.buffers[b := Pooled(bytes, size)], poolBytes := h.poolBytes + |bytes| - |h.buffers[b].bytes|)
  }

  /** Every slice of `b` lies inside its first `size` bytes. */
  ghost predicate SlicesFit(h: Heap, b: BufferId, size: nat) {
    forall v | v in h.buffers :: v in ViewsOf(h.buffers, b) ==> h.buffers[v].offset + h.buffers[v].size <= size
  }

  lemma ChargeReplace(buffers: map<BufferId, Buffer>, b: BufferId, x: Buffer)
    requires b in buffers
    ensures PoolCharge(buffers[b := x]) == PoolCharge(buffers) - Charge(buffers[b]) + Charge(x)
  {
    ChargeRemove(buffers, b);
    ChargeInsert(buffers - {b}, b, x);
    assert (buffers - {b})[b := x] == buffers[b := x];
  }

  /** Resizing keeps everything in order exactly when the slices of the buffer still fit. */
  lemma ResizeValidIff(h: Heap, b: BufferId, bytes: seq<Byte>, size: nat)
    requires Valid(h) && b in h.buffers && h.buffers[b].Pooled? && size <= |bytes|
    ensures Valid(Resize(h, b, bytes, size)) <==> SlicesFit(h, b, size)
  {
    ChargeReplace(h.buffers, b, Pooled(bytes, size));
    ResizeHolders(h, b, bytes, size);
    ResizePlacedIff(h, b, bytes, size);
  }

  lemma ResizePlacedIff(h: Heap, b: BufferId, bytes: seq<Byte>, size: nat)
    requires AllPlaced(h) && b in h.buffers && h.buffers[b].Pooled? && size <= |bytes|
    ensures AllPlaced(Resize(h, b, bytes, size)) <==> SlicesFit(h, b, size)
  {
    var h' := Resize(h, b, bytes, size);
    if SlicesFit(h, b, size) {
      forall c | c in h'.buffers
        ensures WellPlaced(h'.buffers, h'.nextId, c)
      {
        assert WellPlaced(h.buffers, h.nextId, c);
        assert h.buffers[c].View? && h.buffers[c].parent == b ==> c in ViewsOf(h.buffers, b);
      }
    }
    if AllPlaced(h') {
      forall v | v in h.buffers && v in ViewsOf(h.buffers, b)
        ensures h.buffers[v].offset + h.buffers[v].size <= size
      {
        assert WellPlaced(h'.buffers, h'.nextId, v);
      }
    }
  }

  /** A shared buffer can be shrunk under its slice: eight bytes, of which a slice holds the last four. */
  lemma ShrinkUnderSlice(bytes: seq<Byte>)
    requires |bytes| == 8
    ensures var h := Sliced(AddBuffer(Empty(), 0, Pooled(bytes, 8)), 1, 0, 4, 4);
            Valid(h) && !SlicesFit(h, 0, 4) && !Valid(Resize(h, 0, bytes, 4))
  {
    EmptyValid();
    AllocateValid(Empty(), 0, bytes, 8);
    var one := AddBuffer(Empty(), 0, Pooled(bytes, 8));
    SliceValid(one, 1, 0, 4, 4);
    var h := Sliced(one, 1, 0, 4, 4);
    assert h.buffers[1] == View(0, 4, 4) && 1 in ViewsOf(h.buffers, 0);
    ResizeValidIff(h, 0, bytes, 4);
  }

  lemma ResizeHolders(h: Heap, b: BufferId, bytes: seq<Byte>, size: nat)
    requires b in h.buffers && h.buffers[b].Pooled?
    ensures forall c :: Holders(Resize(h, b, bytes, size), c) == Holders(h, c)
  {
    var h' := Resize(h, b, bytes, size);
    forall c
      ensures Holders(h', c) == Holders(h, c)
    {
      assert ViewsOf(h'.buffers, c) == ViewsOf(h.buffers, c);
    }
  }

  /** A buffer held once, by a pointer, has no slices. */
  lemma UniqueHasNoSlices(h: Heap, p: PointerId)
    requires Valid(h) && p in h.pointers && h.counts[h.pointers[p]] == 1
    ensures ViewsOf(h.buffers, h.pointers[p]) == {}
  {
    var b := h.pointers[p];
    PointerRemoved(h.pointers, p, b);
    assert |ViewsOf(h.buffers, b)| == 0;
  }

  /** Only the pointer `p` moved, if at all; it alone holds `x`, in the buffer it had or in a new one. */
  ghost predicate OnlyMoves(h: Heap, h': Heap, p: PointerId, x: Buffer)
    requires p in h.pointers
  {
    && p in h'.pointers && h'.pointers == h.pointers[p := h'.pointers[p]]
    && (h'.pointers[p] == h.pointers[p] || h'.pointers[p] == h.nextId)
    && h'.pointers[p] in h'.buffers && h'.buffers[h'.pointers[p]] == x
    && h'.pointers[p] in h'.counts && h'.counts[h'.pointers[p]] == 1
  }

  lemma ResizeUniqueValid(h: Heap, p: PointerId, bytes: seq<Byte>, size: nat)
    requires Valid(h) && p in h.pointers && h.buffers[h.pointers[p]].Pooled? && h.counts[h.pointers[p]] == 1 && size <= |bytes|
    ensures Valid(Resize(h, h.pointers[p], bytes, size))
  {
    UniqueHasNoSlices(h, p);
    ResizeValidIff(h, h.pointers[p], bytes, size);
  }

  /** The pointer lets go of a shared buffer and takes a new one. */
  function Unshare(h: Heap, p: PointerId, bytes: seq<Byte>, size: nat): Heap
    requires p in h.pointers && h.pointers[p] in h.counts
  {
    AddBuffer(DropCount(h.(pointers := h.pointers - {p}), h.pointers[p]), p, Pooled(bytes, size))
  }

  lemma UnshareValid(h: Heap, p: PointerId, bytes: seq<Byte>, size: nat)
    requires Valid(h) && p in h.pointers && h.counts[h.pointers[p]] > 1 && size <= |bytes|
    ensures Valid(Unshare(h, p, bytes, size))
  {
    DropPointerCounted(h, p);
    var dropped := h.(pointers := h.pointers - {p});
    ReleaseShared(dropped, h.pointers[p]);
    AllocateValid(DropCount(dropped, h.pointers[p]), p, bytes, size);
  }

  /** The pool moved the memory: the old buffer is gone, and the pointer holds a new one. */
  function Move(h: Heap, p: PointerId, bytes: seq<Byte>, size: nat): Heap
    requires p in h.pointers && h.pointers[p] in h.buffers
  {
    AddBuffer(Free(h.(pointers := h.pointers - {p}), h.pointers[p]), p, Pooled(bytes, size))
  }

  lemma MoveValid(h: Heap, p: PointerId, bytes: seq<Byte>, size: nat)
    requires Valid(h) && p in h.pointers && h.buffers[h.pointers[p]].Pooled? && h.counts[h.pointers[p]] == 1 && size <= |bytes|
    ensures Valid(Move(h, p, bytes, size))
  {
    DropPointerCounted(h, p);
    var dropped := h.(pointers := h.pointers - {p});
    ReleaseLast(dropped, h.pointers[p]);
    AllocateValid(Free(dropped, h.pointers[p]), p, bytes, size);
  }

  /** The pointer gives up its reference without releasing the buffer. */
  function Detach(h: Heap, p: PointerId): Heap
    requires p in h.pointers && h.pointers[p] in h.counts
  {
    DropCount(h.(pointers := h.pointers - {p}), h.pointers[p])
  }

  /** The pointer takes `b` and counts itself in. */
  function Attach(h: Heap, p: PointerId, b: BufferId): Heap
    requires b in h.counts
  {
    AddRef(h.(pointers := h.pointers[p := b]), b)
  }

  /** While the pool works, the only holder of a buffer detached, the buffer is live with a count of zero and nothing
      holds it; everything else is in order. */
  lemma DetachedUnowned(h: Heap, p: PointerId)
    requires Valid(h) && p in h.pointers && h.counts[h.pointers[p]] == 1
    ensures var d, b := Detach(h, p), h.pointers[p];
            && AllPlaced(d) && FreedOnce(d) && PointersLive(d) && d.poolBytes == PoolCharge(d.buffers)
            && b in d.buffers && d.counts[b] == 0 == Holders(d, b)
            && forall c | c in d.buffers && c != b :: d.counts[c] == Holders(d, c) > 0
  {
    var d, b := Detach(h, p), h.pointers[p];
    DropPointerCounted(h, p);
    var dropped := h.(pointers := h.pointers - {p});
    forall c | c in d.buffers
      ensures d.counts[c] == Holders(d, c)
    {
      assert Holders(d, c) == Holders(dropped, c);
    }
  }

  /** Attaching again gives the old heap back. From the detached heap the pool's two outcomes are the reallocated ones. */
  lemma DetachedReallocates(h: Heap, p: PointerId, bytes: seq<Byte>, size: nat)
    requires p in h.pointers && h.pointers[p] in h.buffers && h.pointers[p] in h.counts && h.buffers[h.pointers[p]].Pooled?
    ensures var d, b := Detach(h, p), h.pointers[p];
            && Attach(d, p, b) == h
            && Resize(Attach(d, p, b), b, bytes, size) == Resize(h, b, bytes, size)
            && AddBuffer(Free(d, b), p, Pooled(bytes, size)) == Move(h, p, bytes, size)
  {
    var d, b := Detach(h, p), h.pointers[p];
    assert (h.pointers - {p})[p := b] == h.pointers;
    assert d.counts[b := d.counts[b] + 1] == h.counts;
    assert d.counts - {b} == h.counts - {b};
  }

  /** The heap after reallocation to the memory `bytes`: a shared buffer is left behind, and the pool may have moved
      the memory of one that is not. */
  function Reallocated(h: Heap, p: PointerId, bytes: seq<Byte>, size: nat, moves: bool): Heap
    requires p in h.pointers && h.pointers[p] in h.buffers && h.pointers[p] in h.counts && h.buffers[h.pointers[p]].Pooled?
  {
    if h.counts[h.pointers[p]] > 1 then Unshare(h, p, bytes, size)
    else if moves then Move(h, p, bytes, size)
    else Resize(h, h.pointers[p], bytes, size)
  }

  lemma CountPositive(h: Heap, b: BufferId)
    requires CountsMatch(h, None) && b in h.buffers
    ensures h.counts[b] > 0
  {}

  lemma ReallocatedOnlyMoves(h: Heap, p: PointerId, bytes: seq<Byte>, size: nat, moves: bool)
    requires Valid(h) && p in h.pointers && h.buffers[h.pointers[p]].Pooled?
    ensures OnlyMoves(h, Reallocated(h, p, bytes, size, moves), p, Pooled(bytes, size))
  {
    CountPositive(h, h.pointers[p]);
    assert h.pointers[p := h.pointers[p]] == h.pointers;
    assert (h.pointers - {p})[p := h.nextId] == h.pointers[p := h.nextId];
  }

  /** Reallocation keeps the heap in order and leaves the pointer alone with the new memory. */
  lemma ReallocatedValid(h: Heap, p: PointerId, bytes: seq<Byte>, size: nat, moves: bool)
    requires Valid(h) && p in h.pointers && h.buffers[h.pointers[p]].Pooled? && size <= |bytes|
    ensures Valid(Reallocated(h, p, bytes, size, moves))
    ensures OnlyMoves(h, Reallocated(h, p, bytes, size, moves), p, Pooled(bytes, size))
  {
    ReallocatedOnlyMoves(h, p, bytes, size, moves);
    if h.counts[h.pointers[p]] > 1 {
      UnshareValid(h, p, bytes, size);
    } else {
      ResizeUniqueValid(h, p, bytes, size);
      MoveValid(h, p, bytes, size);
    }
  }

  // ----- what validity means -----

  /** A buffer is live exactly while a pointer or a live slice holds it. */
  lemma LiveIffHeld(h: Heap, b: BufferId)
    requires Valid(h)
    ensures b in h.buffers <==> PointersTo(h.pointers, b) != {} || ViewsOf(h.buffers, b) != {}
  {
    if b in h.buffers {
      assert Holders(h, b) > 0;
    } else {
      UnusedUnheld(h, b);
    }
  }

  /** The pool-backed buffer at the end of a chain of slices. */
  ghost function Root(h: Heap, b: BufferId): (r: BufferId)
    requires AllPlaced(h) && b in h.buffers
    ensures r in h.buffers && h.buffers[r].Pooled?
    decreases b
  {
    assert WellPlaced(h.buffers, h.nextId, b);
    if h.buffers[b].Pooled? then b else Root(h, h.buffers[b].parent)
  }

  /** `b` is `from` or one of the buffers that `from` is a slice of, directly or through other slices. */
  ghost predicate OnChain(h: Heap, from: BufferId, b: BufferId)
    requires AllPlaced(h) && from in h.buffers
    decreases from
  {
    assert WellPlaced(h.buffers, h.nextId, from);
    from == b || (h.buffers[from].View? && OnChain(h, h.buffers[from].parent, b))
  }

  lemma {:induction false} ChainIsLive(h: Heap, from: BufferId, b: BufferId)
    requires AllPlaced(h) && from in h.buffers && OnChain(h, from, b)
    ensures b in h.buffers
    decreases from
  {
    assert WellPlaced(h.buffers, h.nextId, from);
    if from != b { ChainIsLive(h, h.buffers[from].parent, b); }
  }

  /** The parent of a buffer on a chain is on that chain too. */
  lemma {:induction false} ChainGoesOn(h: Heap, from: BufferId, v: BufferId)
    requires AllPlaced(h) && from in h.buffers && OnChain(h, from, v) && v in h.buffers && h.buffers[v].View?
    ensures OnChain(h, from, h.buffers[v].parent)
    decreases from
  {
    assert WellPlaced(h.buffers, h.nextId, from);
    if from != v { ChainGoesOn(h, h.buffers[from].parent, v); }
  }

  lemma {:induction false} LiveReachedByPointer(h: Heap, b: BufferId) returns (p: PointerId)
    requires Valid(h) && b in h.buffers
    ensures p in h.pointers && OnChain(h, h.pointers[p], b)
    decreases h.nextId - b
  {
    assert WellPlaced(h.buffers, h.nextId, b);
    assert Holders(h, b) > 0;
    if PointersTo(h.pointers, b) != {} {
      p := Member(PointersTo(h.pointers, b));
    } else {
      var v := Member(ViewsOf(h.buffers, b));
      assert WellPlaced(h.buffers, h.nextId, v);
      p := LiveReachedByPointer(h, v);
      ChainGoesOn(h, h.pointers[p], v);
    }
  }

  /** The live buffers are exactly those on the chains of the pointers. */
  lemma LiveIffReached(h: Heap, b: BufferId)
    requires Valid(h)
    ensures b in h.buffers <==> exists p :: p in h.pointers && OnChain(h, h.pointers[p], b)
  {
    if b in h.buffers { var p := LiveReachedByPointer(h, b); }
    if p :| p in h.pointers && OnChain(h, h.pointers[p], b) { ChainIsLive(h, h.pointers[p], b); }
  }

  /** Where a buffer's bytes start in its root. */
  ghost function Start(h: Heap, b: BufferId): nat
    requires AllPlaced(h) && b in h.buffers
    decreases b
  {
    assert WellPlaced(h.buffers, h.nextId, b);
    if h.buffers[b].Pooled? then 0 else Start(h, h.buffers[b].parent) + h.buffers[b].offset
  }

  /** However deep the slicing, the whole chain is live and the slice lies inside the memory of its root. */
  lemma {:induction false} SliceWithinLiveRoot(h: Heap, b: BufferId)
    requires Valid(h) && b in h.buffers
    ensures h.counts[Root(h, b)] > 0
    ensures Start(h, b) + h.buffers[b].size <= |h.buffers[Root(h, b)].bytes|
    ensures h.buffers[b].View? ==> h.buffers[b].parent in h.buffers && Root(h, h.buffers[b].parent) == Root(h, b)
    decreases b
  {
    assert WellPlaced(h.buffers, h.nextId, b);
    if h.buffers[b].View? {
      SliceWithinLiveRoot(h, h.buffers[b].parent);
    }
  }

  lemma {:induction false} NewestExists(s: set<BufferId>) returns (b: BufferId)
    requires exists x :: x in s
    ensures b in s && forall c <- s :: c <= b
    decreases s
  {
    b :| b in s;
    var rest := s - {b};
    if x :| x in rest {
      var c := NewestExists(rest);
      assert forall d <- s :: d == b || d in rest;
      if c > b { b := c; }
    } else {
      assert forall d <- s :: d == b || d in rest;
    }
  }

  /** Slices are newer than what they slice. */
  lemma NewestUnviewed(h: Heap, b: BufferId)
    requires AllPlaced(h) && (forall c :: c in h.buffers ==> c <= b) && PointersTo(h.pointers, b) == {}
    ensures Holders(h, b) == 0
  {
    forall v | v in h.buffers ensures v !in ViewsOf(h.buffers, b) { assert WellPlaced(h.buffers, h.nextId, v); }
    assert ViewsOf(h.buffers, b) == {};
  }

  /** Nothing leaks: without pointers no buffer is live, no pool byte is out, and each was freed once. */
  lemma NoPointersNoBuffers(h: Heap)
    requires Valid(h) && h.pointers == map[]
    ensures h.buffers == map[] && h.poolBytes == 0
    ensures forall b :: 0 <= b < h.nextId <==> b in h.freed
  {
    if h.buffers.Keys != {} {
      var x := Member(h.buffers.Keys);
      var b := NewestExists(h.buffers.Keys);
      NewestUnviewed(h, b);
      assert false;
    }
  }

  // ----- what buffers and pointers read -----

  /** The bytes in use of a buffer; a slice reads those of its parent. */
  ghost function Contents(h: Heap, b: BufferId): (s: seq<Byte>)
    requires AllPlaced(h) && b in h.buffers
    ensures |s| == h.buffers[b].size
    decreases b
  {
    assert WellPlaced(h.buffers, h.nextId, b);
    var x := h.buffers[b];
    if x.Pooled? then x.bytes[..x.size] else Contents(h, x.parent)[x.offset..x.offset + x.size]
  }

  lemma SliceOfSlice(bytes: seq<Byte>, start: nat, m: nat, offset: nat, n: nat)
    requires start + m <= |bytes| && offset + n <= m
    ensures bytes[start..start + m][offset..offset + n] == bytes[start + offset..start + offset + n]
  {
    var outer := bytes[start..start + m];
    var inner, same := outer[offset..offset + n], bytes[start + offset..start + offset + n];
    forall i | 0 <= i < n
      ensures inner[i] == same[i]
    {
      assert inner[i] == outer[offset + i];
    }
  }

  /** However deep the slicing, these are bytes of the root's memory, from where the offsets add up to. */
  lemma {:induction false} SliceReadsRoot(h: Heap, b: BufferId)
    requires AllPlaced(h) && b in h.buffers
    ensures Start(h, b) + h.buffers[b].size <= |h.buffers[Root(h, b)].bytes|
    ensures Contents(h, b) == h.buffers[Root(h, b)].bytes[Start(h, b)..Start(h, b) + h.buffers[b].size]
    decreases b
  {
    assert WellPlaced(h.buffers, h.nextId, b);
    var x := h.buffers[b];
    if x.View? {
      SliceReadsRoot(h, x.parent);
      SliceOfSlice(h.buffers[Root(h, b)].bytes, Start(h, x.parent), h.buffers[x.parent].size, x.offset, x.size);
    }
  }

  /** What the pointer `q` reads. */
  ghost function Bytes(h: Heap, q: PointerId): seq<Byte>
    requires AllPlaced(h) && PointersLive(h) && q in h.pointers
  {
    Contents(h, h.pointers[q])
  }

  ghost predicate SameWhereLive(h: Heap, h': Heap) {
    forall d :: d in h.buffers && d in h'.buffers ==> h'.buffers[d] == h.buffers[d]
  }

  /** A buffer live on both sides of a change to others reads the same. */
  lemma {:induction false} UnchangedContents(h: Heap, h': Heap, c: BufferId)
    requires AllPlaced(h) && AllPlaced(h') && SameWhereLive(h, h') && c in h.buffers && c in h'.buffers
    ensures Contents(h', c) == Contents(h, c)
    decreases c
  {
    assert WellPlaced(h.buffers, h.nextId, c) && WellPlaced(h'.buffers, h'.nextId, c);
    if h.buffers[c].View? { UnchangedContents(h, h', h.buffers[c].parent); }
  }

  predicate AgreeUpTo(a: seq<Byte>, b: seq<Byte>, n: nat) {
    n <= |a| && n <= |b| && a[..n] == b[..n]
  }

  /** New memory and size may be given to `b`: every slice fits, and still finds its bytes. */
  ghost predicate MayResize(h: Heap, b: BufferId, bytes: seq<Byte>, size: nat)
    requires b in h.buffers && h.buffers[b].Pooled?
  {
    && size <= |bytes|
    && (ViewsOf(h.buffers, b) == {} ||
        (SlicesFit(h, b, size) && AgreeUpTo(h.buffers[b].bytes, bytes, if size < h.buffers[b].size then size else h.buffers[b].size)))
  }

  /** Every buffer but `b` reads the same after such a resize. */
  lemma {:induction false} ResizeKeepsContents(h: Heap, b: BufferId, bytes: seq<Byte>, size: nat, c: BufferId)
    requires AllPlaced(h) && b in h.buffers && h.buffers[b].Pooled? && MayResize(h, b, bytes, size)
    requires AllPlaced(Resize(h, b, bytes, size)) && c in h.buffers && c != b
    ensures Contents(Resize(h, b, bytes, size), c) == Contents(h, c)
    decreases c
  {
    var h' := Resize(h, b, bytes, size);
    assert WellPlaced(h.buffers, h.nextId, c) && WellPlaced(h'.buffers, h'.nextId, c) && WellPlaced(h.buffers, h.nextId, b);
    if h.buffers[c].View? {
      if h.buffers[c].parent == b {
        assert c in ViewsOf(h.buffers, b);
        SliceAgrees(h.buffers[b].bytes, h.buffers[b].size, bytes, size, h.buffers[c].offset, h.buffers[c].size);
      } else {
        ResizeKeepsContents(h, b, bytes, size, h.buffers[c].parent);
      }
    }
  }

  lemma SliceAgrees(a: seq<Byte>, m: nat, b: seq<Byte>, n: nat, offset: nat, size: nat)
    requires m <= |a| && n <= |b| && offset + size <= m && offset + size <= n && AgreeUpTo(a, b, if n < m then n else m)
    ensures a[..m][offset..offset + size] == b[..n][offset..offset + size]
  {
    var k := if n < m then n else m;
    SliceOfSlice(a, 0, m, offset, size);
    SliceOfSlice(a, 0, k, offset, size);
    SliceOfSlice(b, 0, n, offset, size);
    SliceOfSlice(b, 0, k, offset, size);
  }

  /** A buffer that two pointers hold is counted more than once. */
  lemma HeldByTwo(h: Heap, p: PointerId, q: PointerId)
    requires Valid(h) && p in h.pointers && q in h.pointers && p != q && h.pointers[p] == h.pointers[q]
    ensures h.counts[h.pointers[p]] > 1
  {
    var b := h.pointers[p];
    PointerRemoved(h.pointers, p, b);
    PointerRemoved(h.pointers - {p}, q, b);
  }

  /** Reallocation changes no other buffer, and takes none away that something else holds. */
  lemma ReallocatedBuffers(h: Heap, p: PointerId, bytes: seq<Byte>, size: nat, moves: bool, c: BufferId)
    requires AllPlaced(h) && p in h.pointers && h.pointers[p] in h.buffers && h.pointers[p] in h.counts && h.buffers[h.pointers[p]].Pooled?
    requires c in h.buffers && (c != h.pointers[p] || h.counts[c] > 1)
    ensures var h' := Reallocated(h, p, bytes, size, moves);
            c in h'.buffers && (h.counts[h.pointers[p]] > 1 || moves ==> SameWhereLive(h, h'))
  {
    assert forall d :: d in h.buffers ==> WellPlaced(h.buffers, h.nextId, d);
    assert h.nextId !in h.buffers;
  }

  /** Every buffer that something besides `p` holds is live after the reallocation of `p`, and reads the same. */
  lemma ReallocatedKeepsContents(h: Heap, p: PointerId, bytes: seq<Byte>, size: nat, moves: bool, c: BufferId)
    requires Valid(h) && p in h.pointers && h.buffers[h.pointers[p]].Pooled? && size <= |bytes|
    requires AllPlaced(Reallocated(h, p, bytes, size, moves))
    requires c in h.buffers && (c != h.pointers[p] || h.counts[c] > 1)
    ensures var h' := Reallocated(h, p, bytes, size, moves);
            c in h'.buffers && Contents(h', c) == Contents(h, c)
  {
    ReallocatedBuffers(h, p, bytes, size, moves, c);
    if h.counts[h.pointers[p]] > 1 || moves {
      UnchangedContents(h, Reallocated(h, p, bytes, size, moves), c);
    } else {
      UniqueHasNoSlices(h, p);
      ResizeKeepsContents(h, h.pointers[p], bytes, size, c);
    }
  }

  /** All pointers but `p` are where they were, and read what they read. */
  ghost predicate OthersRead(h: Heap, h': Heap, p: PointerId)
    requires Valid(h) && Valid(h')
  {
    forall q | q in h.pointers && q != p :: q in h'.pointers && h'.pointers[q] == h.pointers[q] && Bytes(h', q) == Bytes(h, q)
  }

  /** A slice and every other pointer keep reading their bytes while `p` is reallocated. */
  lemma ReallocatedOthersRead(h: Heap, p: PointerId, bytes: seq<Byte>, size: nat, moves: bool)
    requires Valid(h) && p in h.pointers && h.buffers[h.pointers[p]].Pooled? && size <= |bytes|
    ensures Valid(Reallocated(h, p, bytes, size, moves)) && OthersRead(h, Reallocated(h, p, bytes, size, moves), p)
  {
    var h' := Reallocated(h, p, bytes, size, moves);
    ReallocatedValid(h, p, bytes, size, moves);
    forall q | q in h.pointers && q != p
      ensures q in h'.pointers && h'.pointers[q] == h.pointers[q] && Bytes(h', q) == Bytes(h, q)
    {
      if h.pointers[q] == h.pointers[p] { HeldByTwo(h, p, q); }
      ReallocatedKeepsContents(h, p, bytes, size, moves, h.pointers[q]);
    }
  }

  /** Pointers that are on both sides of a change read the same if the buffers on both sides are the same. */
  ghost predicate ReadAsBefore(h: Heap, h': Heap)
    requires Valid(h) && Valid(h')
  {
    forall q | q in h.pointers && q in h'.pointers :: Bytes(h', q) == Bytes(h, q)
  }

  lemma UnchangedReads(h: Heap, h': Heap)
    requires Valid(h) && Valid(h') && SameWhereLive(h, h')
    requires forall q | q in h.pointers && q in h'.pointers :: h'.pointers[q] == h.pointers[q]
    ensures ReadAsBefore(h, h')
  {
    forall q | q in h.pointers && q in h'.pointers
      ensures Bytes(h', q) == Bytes(h, q)
    {
      UnchangedContents(h, h', h.pointers[q]);
    }
  }

  lemma SlicedBuffers(h: Heap, p: PointerId, b: BufferId, offset: nat, length: nat)
    requires AllPlaced(h) && b in h.counts
    ensures SameWhereLive(h, Sliced(h, p, b, offset, length)) && h.nextId !in h.buffers
  {
    assert forall d :: d in h.buffers ==> WellPlaced(h.buffers, h.nextId, d);
  }

  /** A new slice reads its part of what it was made from, and changes nothing else. */
  lemma SliceReads(h: Heap, from: PointerId, p: PointerId, offset: nat, length: nat)
    requires Valid(h) && from in h.pointers && p !in h.pointers && offset + length <= h.buffers[h.pointers[from]].size
    ensures var h' := Sliced(h, p, h.pointers[from], offset, length);
            Valid(h') && ReadAsBefore(h, h') && Bytes(h', p) == Bytes(h, from)[offset..offset + length]
  {
    var b := h.pointers[from];
    var h' := Sliced(h, p, b, offset, length);
    SliceValid(h, p, b, offset, length);
    SlicedBuffers(h, p, b, offset, length);
    UnchangedReads(h, h');
    UnchangedContents(h, h', b);
    assert h'.buffers[h.nextId] == View(b, offset, length);
  }

  /** After a resize the pointers to `b` read the new bytes, and all others what they read. */
  ghost predicate ReadsResized(h: Heap, h': Heap, b: BufferId, s: seq<Byte>)
    requires Valid(h) && Valid(h')
  {
    forall q | q in h.pointers :: q in h'.pointers && Bytes(h', q) == if h.pointers[q] == b then s else Bytes(h, q)
  }

  lemma ResizeReads(h: Heap, b: BufferId, bytes: seq<Byte>, size: nat)
    requires Valid(h) && b in h.buffers && h.buffers[b].Pooled? && MayResize(h, b, bytes, size)
    ensures Valid(Resize(h, b, bytes, size)) && ReadsResized(h, Resize(h, b, bytes, size), b, bytes[..size])
  {
    var h' := Resize(h, b, bytes, size);
    ResizeValidIff(h, b, bytes, size);
    forall q | q in h.pointers
      ensures q in h'.pointers && Bytes(h', q) == if h.pointers[q] == b then bytes[..size] else Bytes(h, q)
    {
      if h.pointers[q] != b { ResizeKeepsContents(h, b, bytes, size, h.pointers[q]); }
    }
  }

  // ----- the operations as they run -----

  class Buffers {
    var heap: Heap

    constructor ()
      ensures heap == Empty() && Valid(heap)
    {
      heap := Empty();
      EmptyValid();
    }

    /** A new buffer over pool memory, `size` bytes of it in use. */
    method Add(p: PointerId, bytes: seq<Byte>, size: nat) returns (b: BufferId)
      requires Valid(heap) && p !in heap.pointers && size <= |bytes|
      modifies this
      ensures Valid(heap) && heap == AddBuffer(old(heap), p, Pooled(bytes, size)) && b == old(heap).nextId
      ensures Bytes(heap, p) == bytes[..size] && ReadAsBefore(old(heap), heap)
      ensures heap.poolBytes == old(heap).poolBytes + |bytes| + PADDED_SIZE
    {
      AllocateValid(heap, p, bytes, size);
      b := heap.nextId;
      ghost var before := heap;
      assert b !in heap.buffers;
      heap := AddBuffer(heap, p, Pooled(bytes, size));
      UnchangedReads(before, heap);
    }

    /** Copying a BufferPtr. */
    method Copy(from: PointerId, to: PointerId)
      requires Valid(heap) && from in heap.pointers && to !in heap.pointers
      modifies this
      ensures Valid(heap) && heap.pointers == old(heap).pointers[to := old(heap).pointers[from]]
      ensures heap.buffers == old(heap).buffers && heap.poolBytes == old(heap).poolBytes
      ensures ReadAsBefore(old(heap), heap)
    {
      var b := heap.pointers[from];
      CopyValid(heap, to, b);
      ghost var before := heap;
      heap := AddRef(heap, b).(pointers := heap.pointers[to := b]);
      UnchangedReads(before, heap);
    }

    /** sliceBufferZeroCopy, in bytes. */
    method Slice(from: PointerId, to: PointerId, offset: nat, length: nat) returns (r: Result<BufferId>)
      requires Valid(heap) && from in heap.pointers && to !in heap.pointers
      modifies this
      ensures Valid(heap)
      ensures r.Success? <==> offset + length <= old(heap).buffers[old(heap).pointers[from]].size
      ensures r.Success? ==> r.value == old(heap).nextId
      ensures r.Success? ==> heap == Sliced(old(heap), to, old(heap).pointers[from], offset, length)
      ensures r.Success? ==> Bytes(heap, to) == Bytes(old(heap), from)[offset..offset + length]
      ensures heap.poolBytes == old(heap).poolBytes
      ensures ReadAsBefore(old(heap), heap)
      ensures r.Failure? ==> heap == old(heap)
    {
      var b := heap.pointers[from];
      var size := heap.buffers[b].size;
      if offset > size { return Failure("Offset must be less than or equal to size"); }
      if length > size - offset { return Failure("Length must be less than or equal to size - offset"); }
      SliceReads(heap, from, to, offset, length);
      r := Success(heap.nextId);
      heap := Sliced(heap, to, b, offset, length);
    }

    /** Dropping a BufferPtr: release(), and on along the chain of parents as each view goes. */
    method Drop(p: PointerId)
      requires Valid(heap) && p in heap.pointers
      modifies this
      ensures Valid(heap) && heap.pointers == old(heap).pointers - {p} && heap.nextId == old(heap).nextId
      ensures heap.buffers.Keys <= old(heap).buffers.Keys && SameWhereLive(old(heap), heap)
      ensures old(heap).freed <= heap.freed
      ensures ReadAsBefore(old(heap), heap)
    {
      var b := heap.pointers[p];
      DropPointerCounted(heap, p);
      heap := heap.(pointers := heap.pointers - {p});
      var current: Option<BufferId> := Some(b);
      while current.Some?
        invariant Counted(heap, current)
        invariant heap.pointers == old(heap).pointers - {p} && heap.nextId == old(heap).nextId
        invariant heap.buffers.Keys <= old(heap).buffers.Keys && SameWhereLive(old(heap), heap)
        invariant old(heap).freed <= heap.freed
        decreases if current.Some? then current.value + 1 else 0
      {
        var c := current.value;
        assert WellPlaced(heap.buffers, heap.nextId, c);
        if heap.counts[c] > 1 {
          ReleaseShared(heap, c);
          heap := DropCount(heap, c);
          current := None;
        } else {
          ReleaseLast(heap, c);
          current := if heap.buffers[c].View? then Some(heap.buffers[c].parent) else None;
          heap := Free(heap, c);
        }
      }
      UnchangedReads(old(heap), heap);
    }

    /** setSize: refused on views and beyond the capacity; otherwise all is in order afterwards exactly when the
        slices of the buffer still fit, as they do on a buffer that nothing else holds. Then all others read on. */
    method SetSize(p: PointerId, size: nat) returns (ok: bool)
      requires Valid(heap) && p in heap.pointers
      modifies this
      ensures var b := old(heap).pointers[p];
              && ok == (old(heap).buffers[b].Pooled? && size <= |old(heap).buffers[b].bytes|)
              && (!ok ==> heap == old(heap))
              && (ok ==> heap == Resize(old(heap), b, old(heap).buffers[b].bytes, size))
              && (ok ==> (Valid(heap) <==> SlicesFit(old(heap), b, size)))
              && (old(heap).counts[b] == 1 ==> Valid(heap))
              && (ok && Valid(heap) ==> ReadsResized(old(heap), heap, b, old(heap).buffers[b].bytes[..size]))
    {
      var b := heap.pointers[p];
      var x := heap.buffers[b];
      ok := x.Pooled? && size <= |x.bytes|;
      if ok {
        ResizeValidIff(heap, b, x.bytes, size);
        if heap.counts[b] == 1 { UniqueHasNoSlices(heap, p); }
        assert WellPlaced(heap.buffers, heap.nextId, b);
        if SlicesFit(heap, b, size) { ResizeReads(heap, b, x.bytes, size); }
        heap := Resize(heap, b, x.bytes, size);
      }
    }

    /** Writing into the memory of `p` in place; slices find the bytes they had. */
    method Write(p: PointerId, bytes: seq<Byte>, size: nat)
      requires Valid(heap) && p in heap.pointers && heap.buffers[heap.pointers[p]].Pooled?
      requires MayResize(heap, heap.pointers[p], bytes, size)
      modifies this
      ensures Valid(heap) && heap == Resize(old(heap), old(heap).pointers[p], bytes, size)
      ensures ReadsResized(old(heap), heap, old(heap).pointers[p], bytes[..size])
    {
      ResizeReads(heap, heap.pointers[p], bytes, size);
      heap := Resize(heap, heap.pointers[p], bytes, size);
    }

    /** The only pointer to a buffer goes on with the memory `bytes`, in the same buffer or, if the pool moved it, in a
        new one. The pool works on a buffer that no pointer owns; if it throws, the pointer owns the old one again. */
    method PoolReallocate(p: PointerId, bytes: seq<Byte>, size: nat, throws: bool, moves: bool) returns (ok: bool)
      requires Valid(heap) && p in heap.pointers && heap.buffers[heap.pointers[p]].Pooled? && size <= |bytes|
      requires heap.counts[heap.pointers[p]] == 1
      modifies this
      ensures Valid(heap) && ok == !throws && (!ok ==> heap == old(heap))
      ensures ok ==> heap == Reallocated(old(heap), p, bytes, size, moves)
      ensures ok ==> OnlyMoves(old(heap), heap, p, Pooled(bytes, size)) && Bytes(heap, p) == bytes[..size]
      ensures ok ==> OthersRead(old(heap), heap, p)
    {
      ReallocatedValid(heap, p, bytes, size, moves);
      ReallocatedOthersRead(heap, p, bytes, size, moves);
      DetachedReallocates(heap, p, bytes, size);
      var b := heap.pointers[p];
      heap := Detach(heap, p);
      ok := !throws;
      if throws {
        heap := Attach(heap, p, b);
      } else if moves {
        heap := AddBuffer(Free(heap, b), p, Pooled(bytes, size));
      } else {
        heap := Resize(Attach(heap, p, b), b, bytes, size);
      }
    }

    /** The pointer goes on with the memory `bytes`: its own if it grows in place, that of a new buffer if the old one is
        shared, and otherwise what the pool reallocates. Slices and other pointers read on. */
    method Renew(p: PointerId, bytes: seq<Byte>, size: nat, inPlace: bool, throws: bool, moves: bool) returns (ok: bool)
      requires Valid(heap) && p in heap.pointers && heap.buffers[heap.pointers[p]].Pooled? && size <= |bytes|
      requires inPlace ==> heap.counts[heap.pointers[p]] == 1
      modifies this
      ensures Valid(heap) && ok == (inPlace || !throws) && (!ok ==> heap == old(heap))
      ensures ok ==> heap == Reallocated(old(heap), p, bytes, size, moves && !inPlace)
      ensures ok ==> OnlyMoves(old(heap), heap, p, Pooled(bytes, size)) && Bytes(heap, p) == bytes[..size]
      ensures ok ==> OthersRead(old(heap), heap, p)
    {
      CountPositive(heap, heap.pointers[p]);
      if !inPlace && heap.counts[heap.pointers[p]] == 1 {
        ok := PoolReallocate(p, bytes, size, throws, moves);
        return;
      }
      ReallocatedValid(heap, p, bytes, size, false);
      ReallocatedOthersRead(heap, p, bytes, size, false);
      if inPlace {
        heap := Resize(heap, heap.pointers[p], bytes, size);
        return true;
      }
      ok := !throws;
      if ok { heap := Unshare(heap, p, bytes, size); }
    }
  }
}
