/** AlignedBuffer for plain bytes: allocate, the four reallocation paths, and appendTo, on buffers with other
    holders and slices (bolt/buffer/Buffer.h:364-490, bolt/buffer/Buffer.h:526-550). The pool is a contract. */
module AlignedBuffers {
  import opened Types
  import opened Multiples
  import opened BufferHeap

  const MAX_SIZE: nat := 0xffff_ffff_ffff_ffff

  /** How the memory pool answers: preferred sizes, whether it can give memory, where reallocated memory
      ends up, and what fresh memory happens to contain. */
  datatype Pool = Pool(preferredSize: nat -> nat, throws: bool, moves: bool, junk: int -> Byte)

  /** preferredSize(n) >= n. */
  ghost predicate PoolContract(pool: Pool) {
    forall n :: pool.preferredSize(n) >= n
  }

  /** `size` fresh bytes. */
  function FreshBytes(pool: Pool, size: nat): (s: seq<Byte>)
    ensures |s| == size
  {
    seq(size, i => pool.junk(i))
  }

  /** Pool memory of `size` bytes whose common prefix with `bytes` is kept. */
  function Resized(pool: Pool, bytes: seq<Byte>, size: nat): (s: seq<Byte>)
    ensures |s| == size
    ensures forall i | 0 <= i < size && i < |bytes| :: s[i] == bytes[i]
  {
    if size <= |bytes| then bytes[..size] else bytes + seq(size - |bytes|, i => pool.junk(i))
  }

  /** What a reallocation to `|after|` bytes leaves of `before`, for elements of `width` bytes. std::fill
      starts at the element that the old size falls into. */
  ghost predicate KeptAndFilled(before: seq<Byte>, after: seq<Byte>, width: nat, init: Option<seq<Byte>>)
    requires width > 0 && (init.Some? ==> |init.value| == width)
  {
    var filled := if init.Some? && |after| > |before| then |before| / width * width else |after|;
    && (forall i | 0 <= i < |after| && i < |before| && i < filled :: after[i] == before[i])
    && (init.Some? ==> forall i | filled <= i < |after| && 0 <= i :: after[i] == init.value[i % width])
  }

  /** fillNewMemory: std::fill over whole elements. */
  method FillNewMemory(memory: seq<Byte>, oldBytes: nat, newBytes: nat, width: nat, init: Option<seq<Byte>>)
    returns (bytes: seq<Byte>)
    requires newBytes <= |memory| && width > 0 && newBytes % width == 0 && (init.Some? ==> |init.value| == width)
    ensures |bytes| == |memory|
    ensures init.None? || newBytes <= oldBytes ==> bytes == memory
    ensures init.Some? && newBytes > oldBytes ==>
              forall i | 0 <= i < |bytes| ::
                bytes[i] == if oldBytes / width * width <= i < newBytes then init.value[i % width] else memory[i]
  {
    bytes := memory;
    if newBytes <= oldBytes { return; }
    if init.Some? {
      var start := oldBytes / width * width;
      FillStartsBefore(oldBytes, width);
      for k := start to newBytes
        invariant |bytes| == |memory|
        invariant forall i | 0 <= i < |bytes| :: bytes[i] == if start <= i < k then init.value[i % width] else memory[i]
      {
        bytes := bytes[k := init.value[k % width]];
      }
    }
  }

  lemma FillStartsBefore(oldBytes: nat, width: nat)
    requires width > 0
    ensures 0 <= oldBytes / width * width <= oldBytes
  {}

  function Min(a: nat, b: nat): nat {
    if a < b then a else b
  }

  /** Memory for `numElements` elements, filled with the initial value if there is one. */
  method NewMemory(numElements: nat, width: nat, init: Option<seq<Byte>>, pool: Pool) returns (bytes: seq<Byte>)
    requires PoolContract(pool) && width > 0 && (init.Some? ==> |init.value| == width)
    ensures numElements * width <= |bytes| == pool.preferredSize(numElements * width + PADDED_SIZE) - PADDED_SIZE
    ensures init.Some? ==> forall i | 0 <= i < numElements * width :: bytes[i] == init.value[i % width]
  {
    var size := numElements * width;
    MultipleOf(numElements, width);
    assert 0 / width * width == 0;
    bytes := FillNewMemory(FreshBytes(pool, pool.preferredSize(size + PADDED_SIZE) - PADDED_SIZE), 0, size, width, init);
  }

  /** AlignedBuffer::allocate for the new pointer `p`. */
  method Allocate(buffers: Buffers, p: PointerId, numElements: nat, width: nat, init: Option<seq<Byte>>, pool: Pool)
    returns (r: Result<BufferId>)
    requires Valid(buffers.heap) && p !in buffers.heap.pointers
    requires PoolContract(pool) && width > 0 && (init.Some? ==> |init.value| == width)
    modifies buffers
    ensures Valid(buffers.heap)
    ensures r.Failure? <==> numElements * width + PADDED_SIZE > MAX_SIZE || pool.throws
    ensures r.Failure? ==> buffers.heap == old(buffers.heap)
    ensures r.Success? ==> AllocatedFor(old(buffers.heap), buffers.heap, p, r.value, numElements * width, pool)
    ensures r.Success? && init.Some? ==>
              forall i | 0 <= i < numElements * width :: buffers.heap.buffers[r.value].bytes[i] == init.value[i % width]
    ensures r.Success? ==> ReadAsBefore(old(buffers.heap), buffers.heap)
  {
    if numElements * width + PADDED_SIZE > MAX_SIZE { return Failure("overflow"); }
    if pool.throws { return Failure("pool"); }
    var bytes := NewMemory(numElements, width, init, pool);
    var b := buffers.Add(p, bytes, numElements * width);
    r := Success(b);
  }

  /** The pointer alone holds the new buffer `b` of `size` bytes, in memory of the size the pool prefers. */
  ghost predicate AllocatedFor(h: Heap, h': Heap, p: PointerId, b: BufferId, size: nat, pool: Pool) {
    && b in h'.buffers && h'.buffers[b].Pooled? && h'.buffers[b].size == size
    && |h'.buffers[b].bytes| == pool.preferredSize(size + PADDED_SIZE) - PADDED_SIZE
    && b == h.nextId && h' == AddBuffer(h, p, h'.buffers[b])
    && h'.poolBytes == h.poolBytes + pool.preferredSize(size + PADDED_SIZE)
  }

  /** Nobody else holds the buffer, and it has room between its size and its capacity. */
  predicate GrowsInPlace(h: Heap, p: PointerId, size: nat)
    requires p in h.pointers && h.pointers[p] in h.buffers && h.pointers[p] in h.counts
  {
    var x := h.buffers[h.pointers[p]];
    x.Pooled? && x.size < size < |x.bytes| && h.counts[h.pointers[p]] == 1
  }

  /** Memory prepared with the old bytes, then filled, is what reallocation promises. */
  lemma PreparedAndFilled(before: seq<Byte>, memory: seq<Byte>, bytes: seq<Byte>, size: nat, width: nat, init: Option<seq<Byte>>)
    requires width > 0 && (init.Some? ==> |init.value| == width) && size <= |memory| == |bytes|
    requires forall i | 0 <= i < size && i < |before| :: memory[i] == before[i]
    requires init.None? || size <= |before| ==> bytes == memory
    requires init.Some? && size > |before| ==>
               forall i | 0 <= i < |bytes| ::
                 bytes[i] == if |before| / width * width <= i < size then init.value[i % width] else memory[i]
    ensures KeptAndFilled(before, bytes[..size], width, init)
  {
    FillStartsBefore(|before|, width);
  }

  /** The memory that a buffer `x` goes on with for `size` bytes: its own, or with its contents copied or moved. */
  function Prepared(x: Buffer, inPlace: bool, shared: bool, size: nat, pool: Pool): (memory: seq<Byte>)
    requires x.Pooled? && x.size <= |x.bytes| && (inPlace ==> size <= |x.bytes|)
    requires inPlace || pool.preferredSize(size + PADDED_SIZE) >= size + PADDED_SIZE
    ensures size <= |memory|
    ensures forall i | 0 <= i < size && i < x.size :: memory[i] == x.bytes[i]
    ensures inPlace ==> |memory| == |x.bytes|
    ensures !inPlace ==> |memory| == pool.preferredSize(size + PADDED_SIZE) - PADDED_SIZE
  {
    if inPlace then x.bytes
    else
      var capacity := pool.preferredSize(size + PADDED_SIZE) - PADDED_SIZE;
      if shared then x.bytes[..Min(size, x.size)] + FreshBytes(pool, capacity)[Min(size, x.size)..]
      else Resized(pool, x.bytes, capacity)
  }

  /** That memory, filled from the old size on. */
  method RenewedMemory(x: Buffer, inPlace: bool, shared: bool, numElements: nat, width: nat, init: Option<seq<Byte>>, pool: Pool)
    returns (bytes: seq<Byte>)
    requires x.Pooled? && x.size <= |x.bytes| && (inPlace ==> numElements * width <= |x.bytes|) && PoolContract(pool)
    requires width > 0 && (init.Some? ==> |init.value| == width)
    ensures numElements * width <= |bytes|
    ensures |bytes| == if inPlace then |x.bytes| else pool.preferredSize(numElements * width + PADDED_SIZE) - PADDED_SIZE
    ensures KeptAndFilled(x.bytes[..x.size], bytes[..numElements * width], width, init)
  {
    var size := numElements * width;
    MultipleOf(numElements, width);
    var memory := Prepared(x, inPlace, shared, size, pool);
    bytes := FillNewMemory(memory, x.size, size, width, init);
    PreparedAndFilled(x.bytes[..x.size], memory, bytes, size, width, init);
  }

  /** AlignedBuffer::reallocate of what the pointer `p` points to. */
  method Reallocate(buffers: Buffers, p: PointerId, numElements: nat, width: nat, init: Option<seq<Byte>>, pool: Pool)
    returns (r: Result<BufferId>)
    requires Valid(buffers.heap) && p in buffers.heap.pointers && PoolContract(pool)
    requires width > 0 && (init.Some? ==> |init.value| == width)
    modifies buffers
    ensures Valid(buffers.heap)
    ensures r.Failure? <==>
            || numElements * width > MAX_SIZE || old(buffers.heap).buffers[old(buffers.heap).pointers[p]].View?
            || (!GrowsInPlace(old(buffers.heap), p, numElements * width) &&
                (numElements * width + PADDED_SIZE > MAX_SIZE || pool.throws))
    // an error changes nothing: the pointer owns the old buffer again
    ensures r.Failure? ==> buffers.heap == old(buffers.heap)
    ensures r.Success? ==> RenewedFor(old(buffers.heap), buffers.heap, p, numElements * width, pool) && r.value == buffers.heap.pointers[p]
    ensures r.Success? ==> KeptAndFilled(Bytes(old(buffers.heap), p), Bytes(buffers.heap, p), width, init)
    // slices and other pointers read what they read before
    ensures r.Success? ==> OthersRead(old(buffers.heap), buffers.heap, p)
  {
    var size := numElements * width;
    if size > MAX_SIZE { return Failure("overflow"); }
    var b := buffers.heap.pointers[p];
    var x := buffers.heap.buffers[b];
    if x.View? { return Failure("Reallocate tries to change the type"); }
    assert WellPlaced(buffers.heap.buffers, buffers.heap.nextId, b);
    var shared := buffers.heap.counts[b] > 1;
    var inPlace := size > x.size && size < |x.bytes| && !shared;
    if !inPlace && size + PADDED_SIZE > MAX_SIZE { return Failure("overflow"); }
    var bytes := RenewedMemory(x, inPlace, shared, numElements, width, init, pool);
    var ok := buffers.Renew(p, bytes, size, inPlace, pool.throws, pool.moves);
    if !ok { return Failure("pool"); }
    r := Success(buffers.heap.pointers[p]);
  }

  /** The pointer alone holds `size` bytes, in memory of the old capacity if it could grow in place, and of the size
      the pool prefers otherwise. */
  ghost predicate RenewedFor(h: Heap, h': Heap, p: PointerId, size: nat, pool: Pool)
    requires p in h.pointers && h.pointers[p] in h.buffers && h.pointers[p] in h.counts && h.buffers[h.pointers[p]].Pooled?
  {
    && p in h'.pointers && h'.pointers[p] in h'.buffers
    && var x, x' := h.buffers[h.pointers[p]], h'.buffers[h'.pointers[p]];
       && x'.Pooled? && x'.size == size && OnlyMoves(h, h', p, x')
       && |x'.bytes| == if GrowsInPlace(h, p, size) then |x.bytes| else pool.preferredSize(size + PADDED_SIZE) - PADDED_SIZE
  }

  // ----- what a caller can rely on -----

  /** With an old size of whole elements, the first min(old, new) bytes are kept and the growth is filled. */
  lemma AlignedReallocationKeepsPrefix(before: seq<Byte>, after: seq<Byte>, width: nat, init: Option<seq<Byte>>)
    requires width > 0 && (init.Some? ==> |init.value| == width)
    requires |before| % width == 0 && KeptAndFilled(before, after, width, init)
    ensures after[..Min(|before|, |after|)] == before[..Min(|before|, |after|)]
    ensures init.Some? ==> forall i | |before| <= i < |after| :: after[i] == init.value[i % width]
  {
    assert |before| / width * width == |before|;
  }

  /** Growing from `n` to `m` bytes with an initial value keeps the old bytes, whatever they are. */
  ghost predicate GrowthKeepsOldBytes(n: nat, m: nat, width: nat)
    requires width > 0
  {
    forall before: seq<Byte>, after: seq<Byte>, value: seq<Byte> ::
      |before| == n <= |after| == m && |value| == width && KeptAndFilled(before, after, width, Some(value)) ==>
        after[..n] == before
  }

  /** A filled growth keeps the old bytes exactly when the old size is a whole number of elements; otherwise
      it overwrites the last, partial one. */
  lemma GrowthKeepsOldBytesIffAligned(n: nat, m: nat, width: nat)
    requires width > 0 && n < m
    ensures GrowthKeepsOldBytes(n, m, width) <==> n % width == 0
  {
    if n % width == 0 {
      forall before: seq<Byte>, after: seq<Byte>, value: seq<Byte>
        | |before| == n <= |after| == m && |value| == width && KeptAndFilled(before, after, width, Some(value))
        ensures after[..n] == before
      {
        AlignedReallocationKeepsPrefix(before, after, width, Some(value));
      }
    } else {
      PartialElementLost(n, m, width);
    }
  }

  lemma PartialElementLost(n: nat, m: nat, width: nat)
    requires width > 0 && n < m && n % width != 0
    ensures !GrowthKeepsOldBytes(n, m, width)
  {
    var start := n / width * width;
    FloorBelow(n, width);
    var before: seq<Byte>, value: seq<Byte> := seq(n, _ => 0), seq(width, _ => 1);
    var after: seq<Byte> := seq(m, i => if i < start then 0 else 1);
    FilledOver(before, after, width, value, start);
    assert after[..n][n - 1] == 1 && before[n - 1] == 0;
  }

  lemma FloorBelow(n: nat, width: nat)
    requires width > 0 && n % width != 0
    ensures 0 <= n / width * width < n
  {}

  lemma FilledOver(before: seq<Byte>, after: seq<Byte>, width: nat, value: seq<Byte>, start: nat)
    requires width > 0 && |value| == width && |before| < |after| && start == |before| / width * width
    requires start <= |before|
    requires forall i | 0 <= i < start :: before[i] == after[i]
    requires forall i | start <= i < |after| :: after[i] == 1
    requires forall i | 0 <= i < width :: value[i] == 1
    ensures KeptAndFilled(before, after, width, Some(value))
  {
    forall i | start <= i < |after|
      ensures after[i] == value[i % width]
    {
      assert 0 <= i % width < width;
    }
  }

  // ----- appendTo -----

  lemma PrefixAfterGrowth(before: seq<Byte>, after: seq<Byte>)
    requires KeptAndFilled(before, after, 1, None) && |before| <= |after|
    ensures after[..|before|] == before
  {}

  predicate IsPooled(h: Heap, p: PointerId) {
    p in h.pointers && h.pointers[p] in h.buffers && h.buffers[h.pointers[p]].Pooled?
  }

  /** The capacity of the pool-backed buffer that `p` points to. */
  function Capacity(h: Heap, p: PointerId): nat
    requires IsPooled(h, p)
  {
    |h.buffers[h.pointers[p]].bytes|
  }

  /** Bytes may be written behind the first `size` ones: the buffer ends there, or nobody else holds it. */
  lemma MayAppend(h: Heap, p: PointerId, size: nat, items: seq<Byte>)
    requires Valid(h) && IsPooled(h, p) && size + |items| <= Capacity(h, p) && size <= h.buffers[h.pointers[p]].size
    requires h.buffers[h.pointers[p]].size == size || h.counts[h.pointers[p]] == 1
    ensures var bytes := h.buffers[h.pointers[p]].bytes;
            MayResize(h, h.pointers[p], bytes[..size] + items + bytes[size + |items|..], size + |items|)
  {
    var b := h.pointers[p];
    var x := h.buffers[b];
    if h.counts[b] == 1 {
      UniqueHasNoSlices(h, p);
    } else {
      forall v | v in h.buffers && v in ViewsOf(h.buffers, b)
        ensures h.buffers[v].offset + h.buffers[v].size <= size
      {
        assert WellPlaced(h.buffers, h.nextId, v);
      }
      var bytes := x.bytes[..size] + items + x.bytes[size + |items|..];
      assert bytes[..size] == x.bytes[..size];
    }
  }

  /** setSize and memcpy behind the first `size` bytes. */
  method WriteBehind(buffers: Buffers, p: PointerId, size: nat, items: seq<Byte>)
    requires Valid(buffers.heap) && IsPooled(buffers.heap, p) && size + |items| <= Capacity(buffers.heap, p)
    requires size <= buffers.heap.buffers[buffers.heap.pointers[p]].size
    requires buffers.heap.buffers[buffers.heap.pointers[p]].size == size || buffers.heap.counts[buffers.heap.pointers[p]] == 1
    modifies buffers
    ensures Valid(buffers.heap) && IsPooled(buffers.heap, p)
    ensures buffers.heap.pointers == old(buffers.heap.pointers) && buffers.heap.nextId == old(buffers.heap.nextId)
    ensures Capacity(buffers.heap, p) == Capacity(old(buffers.heap), p)
    ensures ReadsResized(old(buffers.heap), buffers.heap, old(buffers.heap).pointers[p],
                         old(buffers.heap).buffers[old(buffers.heap).pointers[p]].bytes[..size] + items)
  {
    var memory := buffers.heap.buffers[buffers.heap.pointers[p]].bytes;
    MayAppend(buffers.heap, p, size, items);
    var bytes := memory[..size] + items + memory[size + |items|..];
    assert bytes[..size + |items|] == memory[..size] + items;
    buffers.Write(p, bytes, size + |items|);
  }

  /** There is room for the items behind the bytes in use. */
  predicate HasRoom(h: Heap, p: PointerId, items: seq<Byte>)
    requires IsPooled(h, p)
  {
    h.buffers[h.pointers[p]].size + |items| <= Capacity(h, p)
  }

  /** The pointer reads the items behind what it read, in its old buffer if there was room and otherwise in one of at
      least twice the capacity that it alone holds. Who shares its buffer then reads the same as it, and everything
      else, slices included, what it read. */
  ghost predicate Appended(h: Heap, h': Heap, p: PointerId, items: seq<Byte>)
    requires Valid(h) && Valid(h') && IsPooled(h, p)
  {
    && IsPooled(h', p) && h'.pointers == h.pointers[p := h'.pointers[p]] && Bytes(h', p) == Bytes(h, p) + items
    && (h'.pointers[p] == h.pointers[p] || h'.pointers[p] == h.nextId)
    && (HasRoom(h, p, items) ==> h'.pointers[p] == h.pointers[p] && Capacity(h', p) == Capacity(h, p))
    && (!HasRoom(h, p, items) ==> Capacity(h', p) >= 2 * Capacity(h, p))
    && forall q | q in h.pointers && q != p ::
         if HasRoom(h, p, items) && h.pointers[q] == h.pointers[p] then Bytes(h', q) == Bytes(h', p)
         else h'.pointers[q] != h'.pointers[p] && Bytes(h', q) == Bytes(h, q)
  }

  /** In place: what a write behind the bytes in use does. */
  lemma AppendedInPlace(h: Heap, h': Heap, p: PointerId, items: seq<Byte>)
    requires Valid(h) && Valid(h') && IsPooled(h, p) && IsPooled(h', p) && HasRoom(h, p, items)
    requires h'.pointers == h.pointers && Capacity(h', p) == Capacity(h, p)
    requires ReadsResized(h, h', h.pointers[p], Bytes(h, p) + items)
    ensures Appended(h, h', p, items)
  {
    assert h.pointers[p := h.pointers[p]] == h.pointers;
  }

  /** By way of a reallocation to the heap `m`. */
  lemma AppendedAfterGrowth(h: Heap, m: Heap, h': Heap, p: PointerId, items: seq<Byte>)
    requires Valid(h) && Valid(m) && Valid(h') && IsPooled(h, p) && IsPooled(m, p) && IsPooled(h', p) && !HasRoom(h, p, items)
    requires OnlyMoves(h, m, p, m.buffers[m.pointers[p]]) && OthersRead(h, m, p)
    requires h'.pointers == m.pointers && Capacity(h', p) == Capacity(m, p) >= 2 * Capacity(h, p)
    requires ReadsResized(m, h', m.pointers[p], Bytes(h, p) + items)
    ensures Appended(h, h', p, items)
  {
    forall q | q in h.pointers && q != p
      ensures h'.pointers[q] != h'.pointers[p] && Bytes(h', q) == Bytes(h, q)
    {
      if m.pointers[q] == m.pointers[p] { HeldByTwo(m, p, q); }
    }
  }

  /** appendTo when there is no room: reallocation to `target` bytes, then the write. */
  method AppendGrowing(buffers: Buffers, p: PointerId, items: seq<Byte>, target: nat, pool: Pool) returns (r: Result<BufferId>)
    requires Valid(buffers.heap) && IsPooled(buffers.heap, p) && PoolContract(pool) && !HasRoom(buffers.heap, p, items)
    requires 2 * Capacity(buffers.heap, p) <= target <= MAX_SIZE
    requires buffers.heap.buffers[buffers.heap.pointers[p]].size + |items| <= target
    modifies buffers
    ensures Valid(buffers.heap)
    ensures r.Failure? <==> target + PADDED_SIZE > MAX_SIZE || pool.throws
    ensures r.Failure? ==> buffers.heap == old(buffers.heap)
    ensures r.Success? ==> Appended(old(buffers.heap), buffers.heap, p, items) && r.value == buffers.heap.pointers[p]
  {
    ghost var start := buffers.heap;
    var size := buffers.heap.buffers[buffers.heap.pointers[p]].size;
    r := Reallocate(buffers, p, target, 1, None, pool);
    if r.Failure? { return; }
    ghost var middle := buffers.heap;
    GrownPrefix(start, middle, p, target, pool);
    WriteBehind(buffers, p, size, items);
    AppendedAfterGrowth(start, middle, buffers.heap, p, items);
  }

  /** appendTo of `items`, given as bytes. */
  method AppendTo(buffers: Buffers, p: PointerId, items: seq<Byte>, pool: Pool) returns (r: Result<BufferId>)
    requires Valid(buffers.heap) && p in buffers.heap.pointers && PoolContract(pool)
    modifies buffers
    ensures Valid(buffers.heap)
    ensures r.Failure? <==> !IsPooled(old(buffers.heap), p) || AppendFails(old(buffers.heap), p, items, pool)
    ensures r.Failure? ==> buffers.heap == old(buffers.heap)
    ensures r.Success? ==> Appended(old(buffers.heap), buffers.heap, p, items) && r.value == buffers.heap.pointers[p]
  {
    var x := buffers.heap.buffers[buffers.heap.pointers[p]];
    if x.View? { return Failure("isView"); }
    var newSize := x.size + |items|;
    if newSize > MAX_SIZE { return Failure("overflow"); }
    if newSize > |x.bytes| {
      if 2 * |x.bytes| > MAX_SIZE { return Failure("overflow"); }
      var target := if 2 * |x.bytes| > newSize then 2 * |x.bytes| else newSize;
      r := AppendGrowing(buffers, p, items, target, pool);
    } else {
      ghost var start := buffers.heap;
      WriteBehind(buffers, p, x.size, items);
      AppendedInPlace(start, buffers.heap, p, items);
      r := Success(buffers.heap.pointers[p]);
    }
  }

  lemma GrownPrefix(h: Heap, m: Heap, p: PointerId, target: nat, pool: Pool)
    requires Valid(h) && Valid(m) && IsPooled(h, p) && Capacity(h, p) < target && PoolContract(pool)
    requires RenewedFor(h, m, p, target, pool) && KeptAndFilled(Bytes(h, p), Bytes(m, p), 1, None)
    ensures IsPooled(m, p) && Capacity(m, p) >= target == m.buffers[m.pointers[p]].size
    ensures h.buffers[h.pointers[p]].size <= Capacity(m, p)
    ensures m.buffers[m.pointers[p]].bytes[..h.buffers[h.pointers[p]].size] == Bytes(h, p)
  {
    assert WellPlaced(h.buffers, h.nextId, h.pointers[p]);
    PrefixAfterGrowth(Bytes(h, p), Bytes(m, p));
    var size := h.buffers[h.pointers[p]].size;
    SliceOfSlice(m.buffers[m.pointers[p]].bytes, 0, target, 0, size);
  }

  /** No size beyond 64 bits may come up, and the pool must give memory when there is no room. */
  predicate AppendFails(h: Heap, p: PointerId, items: seq<Byte>, pool: Pool)
    requires IsPooled(h, p)
  {
    var newSize, doubled := h.buffers[h.pointers[p]].size + |items|, 2 * Capacity(h, p);
    || newSize > MAX_SIZE
    || (!HasRoom(h, p, items) &&
        (doubled + PADDED_SIZE > MAX_SIZE || newSize + PADDED_SIZE > MAX_SIZE || pool.throws))
  }

  function Concat(itemss: seq<seq<Byte>>): seq<Byte> {
    if itemss == [] then [] else Concat(itemss[..|itemss| - 1]) + itemss[|itemss| - 1]
  }

  /** What a pointer points to, and the bytes it reads there. */
  datatype Reading = Reading(buffer: BufferId, bytes: seq<Byte>)

  ghost function Readings(h: Heap): map<PointerId, Reading>
    requires Valid(h)
  {
    map q | q in h.pointers :: Reading(h.pointers[q], Bytes(h, q))
  }

  /** The pointer `p` reads `items` behind what it read. Who does not share its buffer does not later either, and reads
      what it read. */
  ghost predicate ReadsMore(before: map<PointerId, Reading>, after: map<PointerId, Reading>, p: PointerId, items: seq<Byte>) {
    && p in before && p in after && after[p].bytes == before[p].bytes + items
    && forall q | q in before && before[q].buffer != before[p].buffer ::
         q in after && after[q].buffer != after[p].buffer && after[q].bytes == before[q].bytes
  }

  lemma ReadsNoMore(before: map<PointerId, Reading>, p: PointerId)
    requires p in before
    ensures ReadsMore(before, before, p, [])
  {
  }

  lemma ReadsMoreOn(before: map<PointerId, Reading>, middle: map<PointerId, Reading>, after: map<PointerId, Reading>,
      p: PointerId, items: seq<Byte>, more: seq<Byte>)
    requires ReadsMore(before, middle, p, items) && ReadsMore(middle, after, p, more)
    ensures ReadsMore(before, after, p, items + more)
  {
    assert before[p].bytes + items + more == before[p].bytes + (items + more);
  }

  // ----- runs of appends -----

  /** One append from heap to heap. */
  ghost predicate AppendStep(h: Heap, h': Heap, p: PointerId, items: seq<Byte>) {
    Valid(h) && Valid(h') && IsPooled(h, p) && IsPooled(h', p) && Appended(h, h', p, items)
  }

  lemma StepReadsMore(h: Heap, h': Heap, p: PointerId, items: seq<Byte>)
    requires AppendStep(h, h', p, items)
    ensures ReadsMore(Readings(h), Readings(h'), p, items)
  {
  }

  lemma ReadsMoreAfter(before: map<PointerId, Reading>, h: Heap, h': Heap, p: PointerId, items: seq<Byte>, more: seq<Byte>)
    requires AppendStep(h, h', p, more) && ReadsMore(before, Readings(h), p, items)
    ensures ReadsMore(before, Readings(h'), p, items + more)
  {
    StepReadsMore(h, h', p, more);
    ReadsMoreOn(before, Readings(h), Readings(h'), p, items, more);
  }

  /** The capacity of the pool-backed buffer that `p` points to, if it points to one. */
  function CapacityOf(h: Heap, p: PointerId): nat {
    if IsPooled(h, p) then Capacity(h, p) else 0
  }

  /** The capacity that an append of `items` leaves behind: all of it, if they find no room. */
  function LeftBehind(h: Heap, p: PointerId, items: seq<Byte>): nat {
    if IsPooled(h, p) && !HasRoom(h, p, items) then Capacity(h, p) else 0
  }

  lemma StepDoubles(h: Heap, h': Heap, p: PointerId, items: seq<Byte>)
    requires AppendStep(h, h', p, items)
    ensures CapacityOf(h', p) >= CapacityOf(h, p) + LeftBehind(h, p, items)
  {
  }

  /** Append `i` leads from heap `i` to the next. */
  ghost predicate StepAt(heaps: seq<Heap>, p: PointerId, itemss: seq<seq<Byte>>, i: nat)
    requires i + 1 < |heaps| && i < |itemss|
  {
    AppendStep(heaps[i], heaps[i + 1], p, itemss[i])
  }

  /** The heaps that a run of appends goes through. */
  ghost predicate AppendRun(heaps: seq<Heap>, p: PointerId, itemss: seq<seq<Byte>>) {
    && 0 < |heaps| <= |itemss| + 1 && Valid(heaps[0]) && IsPooled(heaps[0], p)
    && forall i | 0 <= i < |heaps| - 1 :: StepAt(heaps, p, itemss, i)
  }

  /** All capacities outgrown in the first `n` appends. */
  ghost function Outgrown(heaps: seq<Heap>, p: PointerId, itemss: seq<seq<Byte>>, n: nat): nat
    requires n < |heaps| <= |itemss| + 1
  {
    if n == 0 then 0 else Outgrown(heaps, p, itemss, n - 1) + LeftBehind(heaps[n - 1], p, itemss[n - 1])
  }

  lemma RunDoubles(heaps: seq<Heap>, p: PointerId, itemss: seq<seq<Byte>>, i: nat)
    requires AppendRun(heaps, p, itemss) && i + 1 < |heaps|
    ensures CapacityOf(heaps[i + 1], p) >= CapacityOf(heaps[i], p) + LeftBehind(heaps[i], p, itemss[i])
  {
    assert StepAt(heaps, p, itemss, i);
    StepDoubles(heaps[i], heaps[i + 1], p, itemss[i]);
  }

  /** All the memory outgrown in a run is together no larger than the memory it has led to. */
  lemma {:induction false} OutgrownBounded(heaps: seq<Heap>, p: PointerId, itemss: seq<seq<Byte>>, n: nat)
    requires AppendRun(heaps, p, itemss) && n < |heaps|
    ensures Outgrown(heaps, p, itemss, n) <= CapacityOf(heaps[n], p)
    decreases n
  {
    if n > 0 {
      OutgrownBounded(heaps, p, itemss, n - 1);
      RunDoubles(heaps, p, itemss, n - 1);
    }
  }

  lemma ConcatNext(itemss: seq<seq<Byte>>, n: nat)
    requires n < |itemss|
    ensures Concat(itemss[..n + 1]) == Concat(itemss[..n]) + itemss[n]
  {
    assert itemss[..n + 1][..n] == itemss[..n];
  }

  /** A run appends the concatenation of its items. */
  lemma {:induction false} RunReadsMore(heaps: seq<Heap>, p: PointerId, itemss: seq<seq<Byte>>, n: nat)
    requires AppendRun(heaps, p, itemss) && n < |heaps|
    ensures Valid(heaps[n]) && ReadsMore(Readings(heaps[0]), Readings(heaps[n]), p, Concat(itemss[..n]))
    decreases n
  {
    if n == 0 {
      ReadsNoMore(Readings(heaps[0]), p);
    } else {
      RunReadsMore(heaps, p, itemss, n - 1);
      assert StepAt(heaps, p, itemss, n - 1);
      ReadsMoreAfter(Readings(heaps[0]), heaps[n - 1], heaps[n], p, Concat(itemss[..n - 1]), itemss[n - 1]);
      ConcatNext(itemss, n - 1);
    }
  }

  lemma RunNext(heaps: seq<Heap>, h: Heap, p: PointerId, itemss: seq<seq<Byte>>)
    requires AppendRun(heaps, p, itemss) && |heaps| <= |itemss| && AppendStep(heaps[|heaps| - 1], h, p, itemss[|heaps| - 1])
    ensures AppendRun(heaps + [h], p, itemss)
  {
    forall i | 0 <= i < |heaps|
      ensures StepAt(heaps + [h], p, itemss, i)
    {
      if i < |heaps| - 1 { assert StepAt(heaps, p, itemss, i); }
    }
  }

  /** One append of a run: a step, or the same heap again if the append fails. */
  method AppendNext(buffers: Buffers, p: PointerId, items: seq<Byte>, pool: Pool) returns (r: Result<BufferId>)
    requires Valid(buffers.heap) && IsPooled(buffers.heap, p) && PoolContract(pool)
    modifies buffers
    ensures r.Success? ==> AppendStep(old(buffers.heap), buffers.heap, p, items) && r.value == buffers.heap.pointers[p]
    ensures r.Failure? ==> buffers.heap == old(buffers.heap)
    ensures r.Failure? <==> AppendFails(old(buffers.heap), p, items, pool)
  {
    r := AppendTo(buffers, p, items, pool);
  }

  predicate StepFails(h: Heap, p: PointerId, items: seq<Byte>, pool: Pool) {
    IsPooled(h, p) && AppendFails(h, p, items, pool)
  }

  /** A run of `done` appends, none of which was to fail, through `heaps` to `h`. */
  ghost predicate RanAppends(heaps: seq<Heap>, h: Heap, p: PointerId, itemss: seq<seq<Byte>>, pools: seq<Pool>, done: nat) {
    && done <= |itemss| == |pools| && |heaps| == done + 1 && AppendRun(heaps, p, itemss)
    && heaps[done] == h && Valid(h) && IsPooled(h, p)
    && forall i | 0 <= i < done :: !StepFails(heaps[i], p, itemss[i], pools[i])
  }

  lemma RanAppendsNext(heaps: seq<Heap>, h: Heap, h': Heap, p: PointerId, itemss: seq<seq<Byte>>, pools: seq<Pool>, done: nat)
    requires RanAppends(heaps, h, p, itemss, pools, done) && done < |itemss|
    requires AppendStep(h, h', p, itemss[done]) && !StepFails(h, p, itemss[done], pools[done])
    ensures RanAppends(heaps + [h'], h', p, itemss, pools, done + 1)
  {
    RunNext(heaps, h', p, itemss);
  }

  /** The appends one after the other, up to the first that fails. */
  method AppendEach(buffers: Buffers, p: PointerId, itemss: seq<seq<Byte>>, pools: seq<Pool>)
    returns (r: Result<BufferId>, done: nat, ghost heaps: seq<Heap>)
    requires Valid(buffers.heap) && IsPooled(buffers.heap, p)
    requires |pools| == |itemss| && forall i | 0 <= i < |pools| :: PoolContract(pools[i])
    modifies buffers
    ensures RanAppends(heaps, buffers.heap, p, itemss, pools, done) && heaps[0] == old(buffers.heap)
    ensures r.Success? <==> done == |itemss|
    ensures r.Failure? ==> StepFails(buffers.heap, p, itemss[done], pools[done])
    ensures r.Success? ==> r.value == buffers.heap.pointers[p]
  {
    done, heaps, r := 0, [buffers.heap], Success(buffers.heap.pointers[p]);
    while done < |itemss|
      invariant RanAppends(heaps, buffers.heap, p, itemss, pools, done) && heaps[0] == old(buffers.heap)
      invariant r == Success(buffers.heap.pointers[p])
    {
      ghost var before := buffers.heap;
      r := AppendNext(buffers, p, itemss[done], pools[done]);
      if r.Failure? { return; }
      RanAppendsNext(heaps, before, buffers.heap, p, itemss, pools, done);
      heaps, done := heaps + [buffers.heap], done + 1;
    }
  }

  /** Any run of appends, up to the first that fails, gives the concatenation of the items, and all the memory outgrown
      on the way is together no larger than the memory it ends with. */
  method AppendAll(buffers: Buffers, p: PointerId, itemss: seq<seq<Byte>>, pools: seq<Pool>)
    returns (r: Result<BufferId>, done: nat, ghost heaps: seq<Heap>)
    requires Valid(buffers.heap) && IsPooled(buffers.heap, p)
    requires |pools| == |itemss| && forall i | 0 <= i < |pools| :: PoolContract(pools[i])
    modifies buffers
    ensures RanAppends(heaps, buffers.heap, p, itemss, pools, done) && heaps[0] == old(buffers.heap)
    ensures r.Success? <==> done == |itemss|
    ensures r.Failure? ==> StepFails(buffers.heap, p, itemss[done], pools[done])
    ensures r.Success? ==> r.value == buffers.heap.pointers[p]
    ensures Outgrown(heaps, p, itemss, done) <= Capacity(buffers.heap, p)
    ensures ReadsMore(Readings(old(buffers.heap)), Readings(buffers.heap), p, Concat(itemss[..done]))
  {
    r, done, heaps := AppendEach(buffers, p, itemss, pools);
    OutgrownBounded(heaps, p, itemss, done);
    RunReadsMore(heaps, p, itemss, done);
  }
}
