/** Object lifetimes in buffers of non-POD elements: construction, assignment and destruction by allocate,
    setSize, reallocate and release (bolt/buffer/Buffer.h:386-424, bolt/buffer/Buffer.h:599-694).
    Sizes count elements. */
module NonPodBuffers {
  import opened Types
  import opened Sequences

  type BufferId = int
  type ObjectId = int

  /** A constructed object; identities are given out in order of construction. */
  datatype Object<T> = Object(id: ObjectId, value: T)

  /** Element slots hold an object or raw memory; `size` elements are in use. */
  datatype Buffer<T> = Buffer(slots: seq<Option<Object<T>>>, size: nat, refs: int)

  datatype World<T> = World(buffers: map<BufferId, Buffer<T>>, constructed: int, destroyed: seq<ObjectId>)

  /** Slot `i` of buffer `b` holds object `id`. */
  predicate Holds<T>(w: World<T>, b: BufferId, i: int, id: ObjectId) {
    b in w.buffers && 0 <= i < |w.buffers[b].slots| && w.buffers[b].slots[i].Some? && w.buffers[b].slots[i].value.id == id
  }

  /** Every object constructed so far is in exactly one slot, or was destroyed exactly once. */
  ghost predicate Ledger<T>(w: World<T>) {
    && 0 <= w.constructed
    && (forall i, j :: 0 <= i < j < |w.destroyed| ==> w.destroyed[i] != w.destroyed[j])
    && (forall b, i, id | Holds(w, b, i, id) :: 0 <= id < w.constructed && id !in w.destroyed)
    && (forall b, i, c, j, id | Holds(w, b, i, id) && Holds(w, c, j, id) :: b == c && i == j)
    && (forall id | 0 <= id < w.constructed && id !in w.destroyed :: exists b, i :: Holds(w, b, i, id))
    && (forall id | id in w.destroyed :: 0 <= id < w.constructed)
  }

  /** Exactly the slots below `n` hold an object. */
  ghost predicate Occupied<T>(x: Buffer<T>, n: nat) {
    n <= |x.slots| && forall i | 0 <= i < |x.slots| :: x.slots[i].Some? <==> i < n
  }

  ghost predicate AllOccupied<T>(w: World<T>) {
    forall b :: b in w.buffers ==> Occupied(w.buffers[b], w.buffers[b].size) && w.buffers[b].refs >= 1
  }

  ghost predicate Valid<T>(w: World<T>) {
    Ledger(w) && AllOccupied(w)
  }

  function SetSlot<T>(w: World<T>, b: BufferId, i: nat, slot: Option<Object<T>>): World<T>
    requires b in w.buffers && i < |w.buffers[b].slots|
  {
    var x := w.buffers[b];
    w.(buffers := w.buffers[b := x.(slots := x.slots[i := slot])])
  }

  /** Placement new over raw memory. */
  function Construct<T>(w: World<T>, b: BufferId, i: nat, v: T): World<T>
    requires b in w.buffers && i < |w.buffers[b].slots|
  {
    SetSlot(w, b, i, Some(Object(w.constructed, v))).(constructed := w.constructed + 1)
  }

  /** Destructor call on a constructed object. */
  function Destroy<T>(w: World<T>, b: BufferId, i: nat): World<T>
    requires b in w.buffers && i < |w.buffers[b].slots| && w.buffers[b].slots[i].Some?
  {
    SetSlot(w, b, i, None).(destroyed := w.destroyed + [w.buffers[b].slots[i].value.id])
  }

  /** Assignment to a constructed object keeps its identity. */
  function Assign<T>(w: World<T>, b: BufferId, i: nat, v: T): World<T>
    requires b in w.buffers && i < |w.buffers[b].slots| && w.buffers[b].slots[i].Some?
  {
    SetSlot(w, b, i, Some(Object(w.buffers[b].slots[i].value.id, v)))
  }

  lemma ConstructKeepsLedger<T>(w: World<T>, b: BufferId, i: nat, v: T)
    requires Ledger(w) && b in w.buffers && i < |w.buffers[b].slots| && w.buffers[b].slots[i].None?
    ensures Ledger(Construct(w, b, i, v))
  {
    var w' := Construct(w, b, i, v);
    assert Holds(w', b, i, w.constructed);
    forall c, j, id | Holds(w', c, j, id)
      ensures Holds(w, c, j, id) || (c == b && j == i && id == w.constructed)
    {}
    forall id | 0 <= id < w.constructed && id !in w.destroyed
      ensures exists c, j :: Holds(w', c, j, id)
    {
      var c, j :| Holds(w, c, j, id);
      assert Holds(w', c, j, id);
    }
  }

  lemma DestroyKeepsLedger<T>(w: World<T>, b: BufferId, i: nat)
    requires Ledger(w) && b in w.buffers && i < |w.buffers[b].slots| && w.buffers[b].slots[i].Some?
    ensures Ledger(Destroy(w, b, i))
  {
    var w', gone := Destroy(w, b, i), w.buffers[b].slots[i].value.id;
    assert Holds(w, b, i, gone);
    forall c, j, id | Holds(w', c, j, id)
      ensures Holds(w, c, j, id) && id != gone
    {
      assert Holds(w, c, j, id);
    }
    forall id | 0 <= id < w.constructed && id !in w'.destroyed
      ensures exists c, j :: Holds(w', c, j, id)
    {
      var c, j :| Holds(w, c, j, id);
      assert Holds(w', c, j, id);
    }
  }

  lemma AssignKeepsLedger<T>(w: World<T>, b: BufferId, i: nat, v: T)
    requires Ledger(w) && b in w.buffers && i < |w.buffers[b].slots| && w.buffers[b].slots[i].Some?
    ensures Ledger(Assign(w, b, i, v))
  {
    SameHoldings(w, Assign(w, b, i, v));
  }

  lemma SameHoldings<T>(w: World<T>, w': World<T>)
    requires Ledger(w) && w'.constructed == w.constructed && w'.destroyed == w.destroyed
    requires forall b, i, id :: Holds(w', b, i, id) <==> Holds(w, b, i, id)
    ensures Ledger(w')
  {
    forall id | 0 <= id < w.constructed && id !in w.destroyed
      ensures exists b, i :: Holds(w', b, i, id)
    {
      var b, i :| Holds(w, b, i, id);
      assert Holds(w', b, i, id);
    }
  }

  /** Objects of the buffers other than `b` are where they were. */
  ghost predicate OthersKept<T>(w: World<T>, w': World<T>, b: BufferId) {
    forall c :: c != b ==> (c in w'.buffers <==> c in w.buffers) && (c in w.buffers ==> w'.buffers[c] == w.buffers[c])
  }

  // ----- the operations as they run -----

  class NonPodHeap<T> {
    var world: World<T>

    constructor ()
      ensures Valid(world) && world == World(map[], 0, [])
    {
      world := World(map[], 0, []);
    }

    /** The loops that construct elements `from` to `to` as copies of `v`. */
    method ConstructRange(b: BufferId, from: nat, to: nat, v: T)
      requires Ledger(world) && b in world.buffers && from <= to <= |world.buffers[b].slots|
      requires Occupied(world.buffers[b], from)
      modifies this
      ensures Ledger(world) && b in world.buffers && OthersKept(old(world), world, b)
      ensures Occupied(world.buffers[b], to) && |world.buffers[b].slots| == |old(world).buffers[b].slots|
      ensures world.buffers[b].size == old(world).buffers[b].size && world.buffers[b].refs == old(world).buffers[b].refs
      ensures forall i | 0 <= i < from :: world.buffers[b].slots[i] == old(world).buffers[b].slots[i]
      ensures forall i | from <= i < to :: world.buffers[b].slots[i].Some? && world.buffers[b].slots[i].value.value == v
      ensures world.constructed == old(world).constructed + to - from && world.destroyed == old(world).destroyed
    {
      for k := from to to
        invariant Ledger(world) && b in world.buffers && OthersKept(old(world), world, b)
        invariant Occupied(world.buffers[b], k) && |world.buffers[b].slots| == |old(world).buffers[b].slots|
        invariant world.buffers[b].size == old(world).buffers[b].size && world.buffers[b].refs == old(world).buffers[b].refs
        invariant forall i | 0 <= i < from :: world.buffers[b].slots[i] == old(world).buffers[b].slots[i]
        invariant forall i | from <= i < k :: world.buffers[b].slots[i].Some? && world.buffers[b].slots[i].value.value == v
        invariant world.constructed == old(world).constructed + k - from && world.destroyed == old(world).destroyed
      {
        ConstructKeepsLedger(world, b, k, v);
        world := Construct(world, b, k, v);
      }
    }

    /** The loops that destroy elements `from` to `to`. */
    method DestroyRange(b: BufferId, from: nat, to: nat)
      requires Ledger(world) && b in world.buffers && from <= to && Occupied(world.buffers[b], to)
      modifies this
      ensures Ledger(world) && b in world.buffers && OthersKept(old(world), world, b)
      ensures Occupied(world.buffers[b], from) && |world.buffers[b].slots| == |old(world).buffers[b].slots|
      ensures world.buffers[b].size == old(world).buffers[b].size && world.buffers[b].refs == old(world).buffers[b].refs
      ensures forall i | 0 <= i < from :: world.buffers[b].slots[i] == old(world).buffers[b].slots[i]
      ensures world.constructed == old(world).constructed && |world.destroyed| == |old(world).destroyed| + to - from
    {
      for k := from to to
        invariant Ledger(world) && b in world.buffers && OthersKept(old(world), world, b)
        invariant |world.buffers[b].slots| == |old(world).buffers[b].slots|
        invariant world.buffers[b].size == old(world).buffers[b].size && world.buffers[b].refs == old(world).buffers[b].refs
        invariant forall i | 0 <= i < |world.buffers[b].slots| ::
          world.buffers[b].slots[i] == if from <= i < k then None else old(world).buffers[b].slots[i]
        invariant world.constructed == old(world).constructed && |world.destroyed| == |old(world).destroyed| + k - from
      {
        DestroyKeepsLedger(world, b, k);
        world := Destroy(world, b, k);
      }
    }

    /** allocate: `capacity` raw slots, the first `size` constructed. */
    method Allocate(b: BufferId, capacity: nat, size: nat, v: T)
      requires Valid(world) && b !in world.buffers && size <= capacity
      modifies this
      ensures Valid(world) && b in world.buffers && OthersKept(old(world), world, b)
      ensures world.buffers[b].size == size && world.buffers[b].refs == 1 && |world.buffers[b].slots| == capacity
      ensures forall i | 0 <= i < size :: world.buffers[b].slots[i].Some? && world.buffers[b].slots[i].value.value == v
      ensures world.constructed == old(world).constructed + size && world.destroyed == old(world).destroyed
    {
      var raw := Buffer(seq(capacity, _ => None), size, 1);
      ghost var before := world;
      world := world.(buffers := world.buffers[b := raw]);
      assert forall c, i, id :: Holds(world, c, i, id) <==> Holds(before, c, i, id);
      SameHoldings(before, world);
      ConstructRange(b, 0, size, v);
      OthersStayOccupied(before, world, b);
    }

    /** NonPODAlignedBuffer::setSize; the checks that fail change nothing. */
    method SetSize(b: BufferId, size: nat, v: T) returns (ok: bool)
      requires Valid(world) && b in world.buffers
      modifies this
      ensures Valid(world) && b in world.buffers && OthersKept(old(world), world, b)
      ensures ok <==> size <= |old(world).buffers[b].slots|
      ensures !ok ==> world == old(world)
      ensures ok ==> world.buffers[b].size == size && world.buffers[b].refs == old(world).buffers[b].refs
      ensures ok ==> forall i | old(world).buffers[b].size <= i < size :: world.buffers[b].slots[i].Some? && world.buffers[b].slots[i].value.value == v
      ensures ok ==> forall i | 0 <= i < size && i < old(world).buffers[b].size :: world.buffers[b].slots[i] == old(world).buffers[b].slots[i]
    {
      var x := world.buffers[b];
      if size > |x.slots| { return false; }
      ghost var before := world;
      world := world.(buffers := world.buffers[b := x.(size := size)]);
      assert forall c, i, id :: Holds(world, c, i, id) <==> Holds(before, c, i, id);
      SameHoldings(before, world);
      if x.size <= size {
        ConstructRange(b, x.size, size, v);
      } else {
        DestroyRange(b, size, x.size);
      }
      OthersStayOccupied(before, world, b);
      ok := true;
    }

    /** release(): the last holder destroys every element and frees the memory. */
    method Release(b: BufferId)
      requires Valid(world) && b in world.buffers
      modifies this
      ensures Valid(world) && OthersKept(old(world), world, b)
      ensures b in world.buffers <==> old(world).buffers[b].refs > 1
      ensures b in world.buffers ==> world.buffers[b] == old(world).buffers[b].(refs := old(world).buffers[b].refs - 1)
      ensures world.constructed == old(world).constructed
      ensures |world.destroyed| == |old(world).destroyed| + if old(world).buffers[b].refs > 1 then 0 else old(world).buffers[b].size
    {
      var x := world.buffers[b];
      ghost var before := world;
      if x.refs > 1 {
        world := world.(buffers := world.buffers[b := x.(refs := x.refs - 1)]);
        assert forall c, i, id :: Holds(world, c, i, id) <==> Holds(before, c, i, id);
        SameHoldings(before, world);
      } else {
        DestroyRange(b, 0, x.size);
        ghost var emptied := world;
        world := world.(buffers := world.buffers - {b});
        assert forall c, i, id :: Holds(world, c, i, id) <==> Holds(emptied, c, i, id);
        SameHoldings(emptied, world);
      }
      OthersStayOccupied(before, world, b);
    }

    /** The element loop of copyFrom. */
    method CopyFrom(to: BufferId, from: BufferId, count: nat)
      requires Valid(world) && to in world.buffers && from in world.buffers && to != from
      requires count <= world.buffers[to].size && count <= world.buffers[from].size
      modifies this
      ensures Valid(world) && to in world.buffers && OthersKept(old(world), world, to)
      ensures world.buffers[to].size == old(world).buffers[to].size && world.buffers[to].refs == old(world).buffers[to].refs
      ensures |world.buffers[to].slots| == |old(world).buffers[to].slots|
      ensures forall i | 0 <= i < count :: world.buffers[to].slots[i].value.value == old(world).buffers[from].slots[i].value.value
      ensures forall i | count <= i < |world.buffers[to].slots| :: world.buffers[to].slots[i] == old(world).buffers[to].slots[i]
      ensures world.constructed == old(world).constructed && world.destroyed == old(world).destroyed
    {
      for k := 0 to count
        invariant Valid(world) && to in world.buffers && from in world.buffers && OthersKept(old(world), world, to)
        invariant world.buffers[from] == old(world).buffers[from]
        invariant world.buffers[to].size == old(world).buffers[to].size && world.buffers[to].refs == old(world).buffers[to].refs
        invariant |world.buffers[to].slots| == |old(world).buffers[to].slots|
        invariant forall i | 0 <= i < k :: world.buffers[to].slots[i].value.value == old(world).buffers[from].slots[i].value.value
        invariant forall i | k <= i < |world.buffers[to].slots| :: world.buffers[to].slots[i] == old(world).buffers[to].slots[i]
        invariant world.constructed == old(world).constructed && world.destroyed == old(world).destroyed
      {
        var v := world.buffers[from].slots[k].value.value;
        AssignKeepsLedger(world, to, k, v);
        world := Assign(world, to, k, v);
      }
    }

    /** Copying a BufferPtr to `b`. */
    method Share(b: BufferId)
      requires Valid(world) && b in world.buffers
      modifies this
      ensures Valid(world) && OthersKept(old(world), world, b)
      ensures b in world.buffers && world.buffers[b] == old(world).buffers[b].(refs := old(world).buffers[b].refs + 1)
      ensures world.constructed == old(world).constructed && world.destroyed == old(world).destroyed
    {
      var x := world.buffers[b];
      ghost var before := world;
      world := world.(buffers := world.buffers[b := x.(refs := x.refs + 1)]);
      assert forall c, i, id :: Holds(world, c, i, id) <==> Holds(before, c, i, id);
      SameHoldings(before, world);
      OthersStayOccupied(before, world, b);
    }

    /** AlignedBuffer::reallocate of a non-POD buffer held by one of the pointers to `b`. `hasRoom` is the
        outcome of comparing the new size in bytes with the capacity; `spare` names a new buffer, and `fails` says
        whether allocating it throws. */
    method Reallocate(b: BufferId, size: nat, v: T, hasRoom: bool, spare: BufferId, spareCapacity: nat, fails: bool)
      returns (r: Result<BufferId>)
      requires Valid(world) && b in world.buffers && spare !in world.buffers && size <= spareCapacity
      requires hasRoom ==> size <= |world.buffers[b].slots|
      modifies this
      ensures Valid(world)
      ensures r.Failure? <==> fails && !(size > old(world).buffers[b].size && hasRoom && old(world).buffers[b].refs == 1)
      ensures r.Failure? ==> world == old(world)
      ensures r.Success? ==>
                r.value in world.buffers && world.buffers[r.value].size == size && world.buffers[r.value].refs == 1
      ensures r.Success? ==>
                r.value == b || (r.value == spare && (b in world.buffers <==> old(world).buffers[b].refs > 1))
      ensures r == Success(spare) && b in world.buffers ==>
                world.buffers[b] == old(world).buffers[b].(refs := old(world).buffers[b].refs - 1)
      ensures forall c :: c != b && c != spare ==>
                (c in world.buffers <==> c in old(world).buffers) && (c in world.buffers ==> world.buffers[c] == old(world).buffers[c])
      ensures r.Success? ==>
                forall i | 0 <= i < size :: world.buffers[r.value].slots[i].Some? && world.buffers[r.value].slots[i].value.value ==
                  if i < old(world).buffers[b].size then old(world).buffers[b].slots[i].value.value else v
    {
      var x := world.buffers[b];
      if size > x.size && hasRoom && x.refs == 1 {
        var ok := SetSize(b, size, v);
        return Success(b);
      }
      if fails { return Failure("pool"); }
      Allocate(spare, spareCapacity, size, v);
      CopyFrom(spare, b, if size < x.size then size else x.size);
      Release(b);
      r := Success(spare);
    }
  }

  lemma OthersStayOccupied<T>(w: World<T>, w': World<T>, b: BufferId)
    requires AllOccupied(w) && OthersKept(w, w', b)
    requires b in w'.buffers ==> Occupied(w'.buffers[b], w'.buffers[b].size) && w'.buffers[b].refs >= 1
    ensures AllOccupied(w')
  {
    forall c | c in w'.buffers
      ensures Occupied(w'.buffers[c], w'.buffers[c].size) && w'.buffers[c].refs >= 1
    {
      assert c != b ==> c in w.buffers && w'.buffers[c] == w.buffers[c];
    }
  }

  /** When every buffer has been released, every object constructed has been destroyed, exactly once. */
  lemma AllObjectsDestroyed<T>(w: World<T>)
    requires Valid(w) && w.buffers == map[]
    ensures forall id :: id in w.destroyed <==> 0 <= id < w.constructed
    ensures |w.destroyed| == w.constructed
  {
    forall id | 0 <= id < w.constructed
      ensures id in w.destroyed
    {
      assert forall b, i :: !Holds(w, b, i, id);
    }
    DistinctCoverCounts(w.destroyed, w.constructed);
  }

  lemma DistinctCoverCounts(ids: seq<ObjectId>, n: int)
    requires 0 <= n && (forall i, j :: 0 <= i < j < |ids| ==> ids[i] != ids[j])
    requires forall id :: id in ids <==> 0 <= id < n
    ensures |ids| == n
  {
    assert (set id | id in ids) == UpTo(n);
    DistinctSize(ids);
  }

  /** The identities 0 to n - 1. */
  ghost function UpTo(n: int): (s: set<ObjectId>)
    requires 0 <= n
    ensures |s| == n && forall id :: id in s <==> 0 <= id < n
  {
    if n == 0 then {} else UpTo(n - 1) + {n - 1}
  }
}
