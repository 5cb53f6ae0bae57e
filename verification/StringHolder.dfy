/** StringViewBufferHolder: views into buffers that only ever grow at their end
    (bolt/buffer/StringViewBufferHolder.h, bolt/buffer/StringViewBufferHolder.cpp). */
module StringHolder {
  type Byte = bv8

  const INITIAL_RESERVATION: nat := 8192
  const INLINE_SIZE: nat := 12

  /** A StringView: at most INLINE_SIZE bytes in the view itself, or a range of someone's memory. */
  datatype StringView =
    | Inline(bytes: seq<Byte>)
    | External(data: array<Byte>, offset: nat, length: nat)

  /** An external view, and the bytes it was made for. */
  datatype Issued = Issued(view: StringView, bytes: seq<Byte>)

  ghost predicate Reads(view: StringView, bytes: seq<Byte>)
    reads if view.External? then {view.data} else {}
  {
    match view
    case Inline(own) => own == bytes
    case External(data, offset, length) =>
      offset + length <= data.Length && data[offset..offset + length] == bytes
  }

  /** Two external views occupy no common byte. */
  predicate Disjoint(v: StringView, w: StringView)
    requires v.External? && w.External?
  {
    v.data != w.data || v.offset + v.length <= w.offset || w.offset + w.length <= v.offset
  }

  class Holder {
    /** The buffers, and how much of each is in use. */
    var buffers: seq<array<Byte>>
    var sizes: seq<nat>
    /** Buffers handed over by moveBuffers with the part of each in use, and every external view ever returned. */
    ghost var moved: map<array<Byte>, nat>
    ghost var issued: seq<Issued>

    /** The view lies in the used part of one held buffer, or of one that was handed over. */
    ghost predicate Placed(view: StringView)
      reads this
    {
      view.External? && (
        || (view.data in moved && view.offset + view.length <= moved[view.data])
        || (|sizes| == |buffers| && exists k :: 0 <= k < |buffers| && buffers[k] == view.data && view.offset + view.length <= sizes[k]))
    }

    ghost predicate Valid()
      reads this, moved.Keys, buffers
    {
      && |sizes| == |buffers|
      && (forall k | 0 <= k < |buffers| :: sizes[k] <= buffers[k].Length && buffers[k] !in moved)
      && (forall a :: a in moved ==> moved[a] <= a.Length)
      && (forall j, k :: 0 <= j < k < |buffers| ==> buffers[j] != buffers[k])
      && (forall i | 0 <= i < |issued| :: Placed(issued[i].view) && Reads(issued[i].view, issued[i].bytes))
      && (forall i, j :: 0 <= i < j < |issued| ==> Disjoint(issued[i].view, issued[j].view))
    }

    constructor ()
      ensures Valid() && issued == [] && buffers == [] && moved == map[]
    {
      buffers, sizes, moved, issued := [], [], map[], [];
    }

    /** The buffer is missing or too full: the condition for a new one. */
    predicate NeedsBuffer(size: nat)
      reads this
      requires |sizes| == |buffers|
      reads buffers
    {
      buffers == [] || sizes[|sizes| - 1] + size > buffers[|buffers| - 1].Length
    }

    method AddBuffer(capacity: nat)
      requires Valid()
      modifies this`buffers, this`sizes
      ensures Valid() && |buffers| == |old(buffers)| + 1 && buffers[..|old(buffers)|] == old(buffers)
      ensures fresh(buffers[|buffers| - 1]) && buffers[|buffers| - 1].Length == capacity && sizes == old(sizes) + [0]
    {
      var a := new Byte[capacity](_ => 0);
      ghost var buffersBefore, sizesBefore := buffers, sizes;
      assert forall i | 0 <= i < |issued| :: Placed(issued[i].view);
      buffers, sizes := buffers + [a], sizes + [0];
      forall i | 0 <= i < |issued|
        ensures Placed(issued[i].view)
      {
        var v := issued[i].view;
        if v.data !in moved {
          var k :| 0 <= k < |buffersBefore| && buffersBefore[k] == v.data && v.offset + v.length <= sizesBefore[k];
          assert buffers[k] == v.data && sizes[k] == sizesBefore[k];
        }
      }
    }

    /** memcpy behind the used part of the last buffer, and setSize. */
    method WriteAtEnd(data: seq<Byte>) returns (target: array<Byte>, start: nat)
      requires Valid() && buffers != [] && sizes[|sizes| - 1] + |data| <= buffers[|buffers| - 1].Length
      modifies this`sizes, buffers[|buffers| - 1]
      ensures Valid()
      ensures target == buffers[|buffers| - 1] && start == old(sizes[|sizes| - 1])
      ensures start + |data| <= target.Length && target[start..start + |data|] == data
      ensures sizes == old(sizes)[|buffers| - 1 := start + |data|]
      ensures forall i | 0 <= i < |issued| :: issued[i].view.data == target ==> issued[i].view.offset + issued[i].view.length <= start
    {
      var last := |buffers| - 1;
      target, start := buffers[last], sizes[last];
      ghost var usedBefore := sizes;
      ghost var before := target[..];
      ViewsEndBefore(last);
      CopyBytes(target, start, data);
      sizes := sizes[last := start + |data|];
      forall i | 0 <= i < |issued|
        ensures Reads(issued[i].view, issued[i].bytes)
      {
        var v := issued[i].view;
        if v.data == target { SliceKept(before, target[..], v.offset, v.length, start); }
      }
      GrownStillPlaced(usedBefore);
    }

    /** getOwnedStringView(data, size); `capacity` is what the pool gives for a new buffer. */
    method GetOwnedBytes(data: seq<Byte>, capacity: nat) returns (view: StringView)
      requires Valid() && capacity >= |data| && capacity >= INITIAL_RESERVATION
      modifies this, buffers
      ensures Valid() && moved == old(moved)
      ensures Reads(view, data) && (view.Inline? <==> |data| <= INLINE_SIZE)
      ensures issued == old(issued) + if view.External? then [Issued(view, data)] else []
      // a new buffer exactly when the last one has no room for the data
      ensures old(buffers) <= buffers
      ensures |buffers| == |old(buffers)| + if old(buffers) == [] || old(sizes[|sizes| - 1]) + |data| > old(buffers[|buffers| - 1]).Length then 1 else 0
    {
      if NeedsBuffer(|data|) {
        AddBuffer(capacity);
      }
      var target, start := WriteAtEnd(data);
      if |data| <= INLINE_SIZE {
        view := Inline(data);
      } else {
        view := External(target, start, |data|);
        assert Placed(view) by { assert buffers[|buffers| - 1] == view.data && start + |data| <= sizes[|buffers| - 1]; }
        Issue(view, data);
      }
    }

    /** Record a new view that overlaps none of the earlier ones. */
    ghost method Issue(view: StringView, bytes: seq<Byte>)
      requires Valid() && Placed(view) && Reads(view, bytes)
      requires forall i | 0 <= i < |issued| :: Disjoint(issued[i].view, view)
      modifies this`issued
      ensures Valid() && issued == old(issued) + [Issued(view, bytes)]
    {
      assert forall i | 0 <= i < |issued| :: Placed(issued[i].view) && Reads(issued[i].view, issued[i].bytes);
      issued := issued + [Issued(view, bytes)];
    }

    /** The views into buffer `k` end within its used part. */
    lemma ViewsEndBefore(k: nat)
      requires Valid() && k < |buffers|
      ensures forall i | 0 <= i < |issued| :: issued[i].view.data == buffers[k] ==>
                issued[i].view.offset + issued[i].view.length <= sizes[k]
    {
      forall i | 0 <= i < |issued| && issued[i].view.data == buffers[k]
        ensures issued[i].view.offset + issued[i].view.length <= sizes[k]
      {
        assert Placed(issued[i].view);
      }
    }

    /** Views placed when the buffers were used up to `before` are placed when they are used further. */
    lemma GrownStillPlaced(before: seq<nat>)
      requires |before| == |sizes| == |buffers| && forall k | 0 <= k < |sizes| :: before[k] <= sizes[k]
      requires forall i | 0 <= i < |issued| :: issued[i].view.External?
      requires forall i | 0 <= i < |issued| ::
        || (issued[i].view.data in moved && issued[i].view.offset + issued[i].view.length <= moved[issued[i].view.data])
        || exists k :: 0 <= k < |buffers| && buffers[k] == issued[i].view.data && issued[i].view.offset + issued[i].view.length <= before[k]
      ensures forall i | 0 <= i < |issued| :: Placed(issued[i].view)
    {
      forall i | 0 <= i < |issued|
        ensures Placed(issued[i].view)
      {
        if issued[i].view.data !in moved {
          var k :| 0 <= k < |buffers| && buffers[k] == issued[i].view.data && issued[i].view.offset + issued[i].view.length <= before[k];
          assert issued[i].view.offset + issued[i].view.length <= sizes[k];
        }
      }
    }

    /** getOwnedStringView(stringView). */
    method GetOwnedStringView(stringView: StringView, capacity: nat) returns (view: StringView)
      requires Valid()
      requires stringView.External? ==>
                 && stringView.offset + stringView.length <= stringView.data.Length && stringView.length > INLINE_SIZE
                 && capacity >= stringView.length && capacity >= INITIAL_RESERVATION
      modifies this, buffers
      ensures Valid() && moved == old(moved)
      ensures stringView.Inline? ==> view == stringView && issued == old(issued)
      ensures stringView.External? ==>
                var bytes := old(stringView.data[stringView.offset..stringView.offset + stringView.length]);
                view.External? && Reads(view, bytes) && issued == old(issued) + [Issued(view, bytes)]
    {
      if stringView.Inline? { return stringView; }
      view := GetOwnedBytes(stringView.data[stringView.offset..stringView.offset + stringView.length], capacity);
    }

    /** moveBuffers. */
    method MoveBuffers() returns (result: seq<array<Byte>>)
      requires Valid()
      modifies this
      ensures Valid() && buffers == [] && result == old(buffers) && issued == old(issued)
      ensures moved.Keys == old(moved.Keys) + set a | a in result
      ensures forall k | 0 <= k < |result| :: result[k] in moved && moved[result[k]] == old(sizes)[k]
      ensures forall a :: a in old(moved) ==> a in moved && moved[a] == old(moved)[a]
    {
      result := buffers;
      assert forall i | 0 <= i < |issued| :: Placed(issued[i].view);
      ghost var handed := HandOver(moved, buffers, sizes, |buffers|);
      forall i | 0 <= i < |issued|
        ensures var v := issued[i].view;
                v.data in handed && v.offset + v.length <= handed[v.data]
      {
        var v := issued[i].view;
        if v.data !in moved {
          var k :| 0 <= k < |buffers| && buffers[k] == v.data && v.offset + v.length <= sizes[k];
          assert handed[buffers[k]] == sizes[k];
        }
      }
      moved, buffers, sizes := handed, [], [];
    }
  }

  /** The first `n` of the distinct `buffers`, with their used sizes, added to those handed over before. */
  ghost function HandOver(moved: map<array<Byte>, nat>, buffers: seq<array<Byte>>, sizes: seq<nat>, n: nat): (r: map<array<Byte>, nat>)
    requires n <= |buffers| == |sizes|
    requires forall k | 0 <= k < |buffers| :: buffers[k] !in moved
    requires forall j, k :: 0 <= j < k < |buffers| ==> buffers[j] != buffers[k]
    ensures r.Keys == moved.Keys + set a | a in buffers[..n]
    ensures forall a :: a in moved ==> a in r && r[a] == moved[a]
    ensures forall k | 0 <= k < n :: buffers[k] in r && r[buffers[k]] == sizes[k]
  {
    if n == 0 then moved
    else
      var before := HandOver(moved, buffers, sizes, n - 1);
      assert buffers[..n] == buffers[..n - 1] + [buffers[n - 1]];
      before[buffers[n - 1] := sizes[n - 1]]
  }

  /** memcpy into `target` from `start` on. */
  method CopyBytes(target: array<Byte>, start: nat, data: seq<Byte>)
    requires start + |data| <= target.Length
    modifies target
    ensures target[start..start + |data|] == data
    ensures forall i | 0 <= i < start :: target[i] == old(target[i])
    ensures forall i | start + |data| <= i < target.Length :: target[i] == old(target[i])
  {
    for k := 0 to |data|
      invariant target[start..start + k] == data[..k]
      invariant forall i | 0 <= i < start :: target[i] == old(target[i])
      invariant forall i | start + k <= i < target.Length :: target[i] == old(target[i])
    {
      target[start + k] := data[k];
      assert target[start..start + k + 1] == target[start..start + k] + [data[k]];
    }
  }

  /** Memory equal up to `start` reads equal before it. */
  lemma SliceKept(before: seq<Byte>, after: seq<Byte>, offset: nat, length: nat, start: nat)
    requires |before| == |after| && offset + length <= start <= |before|
    requires forall i | 0 <= i < start :: before[i] == after[i]
    ensures before[offset..offset + length] == after[offset..offset + length]
  {}
}
