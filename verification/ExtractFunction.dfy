/** The extract companion: one group per selected row, compacted in place
    (bolt/exec/AggregateCompanionAdapter.cpp:208-287). */
module ExtractFunction {
  import opened Multiples

  type Address = int

  /** The wrapped aggregate: a fresh accumulator, adding one intermediate result, the final value. */
  datatype Aggregate<!A, !V, !R> = Aggregate(
    initial: A,
    addIntermediate: (A, V) -> A,
    extract: A -> R,
    usesExternalMemory: bool,
    fixedWidthSize: nat,
    alignment: nat)

  // ----- group layout -----

  const NULL_BYTES := 1
  const ROW_SIZE_BYTES := 4

  function RoundUp(value: nat, factor: nat): (r: nat)
    requires factor > 0
    ensures value <= r < value + factor && r % factor == 0
  {
    var q := (value + (factor - 1)) / factor;
    assert q * factor % factor == 0 by { MultipleOf(q, factor); }
    q * factor
  }

  function SetOffset(alignment: nat): (offset: nat)
    requires alignment > 0
    ensures NULL_BYTES + ROW_SIZE_BYTES <= offset && offset % alignment == 0
  {
    RoundUp(NULL_BYTES + ROW_SIZE_BYTES, alignment)
  }

  /** Bytes `[a, a + m)` and `[b, b + n)` have no byte in common. */
  predicate Disjoint(a: int, m: int, b: int, n: int) {
    a + m <= b || b + n <= a
  }

  /** The null byte, the row-size slot and the aligned accumulator of a group at `a`. */
  predicate WellPlaced(a: int, offset: int, size: int, alignment: nat)
    requires alignment > 0
  {
    && Disjoint(a, NULL_BYTES, a + NULL_BYTES, ROW_SIZE_BYTES)
    && Disjoint(a, NULL_BYTES, a + offset, size)
    && Disjoint(a + NULL_BYTES, ROW_SIZE_BYTES, a + offset, size)
    && (a + offset) % alignment == 0
  }

  /** A pool of fixed allocations: blocks are aligned and never overlap. */
  class AllocationPool {
    var used: nat

    constructor ()
      ensures used == 0
    {
      used := 0;
    }

    method AllocateFixed(size: nat, alignment: nat) returns (address: Address)
      requires alignment > 0
      modifies this
      ensures address % alignment == 0 && old(used) <= address && used == address + size
    {
      address := RoundUp(used, alignment);
      used := address + size;
    }
  }

  // ----- selected rows -----

  /** The selected row numbers, in the order they are visited. */
  function Selected(rows: seq<bool>): seq<nat> {
    if rows == [] then []
    else
      var n := |rows| - 1;
      Selected(rows[..n]) + if rows[n] then [n] else []
  }

  /** Each selected row is visited once, in ascending order, and no other row is. */
  lemma {:induction false} SelectedVisits(rows: seq<bool>)
    ensures forall k | 0 <= k < |Selected(rows)| :: Selected(rows)[k] < |rows| && rows[Selected(rows)[k]]
    ensures forall j, k | 0 <= j < k < |Selected(rows)| :: Selected(rows)[j] < Selected(rows)[k]
    ensures forall r | 0 <= r < |rows| && rows[r] :: r in Selected(rows)
  {
    if rows != [] {
      var n := |rows| - 1;
      SelectedVisits(rows[..n]);
      var front := Selected(rows[..n]);
      assert forall r | 0 <= r < n && rows[r] :: rows[..n][r] && r in front;
    }
  }

  /** The place of a row among the selected ones. */
  function Rank(rows: seq<bool>, row: nat): nat
    requires row < |rows|
  {
    |Selected(rows[..row])|
  }

  /** The elements of `s` at the selected rows. */
  function Gather<X>(s: seq<X>, rows: seq<bool>): seq<X>
    requires |s| == |rows|
  {
    if rows == [] then []
    else
      var n := |rows| - 1;
      Gather(s[..n], rows[..n]) + if rows[n] then [s[n]] else []
  }

  /** Gathering keeps, in order, exactly the elements at the selected rows. */
  lemma {:induction false} GatherSelects<X>(s: seq<X>, rows: seq<bool>)
    requires |s| == |rows|
    ensures |Gather(s, rows)| == |Selected(rows)|
    ensures forall k | 0 <= k < |Selected(rows)| :: Selected(rows)[k] < |rows| && Gather(s, rows)[k] == s[Selected(rows)[k]]
  {
    if rows != [] {
      GatherSelects(s[..|rows| - 1], rows[..|rows| - 1]);
    }
  }

  /** Ranks send the selected rows one-to-one onto the places, in order. */
  lemma {:induction false} RankInverts(rows: seq<bool>, row: nat)
    requires row < |rows| && rows[row]
    ensures Rank(rows, row) < |Selected(rows)| && Selected(rows)[Rank(rows, row)] == row
    decreases |rows|
  {
    var n := |rows| - 1;
    if row < n {
      RankInverts(rows[..n], row);
      assert rows[..n][..row] == rows[..row];
    }
  }

  /** Moves the groups of the selected rows to the front, in place and in order, and gives every selected row
      the place its group went to. */
  method CompactGroups(rows: seq<bool>, groups: array<Address>) returns (count: nat, indices: array<nat>)
    requires groups.Length == |rows|
    modifies groups
    ensures count == |Selected(rows)| <= |rows| && groups[..count] == Gather(old(groups[..]), rows)
    ensures groups[count..] == old(groups[..])[count..]
    ensures fresh(indices) && indices.Length == |rows|
    ensures forall r | 0 <= r < |rows| && rows[r] :: indices[r] == Rank(rows, r)
  {
    ghost var was := groups[..];
    indices := new nat[|rows|];
    count := 0;
    for row := 0 to |rows|
      invariant count == |Selected(rows[..row])| <= row
      invariant groups[..count] == Gather(was[..row], rows[..row])
      invariant groups[count..] == was[count..]
      invariant forall r | 0 <= r < row && rows[r] :: indices[r] == Rank(rows, r)
    {
      assert rows[..row + 1][..row] == rows[..row] && was[..row + 1][..row] == was[..row];
      assert groups[row] == groups[count..][row - count] == was[row];
      if rows[row] {
        if count < row {
          groups[count] := groups[row];
        }
        indices[row] := count;
        count := count + 1;
        assert groups[..count] == groups[..count - 1] + [was[row]];
      }
    }
    assert rows[..|rows|] == rows && was[..|rows|] == was;
  }

  // ----- apply -----

  /** Every selected row has a well-placed group, and the groups of different rows do not overlap. */
  ghost predicate Separate(rows: seq<bool>, groups: seq<Address>, offset: nat, size: nat, alignment: nat)
    requires |groups| == |rows| && alignment > 0
  {
    && (forall r | 0 <= r < |rows| && rows[r] :: WellPlaced(groups[r], offset, size, alignment))
    && (forall q, r | 0 <= q < r < |rows| && rows[q] && rows[r] :: groups[q] + offset + size <= groups[r])
  }

  method AllocateGroups(pool: AllocationPool, rows: seq<bool>, size: nat, alignment: nat, offset: nat)
    returns (groups: array<Address>)
    requires alignment > 0 && NULL_BYTES + ROW_SIZE_BYTES <= offset && offset % alignment == 0
    modifies pool
    ensures fresh(groups) && groups.Length == |rows|
    ensures Separate(rows, groups[..], offset, size, alignment)
  {
    groups := new Address[|rows|];
    for row := 0 to |rows|
      invariant forall r | 0 <= r < row && rows[r] :: WellPlaced(groups[r], offset, size, alignment)
      invariant forall r | 0 <= r < row && rows[r] :: groups[r] + offset + size <= pool.used
      invariant forall q, r | 0 <= q < r < row && rows[q] && rows[r] :: groups[q] + offset + size <= groups[r]
    {
      if rows[row] {
        var address := pool.AllocateFixed(size + offset, alignment);
        AlignedSum(address, offset, alignment);
        groups[row] := address;
      }
    }
  }

  /** What the aggregate makes of one intermediate result. */
  function OneRow<A, V, R>(fn: Aggregate<A, V, R>, v: V): A {
    fn.addIntermediate(fn.initial, v)
  }

  predicate DistinctGroups(rows: seq<bool>, groups: seq<Address>)
    requires |groups| == |rows|
  {
    forall q, r | 0 <= q < r < |rows| && rows[q] && rows[r] :: groups[q] != groups[r]
  }

  /** initializeNewGroups on all selected rows, then addIntermediateResults row by row. */
  method AggregateRows<A, V, R>(fn: Aggregate<A, V, R>, rows: seq<bool>, args: seq<V>, groups: seq<Address>)
    returns (accumulators: map<Address, A>)
    requires |args| == |groups| == |rows| && DistinctGroups(rows, groups)
    ensures forall r | 0 <= r < |rows| && rows[r] ::
              groups[r] in accumulators && accumulators[groups[r]] == OneRow(fn, args[r])
  {
    accumulators := map[];
    for row := 0 to |rows|
      invariant forall r | 0 <= r < row && rows[r] ::
                  groups[r] in accumulators && accumulators[groups[r]] == fn.initial
    {
      if rows[row] {
        accumulators := accumulators[groups[row] := fn.initial];
      }
    }
    for row := 0 to |rows|
      invariant forall r | row <= r < |rows| && rows[r] ::
                  groups[r] in accumulators && accumulators[groups[r]] == fn.initial
      invariant forall r | 0 <= r < row && rows[r] ::
                  groups[r] in accumulators && accumulators[groups[r]] == OneRow(fn, args[r])
    {
      if rows[row] {
        accumulators := accumulators[groups[row] := fn.addIntermediate(accumulators[groups[row]], args[row])];
      }
    }
  }

  lemma GatherAtRank<X>(s: seq<X>, rows: seq<bool>, row: nat)
    requires |s| == |rows| && row < |rows| && rows[row]
    ensures Rank(rows, row) < |Gather(s, rows)| && Gather(s, rows)[Rank(rows, row)] == s[row]
  {
    GatherSelects(s, rows);
    RankInverts(rows, row);
  }

  /** The compacted groups are distinct and all come from selected rows. */
  lemma GatheredGroups(rows: seq<bool>, groups: seq<Address>, live: set<Address>)
    requires |groups| == |rows| && DistinctGroups(rows, groups)
    requires forall r | 0 <= r < |rows| && rows[r] :: groups[r] in live
    ensures forall j, k | 0 <= j < k < |Gather(groups, rows)| :: Gather(groups, rows)[j] != Gather(groups, rows)[k]
    ensures forall k | 0 <= k < |Gather(groups, rows)| :: Gather(groups, rows)[k] in live
  {
    SelectedVisits(rows);
    GatherSelects(groups, rows);
  }

  method ExtractValues<A, V, R>(fn: Aggregate<A, V, R>, groups: seq<Address>, accumulators: map<Address, A>)
    returns (values: seq<R>)
    requires forall k | 0 <= k < |groups| :: groups[k] in accumulators
    ensures |values| == |groups|
    ensures forall k | 0 <= k < |groups| :: values[k] == fn.extract(accumulators[groups[k]])
  {
    values := [];
    for k := 0 to |groups|
      invariant |values| == k
      invariant forall j | 0 <= j < k :: values[j] == fn.extract(accumulators[groups[j]])
    {
      values := values + [fn.extract(accumulators[groups[k]])];
    }
  }

  /** wrapInDictionary over `indices`, then moveOrCopyResult on the selected rows. */
  method CopySelected<R>(rows: seq<bool>, indices: seq<nat>, values: seq<R>, result: array<R>)
    requires |indices| == result.Length == |rows|
    requires forall r | 0 <= r < |rows| && rows[r] :: indices[r] < |values|
    modifies result
    ensures forall r | 0 <= r < |rows| :: result[r] == if rows[r] then values[indices[r]] else old(result[r])
  {
    for row := 0 to |rows|
      invariant forall r | 0 <= r < row :: result[r] == if rows[r] then values[indices[r]] else old(result[r])
      invariant forall r | row <= r < |rows| :: result[r] == old(result[r])
    {
      if rows[row] {
        result[row] := values[indices[row]];
      }
    }
  }

  /** Each selected row gets the extraction of its own accumulator, the other rows keep what they held,
      and the selected rows' groups are each destroyed once when accumulators own external memory. */
  method Apply<A, V, R>(fn: Aggregate<A, V, R>, rows: seq<bool>, args: seq<V>, result: array<R>)
    returns (destroyed: seq<Address>, ghost groupOf: seq<Address>)
    requires fn.alignment > 0 && |args| == result.Length == |rows|
    modifies result
    ensures forall r | 0 <= r < |rows| ::
              result[r] == if rows[r] then fn.extract(OneRow(fn, args[r])) else old(result[r])
    ensures |groupOf| == |rows| && Separate(rows, groupOf, SetOffset(fn.alignment), fn.fixedWidthSize, fn.alignment)
    ensures destroyed == if fn.usesExternalMemory then Gather(groupOf, rows) else []
    ensures forall j, k | 0 <= j < k < |destroyed| :: destroyed[j] != destroyed[k]
  {
    var pool := new AllocationPool();
    var offset := SetOffset(fn.alignment);
    var groups := AllocateGroups(pool, rows, fn.fixedWidthSize, fn.alignment, offset);
    groupOf := groups[..];
    var accumulators := AggregateRows(fn, rows, args, groups[..]);
    var count, indices := CompactGroups(rows, groups);
    GatheredGroups(rows, groupOf, accumulators.Keys);
    var live := groups[..count];
    var extracted := ExtractValues(fn, live, accumulators);
    forall r | 0 <= r < |rows| && rows[r]
      ensures indices[r] < |extracted| && extracted[indices[r]] == fn.extract(OneRow(fn, args[r]))
    {
      GatherAtRank(groupOf, rows, r);
    }
    CopySelected(rows, indices[..], extracted, result);
    destroyed := if fn.usesExternalMemory then live else [];
  }
}
