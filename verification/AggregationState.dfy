/** Null bits, accumulators and pushdown hooks of an aggregate over group rows
    (bolt/exec/Aggregate.h:362-394, bolt/exec/AggregationHook.h). */
module AggregationState {
  import opened Types

  /** The address of a group row. */
  type Address = int

  /** A group row: the flag bytes and the accumulators of all aggregates of the operator. */
  datatype GroupRow<T> = GroupRow(flagBytes: seq<bv8>, accumulators: seq<T>)

  /** What one aggregate sees of a row. */
  datatype Cell<T> = Cell(isNull: bool, value: T)

  // ----- flag bytes -----

  predicate Has(flags: bv8, mask: bv8) {
    flags & mask != 0
  }

  function With(flags: bv8, mask: bv8): (r: bv8)
    requires mask != 0
    ensures Has(r, mask)
  {
    flags | mask
  }

  function Without(flags: bv8, mask: bv8): (r: bv8)
    ensures !Has(r, mask)
  {
    flags & !mask
  }

  lemma ClearedBit(flags: bv8, mask: bv8)
    requires mask != 0
    ensures Without(With(flags, mask), mask) == Without(flags, mask) == Without(Without(flags, mask), mask)
  {
  }

  lemma Grow<X>(s: set<X>, x: X)
    requires x !in s
    ensures |s + {x}| == |s| + 1 && |(s + {x}) - {x}| == |s|
  {
    assert (s + {x}) - {x} == s;
  }

  // ----- what the hooks compute, on values -----

  /** A pushdown hook: SumHook and SimpleCallableHook combine, MinMaxHook keeps the better value. */
  datatype Hook<!T> =
    | Combine(update: (T, T) -> Option<T>)
    | Extremum(compare: (T, T) -> int, isMin: bool)

  function Flag(isMin: bool): int {
    if isMin then 1 else -1
  }

  /** One addValue; `None` when the update reports an error. */
  function Step<T>(h: Hook<T>, c: Cell<T>, v: T): Option<Cell<T>> {
    match h
    case Combine(update) =>
      var r := update(c.value, v);
      if r.None? then None else Some(Cell(false, r.value))
    case Extremum(compare, isMin) =>
      Some(Cell(false, if c.isNull || compare(c.value, v) == Flag(isMin) then v else c.value))
  }

  /** The cell after adding `vs` in order; `None` once a step fails. */
  function Fold<T>(h: Hook<T>, c: Cell<T>, vs: seq<T>): Option<Cell<T>> {
    if vs == [] then Some(c)
    else
      var n := |vs| - 1;
      var d := Fold(h, c, vs[..n]);
      if d.None? then None else Step(h, d.value, vs[n])
  }

  /** What addValues is given: row `rows[i]` of `groups` gets `values[i]`. */
  datatype Batch<T> = Batch(groups: seq<Address>, rows: seq<nat>, values: seq<T>)

  predicate WellFormed<T>(b: Batch<T>) {
    |b.rows| == |b.values| && forall i | 0 <= i < |b.rows| :: b.rows[i] < |b.groups|
  }

  /** The group that value `i` goes to. */
  function Target<T>(b: Batch<T>, i: nat): Address
    requires WellFormed(b) && i < |b.values|
  {
    b.groups[b.rows[i]]
  }

  /** The first `n` values that go to group `g`, in order. */
  ghost function Routed<T>(b: Batch<T>, n: nat, g: Address): seq<T>
    requires WellFormed(b) && n <= |b.values|
  {
    if n == 0 then []
    else Routed(b, n - 1, g) + if Target(b, n - 1) == g then [b.values[n - 1]] else []
  }

  /** What the first `n` values leave in the cell of `g` that held `c`, value by value. */
  ghost function Folded<T>(h: Hook<T>, b: Batch<T>, n: nat, g: Address, c: Cell<T>): Option<Cell<T>>
    requires WellFormed(b) && n <= |b.values|
  {
    if n == 0 then Some(c)
    else
      var d := Folded(h, b, n - 1, g, c);
      if Target(b, n - 1) != g || d.None? then d else Step(h, d.value, b.values[n - 1])
  }

  /** That is the fold of exactly the values routed to `g`. */
  lemma {:induction false} FoldedIsFoldOfRouted<T>(h: Hook<T>, b: Batch<T>, n: nat, g: Address, c: Cell<T>)
    requires WellFormed(b) && n <= |b.values|
    ensures Folded(h, b, n, g, c) == Fold(h, c, Routed(b, n, g))
  {
    if n > 0 {
      FoldedIsFoldOfRouted(h, b, n - 1, g, c);
      var before := Routed(b, n - 1, g);
      assert (before + [b.values[n - 1]])[..|before|] == before && before + [] == before;
    }
  }

  lemma {:induction false} FoldedFails<T>(h: Hook<T>, b: Batch<T>, n: nat, m: nat, g: Address, c: Cell<T>)
    requires WellFormed(b) && n <= m <= |b.values| && Folded(h, b, n, g, c).None?
    ensures Folded(h, b, m, g, c).None?
    decreases m
  {
    if n < m { FoldedFails(h, b, n, m - 1, g, c); }
  }

  /** Every group of `start` has come to the fold of what the first `n` values route to it. */
  ghost predicate AllFolded<T>(h: Hook<T>, b: Batch<T>, n: nat, start: map<Address, Cell<T>>, now: map<Address, Cell<T>>)
    requires WellFormed(b) && n <= |b.values|
  {
    start.Keys == now.Keys && forall g <- start :: Folded(h, b, n, g, start[g]) == Some(now[g])
  }

  /** No group's fold fails. */
  ghost predicate AllFold<T>(h: Hook<T>, b: Batch<T>, start: map<Address, Cell<T>>)
    requires WellFormed(b)
  {
    forall g <- start :: Folded(h, b, |b.values|, g, start[g]).Some?
  }

  /** The cells after one addValue; a failed update leaves only the null bit cleared. */
  ghost function Stepped<T>(h: Hook<T>, cells: map<Address, Cell<T>>, g: Address, v: T): map<Address, Cell<T>>
    requires g in cells
  {
    var r := Step(h, cells[g], v);
    cells[g := if r.Some? then r.value else cells[g].(isNull := false)]
  }

  /** One addValue in two writes: the null bit is cleared, then the `next` value, if any, is stored. */
  lemma SteppedTo<T>(h: Hook<T>, cells: map<Address, Cell<T>>, g: Address, v: T, next: Option<T>)
    requires g in cells
    requires h.Combine? ==> next == h.update(cells[g].value, v)
    requires h.Extremum? ==>
               next == Some(if cells[g].isNull || h.compare(cells[g].value, v) == Flag(h.isMin) then v else cells[g].value)
    ensures next.Some? <==> Step(h, cells[g], v).Some?
    ensures var cleared := cells[g := cells[g].(isNull := false)];
            && (next.None? || next.value == cells[g].value ==> cleared == Stepped(h, cells, g, v))
            && (next.Some? ==> cleared[g := cleared[g].(value := next.value)] == Stepped(h, cells, g, v))
  {
  }

  /** `done` values of the batch were added to `start`, which brought it to `reached`. With more values to come, the
      next one failed; that happens exactly when the fold of some group fails. */
  ghost predicate Ran<T>(h: Hook<T>, b: Batch<T>, start: map<Address, Cell<T>>, done: nat,
      reached: map<Address, Cell<T>>, final: map<Address, Cell<T>>)
    requires WellFormed(b)
  {
    && done <= |b.values| && AllFolded(h, b, done, start, reached)
    && (done == |b.values| ==> final == reached)
    && (done < |b.values| ==>
          var g := Target(b, done);
          g in reached && Step(h, reached[g], b.values[done]).None? && final == Stepped(h, reached, g, b.values[done]))
    && (done == |b.values| <==> AllFold(h, b, start))
  }

  lemma AllFoldedStart<T>(h: Hook<T>, b: Batch<T>, start: map<Address, Cell<T>>)
    requires WellFormed(b)
    ensures AllFolded(h, b, 0, start, start)
  {
  }

  lemma AllFoldedNext<T>(h: Hook<T>, b: Batch<T>, n: nat, start: map<Address, Cell<T>>, now: map<Address, Cell<T>>)
    requires WellFormed(b) && n < |b.values| && AllFolded(h, b, n, start, now)
    requires Target(b, n) in now && Step(h, now[Target(b, n)], b.values[n]).Some?
    ensures AllFolded(h, b, n + 1, start, Stepped(h, now, Target(b, n), b.values[n]))
  {
  }

  lemma RanToFailure<T>(h: Hook<T>, b: Batch<T>, n: nat, start: map<Address, Cell<T>>, now: map<Address, Cell<T>>)
    requires WellFormed(b) && n < |b.values| && AllFolded(h, b, n, start, now)
    requires Target(b, n) in now && Step(h, now[Target(b, n)], b.values[n]).None?
    ensures Ran(h, b, start, n, now, Stepped(h, now, Target(b, n), b.values[n]))
  {
    var g := Target(b, n);
    FoldedFails(h, b, n + 1, |b.values|, g, start[g]);
  }

  lemma RanToEnd<T>(h: Hook<T>, b: Batch<T>, start: map<Address, Cell<T>>, now: map<Address, Cell<T>>)
    requires WellFormed(b) && AllFolded(h, b, |b.values|, start, now)
    ensures Ran(h, b, start, |b.values|, now, now)
  {
  }

  // ----- batch after batch -----

  /** Folding on from where a fold has got to. */
  lemma {:induction false} FoldAppend<T>(h: Hook<T>, c: Cell<T>, vs: seq<T>, ws: seq<T>)
    ensures Fold(h, c, vs + ws) == if Fold(h, c, vs).None? then None else Fold(h, Fold(h, c, vs).value, ws)
    decreases |ws|
  {
    if ws == [] {
      assert vs + ws == vs;
    } else {
      var n := |ws| - 1;
      FoldAppend(h, c, vs, ws[..n]);
      assert (vs + ws)[..|vs| + n] == vs + ws[..n];
    }
  }

  /** The values that the first `n` batches route to group `g`, in order. */
  ghost function RoutedBy<T>(bs: seq<Batch<T>>, n: nat, g: Address): seq<T>
    requires n <= |bs| && forall b <- bs :: WellFormed(b)
  {
    if n == 0 then [] else RoutedBy(bs, n - 1, g) + Routed(bs[n - 1], |bs[n - 1].values|, g)
  }

  /** What the first `n` batches leave in the cell of `g` that held `c`, batch by batch. */
  ghost function FoldedBy<T>(h: Hook<T>, bs: seq<Batch<T>>, n: nat, g: Address, c: Cell<T>): Option<Cell<T>>
    requires n <= |bs| && forall b <- bs :: WellFormed(b)
  {
    if n == 0 then Some(c)
    else
      var d := FoldedBy(h, bs, n - 1, g, c);
      if d.None? then None else Folded(h, bs[n - 1], |bs[n - 1].values|, g, d.value)
  }

  /** That is one fold of exactly the values that all of them routed to `g`. */
  lemma {:induction false} BatchesFoldAsOne<T>(h: Hook<T>, bs: seq<Batch<T>>, n: nat, g: Address, c: Cell<T>)
    requires n <= |bs| && forall b <- bs :: WellFormed(b)
    ensures FoldedBy(h, bs, n, g, c) == Fold(h, c, RoutedBy(bs, n, g))
  {
    if n > 0 {
      BatchesFoldAsOne(h, bs, n - 1, g, c);
      var b, d := bs[n - 1], FoldedBy(h, bs, n - 1, g, c);
      FoldAppend(h, c, RoutedBy(bs, n - 1, g), Routed(b, |b.values|, g));
      if d.Some? { FoldedIsFoldOfRouted(h, b, |b.values|, g, d.value); }
    }
  }

  /** Batch `i` was added whole, from cells `i` to the next. */
  ghost predicate RanWhole<T>(h: Hook<T>, bs: seq<Batch<T>>, states: seq<map<Address, Cell<T>>>, i: nat)
    requires i < |bs| && i + 1 < |states| && forall b <- bs :: WellFormed(b)
  {
    Ran(h, bs[i], states[i], |bs[i].values|, states[i + 1], states[i + 1])
  }

  /** The cells between batches that were all added whole. */
  ghost predicate RanBatches<T>(h: Hook<T>, bs: seq<Batch<T>>, states: seq<map<Address, Cell<T>>>) {
    && (forall b <- bs :: WellFormed(b)) && 0 < |states| <= |bs| + 1
    && forall i | 0 <= i < |states| - 1 :: RanWhole(h, bs, states, i)
  }

  /** After any number of batches each group holds what they leave of its first cell. */
  lemma {:induction false} BatchesFold<T>(h: Hook<T>, bs: seq<Batch<T>>, states: seq<map<Address, Cell<T>>>, n: nat)
    requires RanBatches(h, bs, states) && n < |states|
    ensures states[n].Keys == states[0].Keys
    ensures forall g <- states[0] :: FoldedBy(h, bs, n, g, states[0][g]) == Some(states[n][g])
    decreases n
  {
    if n > 0 {
      BatchesFold(h, bs, states, n - 1);
      assert RanWhole(h, bs, states, n - 1);
    }
  }

  /** The next batch can be added whole exactly when no group's fold over all batches up to it fails. */
  lemma NextBatchWholeIff<T>(h: Hook<T>, bs: seq<Batch<T>>, states: seq<map<Address, Cell<T>>>)
    requires RanBatches(h, bs, states) && |states| <= |bs|
    ensures AllFold(h, bs[|states| - 1], states[|states| - 1]) <==>
            forall g <- states[0] :: FoldedBy(h, bs, |states|, g, states[0][g]).Some?
  {
    BatchesFold(h, bs, states, |states| - 1);
  }

  /** A group stays null exactly when it was null and nothing was routed to it. */
  lemma {:induction false} NullIffUntouched<T>(h: Hook<T>, c: Cell<T>, vs: seq<T>)
    requires Fold(h, c, vs).Some?
    ensures Fold(h, c, vs).value.isNull <==> c.isNull && vs == []
  {
  }

  // ----- checked sums -----

  const INT64_MIN := -0x8000_0000_0000_0000
  const INT64_MAX := 0x7fff_ffff_ffff_ffff

  function CheckedPlus(a: int, b: int): Option<int> {
    if INT64_MIN <= a + b <= INT64_MAX then Some(a + b) else None
  }

  function SumHook(): Hook<int> {
    Combine(CheckedPlus)
  }

  function Total(vs: seq<int>): int {
    if vs == [] then 0 else Total(vs[..|vs| - 1]) + vs[|vs| - 1]
  }

  predicate TotalFits(start: int, vs: seq<int>) {
    INT64_MIN <= start + Total(vs) <= INT64_MAX
  }

  /** Every running sum from `start` stays in int64. */
  ghost predicate SumsFit(start: int, vs: seq<int>) {
    forall k | 0 < k <= |vs| :: TotalFits(start, vs[..k])
  }

  lemma SumsFitLast(start: int, vs: seq<int>)
    requires vs != []
    ensures SumsFit(start, vs) <==> SumsFit(start, vs[..|vs| - 1]) && TotalFits(start, vs)
  {
    var n := |vs| - 1;
    if SumsFit(start, vs) {
      assert vs[..n + 1] == vs;
      forall k | 0 < k <= n
        ensures TotalFits(start, vs[..n][..k])
      {
        assert vs[..n][..k] == vs[..k];
      }
    }
    if SumsFit(start, vs[..n]) && TotalFits(start, vs) {
      forall k | 0 < k <= |vs|
        ensures TotalFits(start, vs[..k])
      {
        if k == |vs| { assert vs[..k] == vs; } else { assert vs[..n][..k] == vs[..k]; }
      }
    }
  }

  /** The hook ends at the exact sum, and fails exactly when some running sum leaves int64. */
  lemma {:induction false} SumHookSums(c: Cell<int>, vs: seq<int>)
    ensures Fold(SumHook(), c, vs).Some? <==> SumsFit(c.value, vs)
    ensures Fold(SumHook(), c, vs).Some? ==> Fold(SumHook(), c, vs).value.value == c.value + Total(vs)
  {
    if vs != [] {
      SumHookSums(c, vs[..|vs| - 1]);
      SumsFitLast(c.value, vs);
    }
  }

  // ----- minimum and maximum -----

  /** A three-way comparison whose "not greater" is a total preorder. */
  ghost predicate Orders<T(!new)>(compare: (T, T) -> int) {
    && (forall x, y :: -1 <= compare(x, y) == -compare(y, x) <= 1)
    && (forall x, y, z :: compare(x, y) <= 0 && compare(y, z) <= 0 ==> compare(x, z) <= 0)
  }

  /** The values competing for a cell: what it held, unless null, then what was added. */
  function Candidates<T>(c: Cell<T>, vs: seq<T>): seq<T> {
    (if c.isNull then [] else [c.value]) + vs
  }

  /** `x` is no worse than `y`: not above it for a minimum, not below it for a maximum. */
  predicate AtLeastAsGood<T>(compare: (T, T) -> int, isMin: bool, x: T, y: T) {
    if isMin then compare(x, y) <= 0 else compare(x, y) >= 0
  }

  /** `k` is the first of the best candidates. */
  ghost predicate FirstBest<T>(compare: (T, T) -> int, isMin: bool, s: seq<T>, k: nat) {
    && k < |s|
    && (forall j | 0 <= j < |s| :: AtLeastAsGood(compare, isMin, s[k], s[j]))
    && (forall j | 0 <= j < k :: !AtLeastAsGood(compare, isMin, s[j], s[k]))
  }

  /** A later value replaces the one held exactly when the one held is worse. */
  lemma ReplacedIffWorse<T(!new)>(compare: (T, T) -> int, isMin: bool, held: T, v: T)
    requires Orders(compare)
    ensures compare(held, v) == Flag(isMin) <==> !AtLeastAsGood(compare, isMin, held, v)
    ensures AtLeastAsGood(compare, isMin, held, v) || AtLeastAsGood(compare, isMin, v, held)
  {
    assert -1 <= compare(held, v) == -compare(v, held) <= 1;
  }

  lemma AtLeastAsGoodTransitive<T(!new)>(compare: (T, T) -> int, isMin: bool, x: T, y: T, z: T)
    requires Orders(compare) && AtLeastAsGood(compare, isMin, x, y) && AtLeastAsGood(compare, isMin, y, z)
    ensures AtLeastAsGood(compare, isMin, x, z)
  {
    assert compare(x, y) == -compare(y, x) && compare(y, z) == -compare(z, y) && compare(x, z) == -compare(z, x);
  }

  lemma FirstBestNext<T(!new)>(compare: (T, T) -> int, isMin: bool, s: seq<T>, k: nat, v: T)
    requires Orders(compare) && FirstBest(compare, isMin, s, k)
    ensures FirstBest(compare, isMin, s + [v], if compare(s[k], v) == Flag(isMin) then |s| else k)
  {
    ReplacedIffWorse(compare, isMin, s[k], v);
    if compare(s[k], v) == Flag(isMin) {
      ReplacedIffWorse(compare, isMin, v, v);
      forall j | 0 <= j < |s|
        ensures AtLeastAsGood(compare, isMin, v, s[j]) && !AtLeastAsGood(compare, isMin, s[j], v)
      {
        AtLeastAsGoodTransitive(compare, isMin, v, s[k], s[j]);
        if AtLeastAsGood(compare, isMin, s[j], v) { AtLeastAsGoodTransitive(compare, isMin, s[k], s[j], v); }
      }
    }
  }

  /** The place of the candidate that the hook ends with. */
  function Winner<T>(compare: (T, T) -> int, isMin: bool, s: seq<T>): (k: nat)
    requires s != []
    ensures k < |s|
  {
    var n := |s| - 1;
    if n == 0 then 0
    else
      var k := Winner(compare, isMin, s[..n]);
      if compare(s[k], s[n]) == Flag(isMin) then n else k
  }

  lemma {:induction false} WinnerIsFirstBest<T(!new)>(compare: (T, T) -> int, isMin: bool, s: seq<T>)
    requires Orders(compare) && s != []
    ensures FirstBest(compare, isMin, s, Winner(compare, isMin, s))
  {
    var n := |s| - 1;
    if n == 0 {
      ReplacedIffWorse(compare, isMin, s[0], s[0]);
    } else {
      WinnerIsFirstBest(compare, isMin, s[..n]);
      FirstBestNext(compare, isMin, s[..n], Winner(compare, isMin, s[..n]), s[n]);
      assert s == s[..n] + [s[n]];
    }
  }

  lemma {:induction false} HookEndsWithWinner<T>(compare: (T, T) -> int, isMin: bool, c: Cell<T>, vs: seq<T>)
    requires !c.isNull || vs != []
    ensures Fold(Extremum(compare, isMin), c, vs) ==
            Some(Cell(c.isNull && vs == [], Candidates(c, vs)[Winner(compare, isMin, Candidates(c, vs))]))
  {
    var all := Candidates(c, vs);
    if |all| > 1 {
      var n := |vs| - 1;
      HookEndsWithWinner(compare, isMin, c, vs[..n]);
      assert all[..|all| - 1] == Candidates(c, vs[..n]);
    }
  }

  /** Under any total preorder the hook keeps the first of the best values. */
  lemma ExtremumKeepsFirstBest<T(!new)>(compare: (T, T) -> int, isMin: bool, c: Cell<T>, vs: seq<T>) returns (k: nat)
    requires Orders(compare) && (!c.isNull || vs != [])
    ensures FirstBest(compare, isMin, Candidates(c, vs), k)
    ensures Fold(Extremum(compare, isMin), c, vs) == Some(Cell(c.isNull && vs == [], Candidates(c, vs)[k]))
  {
    k := Winner(compare, isMin, Candidates(c, vs));
    WinnerIsFirstBest(compare, isMin, Candidates(c, vs));
    HookEndsWithWinner(compare, isMin, c, vs);
  }

  /** Integers and floating-point numbers: NaNs of any payload, infinities, zeros of either sign. */
  datatype Primitive = NaN(payload: nat) | NegativeInfinity | Num(value: real) | NegativeZero | PositiveInfinity

  /** `<` of IEEE 754: false against NaN, and zeros do not differ. */
  predicate Less(a: Primitive, b: Primitive) {
    && !a.NaN? && !b.NaN?
    && a != b && (a.NegativeInfinity? || b.PositiveInfinity? ||
                  (Finite(a) && Finite(b) && Magnitude(a) < Magnitude(b)))
  }

  predicate Finite(a: Primitive) {
    a.Num? || a.NegativeZero?
  }

  function Magnitude(a: Primitive): real
    requires Finite(a)
  {
    if a.Num? then a.value else 0.0
  }

  /** `==` of IEEE 754. */
  predicate Same(a: Primitive, b: Primitive) {
    !a.NaN? && (a == b || (Finite(a) && Finite(b) && Magnitude(a) == Magnitude(b)))
  }

  function ComparePrimitiveAsc(a: Primitive, b: Primitive): int {
    if a.NaN? then (if b.NaN? then 0 else 1)
    else if b.NaN? then -1
    else if Less(a, b) then -1
    else if Same(a, b) then 0
    else 1
  }

  lemma ComparePrimitiveOrders()
    ensures Orders(ComparePrimitiveAsc)
  {
  }

  function MinMaxHook(isMin: bool): Hook<Primitive> {
    Extremum(ComparePrimitiveAsc, isMin)
  }

  /** The hook keeps the first of the best values, NaN counting as the largest. */
  lemma MinMaxHookKeepsFirstBest(isMin: bool, c: Cell<Primitive>, vs: seq<Primitive>) returns (k: nat)
    requires !c.isNull || vs != []
    ensures FirstBest(ComparePrimitiveAsc, isMin, Candidates(c, vs), k)
    ensures Fold(MinMaxHook(isMin), c, vs) == Some(Cell(c.isNull && vs == [], Candidates(c, vs)[k]))
  {
    ComparePrimitiveOrders();
    k := ExtremumKeepsFirstBest(ComparePrimitiveAsc, isMin, c, vs);
  }

  /** No candidate is below the minimum, which is NaN only if all of them are. */
  lemma MinimumIsLeast(c: Cell<Primitive>, vs: seq<Primitive>) returns (x: Primitive)
    requires !c.isNull || vs != []
    ensures Fold(MinMaxHook(true), c, vs) == Some(Cell(c.isNull && vs == [], x)) && x in Candidates(c, vs)
    ensures x.NaN? <==> forall y <- Candidates(c, vs) :: y.NaN?
    ensures forall y <- Candidates(c, vs) :: !Less(y, x)
    ensures x.Num? ==> forall y <- Candidates(c, vs) :: y.Num? ==> x.value <= y.value
    ensures NegativeInfinity in Candidates(c, vs) ==> x.NegativeInfinity?
  {
    var k := MinMaxHookKeepsFirstBest(true, c, vs);
    x := Candidates(c, vs)[k];
    forall y | y in Candidates(c, vs)
      ensures ComparePrimitiveAsc(x, y) <= 0
    {
      var j :| 0 <= j < |Candidates(c, vs)| && Candidates(c, vs)[j] == y;
      assert AtLeastAsGood(ComparePrimitiveAsc, true, x, Candidates(c, vs)[j]);
    }
  }

  /** No candidate is above the maximum, which is NaN as soon as one of them is. */
  lemma MaximumIsGreatest(c: Cell<Primitive>, vs: seq<Primitive>) returns (x: Primitive)
    requires !c.isNull || vs != []
    ensures Fold(MinMaxHook(false), c, vs) == Some(Cell(c.isNull && vs == [], x)) && x in Candidates(c, vs)
    ensures x.NaN? <==> exists y <- Candidates(c, vs) :: y.NaN?
    ensures forall y <- Candidates(c, vs) :: !Less(x, y)
    ensures x.Num? ==> forall y <- Candidates(c, vs) :: y.Num? ==> x.value >= y.value
    ensures PositiveInfinity in Candidates(c, vs) ==> x.PositiveInfinity? || x.NaN?
  {
    var k := MinMaxHookKeepsFirstBest(false, c, vs);
    x := Candidates(c, vs)[k];
    forall y | y in Candidates(c, vs)
      ensures ComparePrimitiveAsc(x, y) >= 0
    {
      var j :| 0 <= j < |Candidates(c, vs)| && Candidates(c, vs)[j] == y;
      assert AtLeastAsGood(ComparePrimitiveAsc, false, x, Candidates(c, vs)[j]);
    }
  }

  // ----- sets of rows -----

  function Picked<X>(groups: seq<X>, indices: seq<nat>): (r: seq<X>)
    requires forall k | 0 <= k < |indices| :: indices[k] < |groups|
    ensures |r| == |indices|
    ensures forall k | 0 <= k < |indices| :: r[k] == groups[indices[k]]
  {
    seq(|indices|, k requires 0 <= k < |indices| => groups[indices[k]])
  }

  ghost function Elements<X>(s: seq<X>): set<X> {
    set x | x in s
  }

  /** No listed row is in `nulls` or listed before. */
  ghost predicate NewNulls<X>(nulls: set<X>, listed: seq<X>) {
    forall k | 0 <= k < |listed| :: listed[k] !in nulls && listed[k] !in listed[..k]
  }

  lemma NewNullsLast<X>(nulls: set<X>, listed: seq<X>)
    requires listed != []
    ensures NewNulls(nulls, listed) <==>
            NewNulls(nulls, listed[..|listed| - 1]) && listed[|listed| - 1] !in nulls + Elements(listed[..|listed| - 1])
  {
    var n := |listed| - 1;
    var front := listed[..n];
    assert forall k | 0 <= k < n :: front[k] == listed[k] && front[..k] == listed[..k];
  }

  lemma {:induction false} UnionSize<X>(nulls: set<X>, listed: seq<X>)
    ensures |nulls + Elements(listed)| <= |nulls| + |listed|
    ensures |nulls + Elements(listed)| == |nulls| + |listed| <==> NewNulls(nulls, listed)
    decreases |listed|
  {
    if listed == [] {
      assert nulls + Elements(listed) == nulls;
    } else {
      var n := |listed| - 1;
      var front, g := listed[..n], listed[n];
      UnionSize(nulls, front);
      NewNullsLast(nulls, listed);
      var s := nulls + Elements(front);
      assert nulls + Elements(listed) == s + {g} by { assert listed == front + [g]; }
      if g in s {
        assert s + {g} == s;
      } else {
        Grow(s, g);
      }
    }
  }

  ghost function NullsOf<T>(cells: map<Address, Cell<T>>): set<Address> {
    set r | r in cells && cells[r].isNull
  }

  /** The cells after setting the null bits of the listed rows one by one. */
  ghost function MarkAll<T>(cells: map<Address, Cell<T>>, listed: seq<Address>): (r: map<Address, Cell<T>>)
    requires forall k | 0 <= k < |listed| :: listed[k] in cells
    ensures r.Keys == cells.Keys
  {
    if listed == [] then cells
    else
      var n := |listed| - 1;
      var before := MarkAll(cells, listed[..n]);
      before[listed[n] := before[listed[n]].(isNull := true)]
  }

  /** Marking touches no accumulator, and adds exactly the listed rows to the null ones. */
  lemma {:induction false} MarkAllNulls<T>(cells: map<Address, Cell<T>>, listed: seq<Address>)
    requires forall k | 0 <= k < |listed| :: listed[k] in cells
    ensures forall g <- cells :: MarkAll(cells, listed)[g].value == cells[g].value
    ensures NullsOf(MarkAll(cells, listed)) == NullsOf(cells) + Elements(listed)
  {
    if listed != [] {
      var n := |listed| - 1;
      MarkAllNulls(cells, listed[..n]);
      assert listed == listed[..n] + [listed[n]];
      assert Elements(listed) == Elements(listed[..n]) + {listed[n]};
      assert NullsOf(MarkAll(cells, listed)) == NullsOf(MarkAll(cells, listed[..n])) + {listed[n]};
    } else {
      assert Elements(listed) == {};
    }
  }

  lemma NullCount<T>(cells: map<Address, Cell<T>>, g: Address, c: Cell<T>)
    requires g in cells
    ensures |NullsOf(cells[g := c])| ==
            |NullsOf(cells)| + (if c.isNull then 1 else 0) - (if cells[g].isNull then 1 else 0)
  {
    var before, after := NullsOf(cells), NullsOf(cells[g := c]);
    if c.isNull == cells[g].isNull {
      assert after == before;
    } else if c.isNull {
      assert after == before + {g};
      Grow(before, g);
    } else {
      assert before == after + {g};
      Grow(after, g);
    }
  }

  /** A row listed twice, or one that is null already, is counted once too often. */
  lemma RepeatedRowMiscounts<T>(g: Address, v: T)
    ensures var cells := map[g := Cell(false, v)];
            |NullsOf(MarkAll(cells, [g, g]))| == 1 && |NullsOf(cells)| + |[g, g]| == 2
    ensures var cells := map[g := Cell(true, v)];
            |NullsOf(MarkAll(cells, [g]))| == 1 && |NullsOf(cells)| + |[g]| == 2
  {
    var unmarked, marked := map[g := Cell(false, v)], map[g := Cell(true, v)];
    MarkAllNulls(unmarked, [g, g]);
    MarkAllNulls(marked, [g]);
    assert Elements([g, g]) == {g} && Elements([g]) == {g};
    assert NullsOf(unmarked) == {} && NullsOf(marked) == {g};
  }

  // ----- one aggregate's part of a row -----

  /** Where an aggregate's null bit and accumulator are in every row. */
  datatype Place = Place(nullByte: nat, nullMask: bv8, slot: nat)

  predicate Fits<T>(p: Place, r: GroupRow<T>) {
    p.nullMask != 0 && p.nullByte < |r.flagBytes| && p.slot < |r.accumulators|
  }

  function CellOf<T>(p: Place, r: GroupRow<T>): Cell<T>
    requires Fits(p, r)
  {
    Cell(Has(r.flagBytes[p.nullByte], p.nullMask), r.accumulators[p.slot])
  }

  /** The rest of a row: the flag bytes with the aggregate's bit cleared, and the other accumulators. */
  function Others<T>(p: Place, r: GroupRow<T>): (seq<bv8>, seq<T>)
    requires Fits(p, r)
  {
    (r.flagBytes[p.nullByte := Without(r.flagBytes[p.nullByte], p.nullMask)],
     r.accumulators[..p.slot] + r.accumulators[p.slot + 1..])
  }

  function WithBit<T>(p: Place, r: GroupRow<T>, on: bool): (s: GroupRow<T>)
    requires Fits(p, r)
    ensures Fits(p, s) && CellOf(p, s) == CellOf(p, r).(isNull := on) && Others(p, s) == Others(p, r)
  {
    var flags := r.flagBytes[p.nullByte];
    ClearedBit(flags, p.nullMask);
    var s := r.(flagBytes := r.flagBytes[p.nullByte := if on then With(flags, p.nullMask) else Without(flags, p.nullMask)]);
    assert Others(p, s).0 == Others(p, r).0;
    s
  }

  function WithValue<T>(p: Place, r: GroupRow<T>, v: T): (s: GroupRow<T>)
    requires Fits(p, r)
    ensures Fits(p, s) && CellOf(p, s) == CellOf(p, r).(value := v) && Others(p, s) == Others(p, r)
  {
    var s := r.(accumulators := r.accumulators[p.slot := v]);
    assert Others(p, s).1 == Others(p, r).1;
    s
  }

  ghost predicate AllFit<T>(p: Place, memory: map<Address, GroupRow<T>>) {
    forall g <- memory :: Fits(p, memory[g])
  }

  /** What the aggregate sees of all rows. */
  ghost function CellsOf<T>(p: Place, memory: map<Address, GroupRow<T>>): map<Address, Cell<T>>
    requires AllFit(p, memory)
  {
    map g | g in memory :: CellOf(p, memory[g])
  }

  /** What the rows hold for the other aggregates. */
  ghost function OthersOf<T>(p: Place, memory: map<Address, GroupRow<T>>): map<Address, (seq<bv8>, seq<T>)>
    requires AllFit(p, memory)
  {
    map g | g in memory :: Others(p, memory[g])
  }

  lemma WriteRow<T>(p: Place, memory: map<Address, GroupRow<T>>, g: Address, s: GroupRow<T>)
    requires AllFit(p, memory) && g in memory
    requires Fits(p, s) && Others(p, s) == Others(p, memory[g])
    ensures AllFit(p, memory[g := s])
    ensures CellsOf(p, memory[g := s]) == CellsOf(p, memory)[g := CellOf(p, s)]
    ensures OthersOf(p, memory[g := s]) == OthersOf(p, memory)
  {
  }

  /** An aggregate and the group rows it works on; a row may be reached through several row numbers. */
  class Aggregate<T> {
    const place: Place
    var memory: map<Address, GroupRow<T>>
    var numNulls: nat

    constructor (place: Place, memory: map<Address, GroupRow<T>>)
      requires forall g <- memory :: Fits(place, memory[g]) && !CellOf(place, memory[g]).isNull
      ensures Valid() && this.place == place && this.memory == memory
    {
      this.place, this.memory, numNulls := place, memory, 0;
      new;
      assert forall g <- memory :: !CellsOf(place, memory)[g].isNull;
      assert NullsOf(CellsOf(place, memory)) == {};
    }

    /** The null count is the number of null bits set. */
    ghost predicate Valid()
      reads this
    {
      AllFit(place, memory) && numNulls == |NullsOf(CellsOf(place, memory))|
    }

    ghost function Cells(): map<Address, Cell<T>>
      requires AllFit(place, memory)
      reads this
    {
      CellsOf(place, memory)
    }

    ghost function Surroundings(): map<Address, (seq<bv8>, seq<T>)>
      requires AllFit(place, memory)
      reads this
    {
      OthersOf(place, memory)
    }

    /** isNull with its zero-count shortcut is the null bit. */
    method IsNull(group: Address) returns (isNull: bool)
      requires Valid() && group in memory
      ensures isNull == Cells()[group].isNull
    {
      if numNulls == 0 {
        assert group !in NullsOf(Cells());
      }
      isNull := numNulls != 0 && Has(memory[group].flagBytes[place.nullByte], place.nullMask);
    }

    method SetNull(group: Address) returns (changed: bool)
      requires Valid() && group in memory
      modifies this
      ensures Valid() && changed == !old(Cells()[group].isNull)
      ensures Cells() == old(Cells())[group := old(Cells()[group]).(isNull := true)]
      ensures Surroundings() == old(Surroundings())
    {
      var row := memory[group];
      changed := !Has(row.flagBytes[place.nullByte], place.nullMask);
      if changed {
        var s := WithBit(place, row, true);
        WriteRow(place, memory, group, s);
        NullCount(Cells(), group, CellOf(place, s));
        memory, numNulls := memory[group := s], numNulls + 1;
      }
    }

    /** clearNull, of Aggregate and of AggregationHook alike. */
    method ClearNull(group: Address) returns (changed: bool)
      requires Valid() && group in memory
      modifies this
      ensures Valid() && changed == old(Cells()[group].isNull)
      ensures Cells() == old(Cells())[group := old(Cells()[group]).(isNull := false)]
      ensures Surroundings() == old(Surroundings())
    {
      changed := IsNull(group);
      if changed {
        var s := WithBit(place, memory[group], false);
        WriteRow(place, memory, group, s);
        NullCount(Cells(), group, CellOf(place, s));
        memory, numNulls := memory[group := s], numNulls - 1;
      }
    }

    /** Sets the null bit of one row, leaving the count alone. */
    method MarkRow(group: Address)
      requires AllFit(place, memory) && group in memory
      modifies this`memory
      ensures AllFit(place, memory)
      ensures Cells() == old(Cells())[group := old(Cells()[group]).(isNull := true)]
      ensures Surroundings() == old(Surroundings())
    {
      var s := WithBit(place, memory[group], true);
      WriteRow(place, memory, group, s);
      memory := memory[group := s];
    }

    /** setAllNulls: the count stays right exactly when the listed rows are distinct and none was null. */
    method SetAllNulls(groups: seq<Address>, indices: seq<nat>)
      requires Valid()
      requires forall k | 0 <= k < |indices| :: indices[k] < |groups| && groups[indices[k]] in memory
      modifies this
      ensures AllFit(place, memory) && numNulls == old(numNulls) + |indices|
      ensures Cells() == MarkAll(old(Cells()), Picked(groups, indices))
      ensures Surroundings() == old(Surroundings())
      ensures Valid() <==> NewNulls(old(NullsOf(Cells())), Picked(groups, indices))
    {
      ghost var start, around, listed := Cells(), Surroundings(), Picked(groups, indices);
      for k := 0 to |indices|
        invariant AllFit(place, memory) && numNulls == old(numNulls)
        invariant Cells() == MarkAll(start, listed[..k]) && Surroundings() == around
      {
        var g := groups[indices[k]];
        assert listed[..k + 1][..k] == listed[..k] && listed[k] == g;
        assert g in Cells();
        MarkRow(g);
      }
      assert listed[..|indices|] == listed;
      numNulls := numNulls + |indices|;
      MarkAllNulls(start, listed);
      UnionSize(NullsOf(start), listed);
    }

    /** Writes this aggregate's accumulator of one row and nothing else. */
    method Store(group: Address, v: T)
      requires Valid() && group in memory
      modifies this`memory
      ensures Valid() && Cells() == old(Cells())[group := old(Cells()[group]).(value := v)]
      ensures Surroundings() == old(Surroundings())
    {
      var s := WithValue(place, memory[group], v);
      WriteRow(place, memory, group, s);
      NullCount(Cells(), group, CellOf(place, s));
      memory := memory[group := s];
    }

    /** addValue of a hook on one group. */
    method AddValue(hook: Hook<T>, group: Address, v: T) returns (ok: bool)
      requires Valid() && group in memory
      modifies this
      ensures Valid() && Surroundings() == old(Surroundings()) && memory.Keys == old(memory.Keys)
      ensures ok == Step(hook, old(Cells()[group]), v).Some? && Cells() == Stepped(hook, old(Cells()), group, v)
    {
      ghost var start := Cells();
      var wasNull := ClearNull(group);
      ghost var cleared := Cells();
      assert cleared == start[group := start[group].(isNull := false)];
      assert memory.Keys == cleared.Keys;
      var held := memory[group].accumulators[place.slot];
      assert held == cleared[group].value;
      match hook {
        case Combine(update) =>
          var next := update(held, v);
          SteppedTo(hook, start, group, v, next);
          ok := next.Some?;
          if ok {
            Store(group, next.value);
          }
        case Extremum(compare, isMin) =>
          var better := wasNull || compare(held, v) == Flag(isMin);
          SteppedTo(hook, start, group, v, Some(if better then v else held));
          ok := true;
          if better {
            Store(group, v);
          }
      }
      assert memory.Keys == Cells().Keys;
    }

    /** One turn of addValues, from the cells that `done` values have brought `start` to. */
    method AddNext(hook: Hook<T>, batch: Batch<T>, done: nat, ghost start: map<Address, Cell<T>>) returns (ok: bool)
      requires Valid() && WellFormed(batch) && done < |batch.values| && Target(batch, done) in memory
      requires AllFolded(hook, batch, done, start, Cells())
      modifies this
      ensures Valid() && Surroundings() == old(Surroundings()) && memory.Keys == old(memory.Keys)
      ensures ok ==> AllFolded(hook, batch, done + 1, start, Cells())
      ensures !ok ==> Ran(hook, batch, start, done, old(Cells()), Cells())
    {
      ghost var now := Cells();
      var group := batch.groups[batch.rows[done]];
      assert group in now;
      ok := AddValue(hook, group, batch.values[done]);
      if ok {
        AllFoldedNext(hook, batch, done, start, now);
      } else {
        RanToFailure(hook, batch, done, start, now);
      }
    }

    /** addValues: every group comes to the fold of exactly the values routed to it, in order, as far as the
        updates succeed. */
    method AddValues(hook: Hook<T>, batch: Batch<T>) returns (done: nat, ghost reached: map<Address, Cell<T>>)
      requires Valid() && WellFormed(batch) && forall g <- batch.groups :: g in memory
      modifies this
      ensures Valid() && Surroundings() == old(Surroundings())
      ensures Ran(hook, batch, old(Cells()), done, reached, Cells())
    {
      ghost var start := Cells();
      done := 0;
      AllFoldedStart(hook, batch, start);
      while done < |batch.values|
        invariant done <= |batch.values| && Valid() && memory.Keys == old(memory.Keys)
        invariant AllFolded(hook, batch, done, start, Cells())
        invariant Surroundings() == old(Surroundings())
      {
        reached := Cells();
        assert Target(batch, done) in batch.groups;
        var ok := AddNext(hook, batch, done, start);
        if !ok { return; }
        done := done + 1;
      }
      reached := Cells();
      RanToEnd(hook, batch, start, reached);
    }
  }
}
