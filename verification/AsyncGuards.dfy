/** AsyncThreadCtx and its guards: in-flight preload threads and their bytes, in every interleaving
    (bolt/connectors/Connector.h:410-533). Each locked section is one step. */
module AsyncGuards {
  import opened Types
  import opened Sums

  type GuardId = int

  /** A Guard object: whether its `ctx_` is set, and its `bytes_`. */
  datatype Guard = Guard(engaged: bool, bytes: int)

  type Guards = map<GuardId, Guard>

  /** The counters of the context, the guards in existence, and two ledgers of what went wrong: threads
      counted in for a guard whose construction threw, and the negative totals guards were destroyed with. */
  datatype State = State(
    numIn: int, inPreloadingBytes: int, closed: bool, guards: Guards,
    leaked: nat, overdrawn: int)

  datatype Step =
    | Create(guard: GuardId, hasCtx: bool, isPreloadThread: bool, bytes: int)
    | Move(from: GuardId, to: GuardId)
    | UpdateBytes(guard: GuardId, delta: int)
    | Destroy(guard: GuardId)
    | BeginWait
    | WaitReturns
    | WaitTimesOut

  function Initial(): State {
    State(0, 0, false, map[], 0, 0)
  }

  predicate Enabled(s: State, step: Step) {
    match step
    case Create(g, _, _, _) => g !in s.guards
    case Move(g, h) => g in s.guards && h !in s.guards
    case UpdateBytes(g, _) => g in s.guards
    case Destroy(g) => g in s.guards
    case BeginWait => true
    case WaitReturns => s.closed && s.numIn == 0
    case WaitTimesOut => s.closed
  }

  /** What `out` adds to the byte count. */
  function OutBytes(bytes: int): int {
    if bytes > 0 then -bytes else bytes
  }

  /** The guard `h` constructed from `g`, which is left without its context. */
  function Moved(guards: Guards, g: GuardId, h: GuardId): Guards
    requires g in guards
  {
    guards[h := guards[g]][g := Guard(false, guards[g].bytes)]
  }

  function Next(s: State, step: Step): State
    requires Enabled(s, step)
  {
    match step
    case Create(g, hasCtx, preload, b) =>
      if !hasCtx then s.(guards := s.guards[g := Guard(false, b)])
      else if !preload || s.closed then s.(guards := s.guards[g := Guard(false, 0)])
      else if b < 0 then s.(numIn := s.numIn + 1, leaked := s.leaked + 1)   // BOLT_CHECK_GE throws out of the constructor
      else s.(numIn := s.numIn + 1, inPreloadingBytes := s.inPreloadingBytes + b, guards := s.guards[g := Guard(true, b)])
    case Move(g, h) =>
      s.(guards := Moved(s.guards, g, h))
    case UpdateBytes(g, d) =>
      if !s.guards[g].engaged then s
      else s.(inPreloadingBytes := s.inPreloadingBytes + d, guards := s.guards[g := Guard(true, s.guards[g].bytes + d)])
    case Destroy(g) =>
      var b := s.guards[g].bytes;
      if !s.guards[g].engaged then s.(guards := s.guards - {g})
      else s.(numIn := s.numIn - 1, inPreloadingBytes := s.inPreloadingBytes + OutBytes(-b), guards := s.guards - {g},
              overdrawn := s.overdrawn + if b < 0 then b else 0)
    case BeginWait => s.(closed := true)
    case WaitReturns => s
    case WaitTimesOut => s
  }

  predicate IsRun(s: State, run: seq<Step>)
    decreases run
  {
    run == [] || (Enabled(s, run[0]) && IsRun(Next(s, run[0]), run[1..]))
  }

  function After(s: State, run: seq<Step>): State
    requires IsRun(s, run)
    decreases run
  {
    if run == [] then s else After(Next(s, run[0]), run[1..])
  }

  // ----- the books -----

  ghost function Engaged(guards: Guards): set<GuardId> {
    set g | g in guards && guards[g].engaged
  }

  ghost function BytesIn(guards: Guards): GuardId -> int {
    (g: GuardId) => if g in guards then guards[g].bytes else 0
  }

  /** The bytes of all engaged guards. */
  ghost function EngagedBytes(guards: Guards): int {
    Sum(Engaged(guards), BytesIn(guards))
  }

  /** What the context promises: its counters describe the engaged guards. */
  ghost predicate Balanced(s: State) {
    s.numIn == |Engaged(s.guards)| && s.inPreloadingBytes == EngagedBytes(s.guards)
  }

  /** What always holds: the counters are off by exactly the two ledgers. */
  ghost predicate Accounted(s: State) {
    && s.numIn == |Engaged(s.guards)| + s.leaked
    && s.inPreloadingBytes == EngagedBytes(s.guards) + 2 * s.overdrawn
    && s.overdrawn <= 0
  }

  lemma EngagedInsert(guards: Guards, g: GuardId, x: Guard)
    requires g !in guards
    ensures Engaged(guards[g := x]) == Engaged(guards) + if x.engaged then {g} else {}
    ensures g !in Engaged(guards)
  {
  }

  /** A new guard counts exactly if it is engaged. */
  lemma InsertGuard(guards: Guards, g: GuardId, x: Guard)
    requires g !in guards
    ensures |Engaged(guards[g := x])| == |Engaged(guards)| + if x.engaged then 1 else 0
    ensures EngagedBytes(guards[g := x]) == EngagedBytes(guards) + if x.engaged then x.bytes else 0
  {
    var before, bytes := Engaged(guards), BytesIn(guards[g := x]);
    EngagedInsert(guards, g, x);
    SumCongruent(before, BytesIn(guards), bytes);
    if x.engaged {
      SumInsert(before, bytes, g);
    } else {
      assert before + {} == before;
    }
  }

  /** The guards without `g`, to which `g` is then added back. */
  lemma RemoveGuard(guards: Guards, g: GuardId)
    requires g in guards
    ensures |Engaged(guards)| == |Engaged(guards - {g})| + if guards[g].engaged then 1 else 0
    ensures EngagedBytes(guards) == EngagedBytes(guards - {g}) + if guards[g].engaged then guards[g].bytes else 0
  {
    InsertGuard(guards - {g}, g, guards[g]);
    assert (guards - {g})[g := guards[g]] == guards;
  }

  lemma MovedIsReinserted(guards: Guards, g: GuardId, h: GuardId)
    requires g in guards && h !in guards
    ensures Moved(guards, g, h) == (guards - {g})[h := guards[g]][g := Guard(false, guards[g].bytes)]
  {
  }

  /** Moving a guard changes neither the number of engaged guards nor their bytes. */
  lemma MoveGuard(guards: Guards, g: GuardId, h: GuardId)
    requires g in guards && h !in guards
    ensures |Engaged(Moved(guards, g, h))| == |Engaged(guards)| && EngagedBytes(Moved(guards, g, h)) == EngagedBytes(guards)
  {
    var rest: Guards := guards - {g};
    MovedIsReinserted(guards, g, h);
    RemoveGuard(guards, g);
    InsertGuard(rest, h, guards[g]);
    InsertGuard(rest[h := guards[g]], g, Guard(false, guards[g].bytes));
  }

  lemma ReplacedRest(guards: Guards, g: GuardId, x: Guard)
    ensures guards[g := x] - {g} == guards - {g}
  {
  }

  /** Adding bytes to an engaged guard adds them to the total. */
  lemma GrowGuard(guards: Guards, g: GuardId, d: int)
    requires g in guards && guards[g].engaged
    ensures var guards' := guards[g := Guard(true, guards[g].bytes + d)];
            |Engaged(guards')| == |Engaged(guards)| && EngagedBytes(guards') == EngagedBytes(guards) + d
  {
    var x := Guard(true, guards[g].bytes + d);
    ReplacedRest(guards, g, x);
    RemoveGuard(guards, g);
    RemoveGuard(guards[g := x], g);
  }

  lemma StepKeepsAccounts(s: State, step: Step)
    requires Accounted(s) && Enabled(s, step)
    ensures Accounted(Next(s, step))
  {
    match step
    case Create(g, _, _, _) =>
      var guards' := Next(s, step).guards;
      if g in guards' { InsertGuard(s.guards, g, guards'[g]); }
    case Move(g, h) => MoveGuard(s.guards, g, h);
    case UpdateBytes(g, d) => if s.guards[g].engaged { GrowGuard(s.guards, g, d); }
    case Destroy(g) => RemoveGuard(s.guards, g);
    case _ =>
  }

  lemma {:induction false} RunKeepsAccounts(s: State, run: seq<Step>)
    requires Accounted(s) && IsRun(s, run)
    ensures Accounted(After(s, run))
    decreases run
  {
    if run != [] {
      StepKeepsAccounts(s, run[0]);
      RunKeepsAccounts(Next(s, run[0]), run[1..]);
    }
  }

  /** The step neither counts a thread in with a negative size nor destroys a guard with a negative total. */
  predicate CleanStep(s: State, step: Step)
    requires Enabled(s, step)
  {
    match step
    case Create(_, hasCtx, preload, b) => hasCtx && preload && !s.closed ==> b >= 0
    case Destroy(g) => s.guards[g].engaged ==> s.guards[g].bytes >= 0
    case _ => true
  }

  predicate Clean(s: State, run: seq<Step>)
    requires IsRun(s, run)
    decreases run
  {
    run != [] ==> CleanStep(s, run[0]) && Clean(Next(s, run[0]), run[1..])
  }

  lemma {:induction false} LedgersGrowUnlessClean(s: State, run: seq<Step>)
    requires IsRun(s, run) && s.overdrawn <= 0
    ensures var s' := After(s, run);
            && s.leaked <= s'.leaked && s'.overdrawn <= s.overdrawn
            && (Clean(s, run) <==> s'.leaked == s.leaked && s'.overdrawn == s.overdrawn)
    decreases run
  {
    if run != [] {
      LedgersGrowUnlessClean(Next(s, run[0]), run[1..]);
    }
  }

  /** At the end of a run the counters describe the engaged guards exactly when every counted-in size and
      every destroyed total was non-negative. */
  lemma BalancedIffClean(run: seq<Step>)
    requires IsRun(Initial(), run)
    ensures Balanced(After(Initial(), run)) <==> Clean(Initial(), run)
  {
    var s := Initial();
    assert Engaged(s.guards) == {};
    RunKeepsAccounts(s, run);
    LedgersGrowUnlessClean(s, run);
  }

  // ----- after wait -----

  /** A step in a closed context engages no guard, and counts no thread in. */
  lemma ClosedStep(s: State, step: Step)
    requires s.closed && Enabled(s, step)
    ensures var s' := Next(s, step);
            && s'.closed && s'.leaked == s.leaked && s'.numIn <= s.numIn
            && |Engaged(s'.guards)| <= |Engaged(s.guards)|
            && s.numIn - s'.numIn == |Engaged(s.guards)| - |Engaged(s'.guards)|
  {
    match step
    case Create(g, _, _, _) =>
      var guards' := Next(s, step).guards;
      InsertGuard(s.guards, g, guards'[g]);
    case Move(g, h) => MoveGuard(s.guards, g, h);
    case UpdateBytes(g, d) => if s.guards[g].engaged { GrowGuard(s.guards, g, d); }
    case Destroy(g) => RemoveGuard(s.guards, g);
    case _ =>
  }

  /** Once closed, no guard engages again, whatever is still in: threads only leave, and each that leaves is an
      engaged guard going. */
  lemma {:induction false} ClosedForGood(s: State, run: seq<Step>)
    requires s.closed && IsRun(s, run)
    ensures var s' := After(s, run);
            && s'.closed && s'.leaked == s.leaked && s'.numIn <= s.numIn
            && |Engaged(s'.guards)| <= |Engaged(s.guards)|
            && s.numIn - s'.numIn == |Engaged(s.guards)| - |Engaged(s'.guards)|
    decreases run
  {
    if run != [] {
      ClosedStep(s, run[0]);
      ClosedForGood(Next(s, run[0]), run[1..]);
    }
  }

  lemma EmptyStep(s: State, step: Step)
    requires Accounted(s) && s.closed && s.numIn == 0 && Enabled(s, step)
    ensures var s' := Next(s, step);
            s'.numIn == 0 && s'.inPreloadingBytes == s.inPreloadingBytes
  {
    assert Engaged(s.guards) == {};
    if step.Destroy? || step.UpdateBytes? { assert step.guard !in Engaged(s.guards); }
  }

  /** Closed with no thread in, the context stays empty. */
  lemma {:induction false} EmptyForGood(s: State, run: seq<Step>)
    requires Accounted(s) && s.closed && s.numIn == 0 && IsRun(s, run)
    ensures var s' := After(s, run);
            && s'.closed && s'.numIn == 0 && s'.inPreloadingBytes == s.inPreloadingBytes
            && forall g <- s'.guards :: !s'.guards[g].engaged
    decreases run
  {
    if run == [] {
      assert forall g <- s.guards :: g !in Engaged(s.guards);
    } else {
      StepKeepsAccounts(s, run[0]);
      ClosedStep(s, run[0]);
      EmptyStep(s, run[0]);
      EmptyForGood(Next(s, run[0]), run[1..]);
    }
  }

  /** A wait that returned through its predicate is followed by zero threads forever, and in a clean run by
      zero bytes forever. */
  lemma NothingAfterWait(before: seq<Step>, after: seq<Step>)
    requires IsRun(Initial(), before) && Enabled(After(Initial(), before), WaitReturns)
    requires IsRun(After(Initial(), before), after)
    ensures var s := After(After(Initial(), before), after);
            && s.numIn == 0 && (forall g <- s.guards :: !s.guards[g].engaged)
            && (Clean(Initial(), before) ==> s.inPreloadingBytes == 0)
  {
    var s := After(Initial(), before);
    assert Engaged(map[]) == {};
    RunKeepsAccounts(Initial(), before);
    EmptyForGood(s, after);
    if Clean(Initial(), before) {
      BalancedIffClean(before);
      assert Engaged(s.guards) == {};
    }
  }

  /** A negative size at construction leaves the thread counted in although no guard exists. */
  lemma NegativeCreationLeaks(g: GuardId, b: int)
    requires b < 0
    ensures var run := [Create(g, true, true, b)];
            IsRun(Initial(), run) && After(Initial(), run).numIn == 1 && After(Initial(), run).guards == map[]
  {
    var run := [Create(g, true, true, b)];
    assert run[1..] == [];
  }

  /** A guard destroyed with a negative total takes the bytes off a second time instead of putting them back. */
  lemma NegativeTotalUnbalances(g: GuardId, d: int)
    requires d < 0
    ensures var run := [Create(g, true, true, 0), UpdateBytes(g, d), Destroy(g)];
            && IsRun(Initial(), run) && After(Initial(), run).guards == map[]
            && After(Initial(), run).inPreloadingBytes == 2 * d && !Balanced(After(Initial(), run))
  {
    var run := [Create(g, true, true, 0), UpdateBytes(g, d), Destroy(g)];
    var s1 := Next(Initial(), run[0]);
    var s2 := Next(s1, run[1]);
    var s3 := Next(s2, run[2]);
    assert run[1..][1..] == run[2..] && run[2..][1..] == [];
    assert IsRun(s3, []) && IsRun(s2, run[2..]) && IsRun(s1, run[1..]);
    assert After(s2, run[2..]) == s3 && After(s1, run[1..]) == s3;
    assert s3.guards == map[] && Engaged(s3.guards) == {};
  }

  // ----- the methods of the context -----

  class AsyncThreadCtx {
    var numIn: int
    var inPreloadingBytes: int
    var closed: bool

    ghost predicate Represents(s: State)
      reads this
    {
      numIn == s.numIn && inPreloadingBytes == s.inPreloadingBytes && closed == s.closed
    }

    constructor ()
      ensures Represents(Initial())
    {
      numIn, inPreloadingBytes, closed := 0, 0, false;
    }

    /** `in` for the guard `g` under construction in state `s`; `Failure` is the exception of its check. */
    method In(bytes: int, ghost s: State, ghost g: GuardId) returns (admitted: Result<bool>)
      requires Represents(s) && g !in s.guards
      modifies this
      ensures Represents(Next(s, Create(g, true, true, bytes)))
      ensures admitted == if s.closed then Success(false) else if bytes < 0 then Failure("BOLT_CHECK_GE") else Success(true)
    {
      if closed { return Success(false); }
      numIn := numIn + 1;
      if bytes < 0 { return Failure("BOLT_CHECK_GE"); }
      inPreloadingBytes := inPreloadingBytes + bytes;
      admitted := Success(true);
    }

    /** `out`, as the destructor of the engaged guard `g` calls it. */
    method Out(bytes: int, ghost s: State, ghost g: GuardId)
      requires Represents(s) && g in s.guards && s.guards[g].engaged && bytes == -s.guards[g].bytes
      modifies this
      ensures Represents(Next(s, Destroy(g)))
    {
      numIn := numIn - 1;
      inPreloadingBytes := inPreloadingBytes + if bytes > 0 then -bytes else bytes;
    }

    method Close(ghost s: State)
      requires Represents(s)
      modifies this
      ensures Represents(Next(s, BeginWait))
    {
      closed := true;
    }
  }
}
