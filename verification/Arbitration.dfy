/** Memory arbitration of a query: checkers asking for a future, reclaimers starting and finishing an
    arbitration, in every interleaving (bolt/core/QueryCtx.cpp:122-174). Each locked section is one step;
    the first read of `underArbitration_` in checkUnderArbitration is a step of its own, without the lock. */
module Arbitration {
  import opened Types

  type Future = nat
  type ThreadId = nat

  /** Where a thread is. */
  datatype Pc =
    | Idle
    | WantsLock                       // checker: saw the flag set, has not locked yet
    | Guarded                         // reclaimer: the leave guard exists, startArbitration is next
    | Reclaiming                      // reclaimer: startArbitration returned, the base reclaim runs
    | Leaving                         // reclaimer: the guard's finishArbitration is next
    | Fulfilling(promises: seq<Future>)

  /** The shared fields, and the promises fulfilled so far. Futures are numbered as they are handed out. */
  datatype State = State(
    underArbitration: bool,
    arbitrationPromises: seq<Future>,
    issued: nat,
    fulfilled: seq<Future>,
    pcs: map<ThreadId, Pc>,
    checkFailed: bool)

  datatype Step =
    | CheckUnlocked(thread: ThreadId)
    | CheckLocked(thread: ThreadId)
    | Reclaim(thread: ThreadId)
    | StartArbitration(thread: ThreadId)
    | ReclaimEnds(thread: ThreadId, throws: bool)
    | FinishArbitration(thread: ThreadId)
    | FulfillOne(thread: ThreadId)
    | Return(thread: ThreadId)

  function PcOf(s: State, t: ThreadId): Pc {
    if t in s.pcs then s.pcs[t] else Idle
  }

  function Initial(): State {
    State(false, [], 0, [], map[], false)
  }

  predicate Enabled(s: State, step: Step) {
    match step
    case CheckUnlocked(t) => PcOf(s, t) == Idle
    case CheckLocked(t) => PcOf(s, t) == WantsLock
    case Reclaim(t) => PcOf(s, t) == Idle
    case StartArbitration(t) => PcOf(s, t) == Guarded
    case ReclaimEnds(t, _) => PcOf(s, t) == Reclaiming
    case FinishArbitration(t) => PcOf(s, t) == Leaving
    case FulfillOne(t) => PcOf(s, t).Fulfilling? && PcOf(s, t).promises != []
    case Return(t) => PcOf(s, t) == Fulfilling([])
  }

  function At(s: State, t: ThreadId, pc: Pc): State {
    s.(pcs := s.pcs[t := pc])
  }

  /** One step. A BOLT_CHECK that does not hold sets `checkFailed`; in startArbitration the exception runs
      the leave guard, so finishArbitration comes next all the same. */
  function Next(s: State, step: Step): State
    requires Enabled(s, step)
  {
    match step
    case CheckUnlocked(t) => if s.underArbitration then At(s, t, WantsLock) else s
    case CheckLocked(t) =>
      if !s.underArbitration then At(s, t, Idle).(checkFailed := s.checkFailed || s.arbitrationPromises != [])
      else At(s, t, Idle).(arbitrationPromises := s.arbitrationPromises + [s.issued], issued := s.issued + 1)
    case Reclaim(t) => At(s, t, Guarded)
    case StartArbitration(t) =>
      if s.underArbitration || s.arbitrationPromises != [] then At(s, t, Leaving).(checkFailed := true)
      else At(s, t, Reclaiming).(underArbitration := true)
    case ReclaimEnds(t, _) => At(s, t, Leaving)
    case FinishArbitration(t) =>
      if !s.underArbitration then At(s, t, Idle).(checkFailed := true)
      else At(s, t, Fulfilling(s.arbitrationPromises)).(underArbitration := false, arbitrationPromises := [])
    case FulfillOne(t) =>
      At(s, t, Fulfilling(PcOf(s, t).promises[1..])).(fulfilled := s.fulfilled + [PcOf(s, t).promises[0]])
    case Return(t) => At(s, t, Idle)
  }

  predicate IsRun(s: State, run: seq<Step>)
    decreases run
  {
    run == [] || (Enabled(s, run[0]) && IsRun(Next(s, run[0]), run[1..]))
  }

  function After(s: State, run: seq<Step>): State
    requires IsRun(s, run)
    decreases run
  {
    if run == [] then s else After(Next(s, run[0]), run[1..])
  }

  // ----- what a checker gets -----

  /** A checker goes on to the lock exactly when it sees the flag, and otherwise changes nothing. */
  lemma UnlockedReadFollowsFlag(s: State, t: ThreadId)
    requires Enabled(s, CheckUnlocked(t))
    ensures PcOf(Next(s, CheckUnlocked(t)), t) == WantsLock <==> s.underArbitration
    ensures Next(s, CheckUnlocked(t)) == s.(pcs := Next(s, CheckUnlocked(t)).pcs)
    ensures !s.underArbitration ==> Next(s, CheckUnlocked(t)) == s
    ensures forall u | u != t :: PcOf(Next(s, CheckUnlocked(t)), u) == PcOf(s, u)
  {
  }

  /** While an arbitration is under way an idle thread that checks and is not interrupted leaves with a new future, which
      is the last of the pending ones. */
  lemma CheckerGetsFuture(s: State, t: ThreadId)
    requires s.underArbitration && PcOf(s, t) == Idle
    ensures var run := [CheckUnlocked(t), CheckLocked(t)];
            && IsRun(s, run) && PcOf(After(s, run), t) == Idle
            && After(s, run) == Next(Next(s, run[0]), run[1])
            && After(s, run) == s.(arbitrationPromises := s.arbitrationPromises + [s.issued], issued := s.issued + 1,
                                   pcs := After(s, run).pcs)
            && forall u | u != t :: PcOf(After(s, run), u) == PcOf(s, u)
  {
    var run := [CheckUnlocked(t), CheckLocked(t)];
    var m := Next(s, run[0]);
    assert run[1..][1..] == [] && IsRun(Next(m, run[1]), []);
    assert IsRun(m, run[1..]) && After(m, run[1..]) == Next(m, run[1]);
  }

  // ----- reclaims of one query are serialised -----

  /** The thread is inside an arbitration it has started. */
  predicate InArbitration(pc: Pc) {
    pc == Reclaiming || pc == Leaving
  }

  /** An arbitration starts only when no other one is under way; earlier finishers may still be fulfilling. */
  ghost predicate StartsAlone(s: State, step: Step) {
    step.StartArbitration? ==> forall t :: !InArbitration(PcOf(s, t))
  }

  ghost predicate Serialised(s: State, run: seq<Step>)
    requires IsRun(s, run)
    decreases run
  {
    run != [] ==> StartsAlone(s, run[0]) && Serialised(Next(s, run[0]), run[1..])
  }

  // ----- the invariant -----

  function LocalPromises(pc: Pc): seq<Future> {
    if pc.Fulfilling? then pc.promises else []
  }

  ghost predicate NoDuplicates(fs: seq<Future>) {
    forall i, j :: 0 <= i < j < |fs| ==> fs[i] != fs[j]
  }

  /** The flag is set exactly while one thread is inside its arbitration. */
  ghost predicate FlagMatches(s: State) {
    && (forall t, u :: InArbitration(PcOf(s, t)) && InArbitration(PcOf(s, u)) ==> t == u)
    && (s.underArbitration <==> exists t :: InArbitration(PcOf(s, t)))
    && (!s.underArbitration ==> s.arbitrationPromises == [])
  }

  /** No future is held twice in one place. */
  ghost predicate HeldOnce(s: State) {
    && NoDuplicates(s.arbitrationPromises) && NoDuplicates(s.fulfilled)
    && forall t :: NoDuplicates(LocalPromises(PcOf(s, t)))
  }

  /** No future is held in two places. */
  ghost predicate HeldApart(s: State) {
    && (forall f <- s.arbitrationPromises :: f !in s.fulfilled)
    && (forall t, f | f in LocalPromises(PcOf(s, t)) :: f !in s.arbitrationPromises && f !in s.fulfilled)
    && (forall t, u, f | f in LocalPromises(PcOf(s, t)) && f in LocalPromises(PcOf(s, u)) :: t == u)
  }

  ghost predicate Held(s: State, f: Future) {
    f in s.arbitrationPromises || f in s.fulfilled || exists t :: f in LocalPromises(PcOf(s, t))
  }

  /** Exactly the futures handed out are held somewhere. */
  ghost predicate HeldSomewhere(s: State) {
    forall f: Future :: f < s.issued <==> Held(s, f)
  }

  ghost predicate Invariant(s: State) {
    !s.checkFailed && FlagMatches(s) && HeldOnce(s) && HeldApart(s) && HeldSomewhere(s)
  }

  lemma InitialInvariant()
    ensures Invariant(Initial())
  {
    var s := Initial();
    assert forall t :: PcOf(s, t) == Idle && LocalPromises(PcOf(s, t)) == [];
    assert forall f: Future :: !Held(s, f);
  }

  lemma FlagKept(s: State, step: Step)
    requires Invariant(s) && Enabled(s, step) && StartsAlone(s, step)
    ensures !Next(s, step).checkFailed && FlagMatches(Next(s, step))
  {
    var s', t := Next(s, step), step.thread;
    assert forall u :: u != t ==> PcOf(s', u) == PcOf(s, u);
    if step.StartArbitration? { assert InArbitration(PcOf(s', t)); }
    if step.ReclaimEnds? { assert InArbitration(PcOf(s, t)) && InArbitration(PcOf(s', t)); }
    if step.FinishArbitration? { assert InArbitration(PcOf(s, t)); }
    if u :| InArbitration(PcOf(s, u)) {
      if u != t { assert InArbitration(PcOf(s', u)); }
    }
  }

  lemma AppendNew(fs: seq<Future>, f: Future)
    requires NoDuplicates(fs)
    ensures f !in fs ==> NoDuplicates(fs + [f])
  {}

  lemma HeldOnceKept(s: State, step: Step)
    requires Invariant(s) && Enabled(s, step) && StartsAlone(s, step)
    ensures HeldOnce(Next(s, step))
  {
    var s', t := Next(s, step), step.thread;
    assert NoDuplicates(LocalPromises(PcOf(s, t)));
    if step.FulfillOne? {
      var f := PcOf(s, t).promises[0];
      assert f in LocalPromises(PcOf(s, t));
      AppendNew(s.fulfilled, f);
    } else if step.CheckLocked? {
      assert !Held(s, s.issued);
      AppendNew(s.arbitrationPromises, s.issued);
    }
    forall u ensures NoDuplicates(LocalPromises(PcOf(s', u))) {
      if u != t { assert PcOf(s', u) == PcOf(s, u); }
    }
  }

  lemma HeldApartKept(s: State, step: Step)
    requires Invariant(s) && Enabled(s, step) && StartsAlone(s, step)
    ensures HeldApart(Next(s, step))
  {
    var s', t := Next(s, step), step.thread;
    assert forall u :: u != t ==> PcOf(s', u) == PcOf(s, u);
    if step.FulfillOne? {
      HeldApartWhenFulfilling(s, t);
    } else if step.FinishArbitration? {
      assert LocalPromises(PcOf(s', t)) == s.arbitrationPromises;
    } else {
      assert !Held(s, s.issued);
      assert LocalPromises(PcOf(s', t)) == [];
      forall u, f | f in LocalPromises(PcOf(s', u))
        ensures u != t && f in LocalPromises(PcOf(s, u)) && f != s.issued
      {}
    }
  }

  lemma HeldApartWhenFulfilling(s: State, t: ThreadId)
    requires Invariant(s) && Enabled(s, FulfillOne(t))
    ensures HeldApart(Next(s, FulfillOne(t)))
  {
    var s', local := Next(s, FulfillOne(t)), LocalPromises(PcOf(s, t));
    assert NoDuplicates(local) && local[0] in local;
    forall u, f | f in LocalPromises(PcOf(s', u))
      ensures f in LocalPromises(PcOf(s, u)) && f != local[0]
    {
      if u == t {
        var i :| 0 <= i < |local[1..]| && local[1..][i] == f;
        assert local[i + 1] == f;
      }
    }
  }

  /** A step loses no future, and makes only the one it hands out. */
  lemma StepMovesFutures(s: State, step: Step, f: Future)
    requires Enabled(s, step) && StartsAlone(s, step) && FlagMatches(s)
    ensures Held(Next(s, step), f) <==> Held(s, f) || (step.CheckLocked? && s.underArbitration && f == s.issued)
  {
    var s', t := Next(s, step), step.thread;
    assert forall u :: u != t ==> PcOf(s', u) == PcOf(s, u);
    var local, local' := LocalPromises(PcOf(s, t)), LocalPromises(PcOf(s', t));
    if step.FulfillOne? {
      assert local == [local[0]] + local';
      assert f in local <==> f == local[0] || f in local';
    } else if step.FinishArbitration? {
      assert InArbitration(PcOf(s, t));
      assert local == [] && local' == s.arbitrationPromises;
    } else {
      assert local == [] && local' == [];
    }
    if u :| u != t && f in LocalPromises(PcOf(s, u)) { assert f in LocalPromises(PcOf(s', u)); }
    if u :| u != t && f in LocalPromises(PcOf(s', u)) { assert f in LocalPromises(PcOf(s, u)); }
  }

  lemma HeldSomewhereKept(s: State, step: Step)
    requires Invariant(s) && Enabled(s, step) && StartsAlone(s, step)
    ensures HeldSomewhere(Next(s, step))
  {
    forall f: Future
      ensures f < Next(s, step).issued <==> Held(Next(s, step), f)
    {
      StepMovesFutures(s, step, f);
    }
  }

  lemma StepKeepsInvariant(s: State, step: Step)
    requires Invariant(s) && Enabled(s, step) && StartsAlone(s, step)
    ensures Invariant(Next(s, step))
  {
    FlagKept(s, step);
    HeldOnceKept(s, step);
    HeldApartKept(s, step);
    HeldSomewhereKept(s, step);
  }

  /** In every serialised run, whatever the interleaving and whether or not reclaims throw, no check fails
      and each future is pending, held by one finisher, or fulfilled once. */
  lemma {:induction false} SerialisedRunKeepsInvariant(s: State, run: seq<Step>)
    requires Invariant(s) && IsRun(s, run) && Serialised(s, run)
    ensures Invariant(After(s, run))
    decreases run
  {
    if run != [] {
      StepKeepsInvariant(s, run[0]);
      SerialisedRunKeepsInvariant(Next(s, run[0]), run[1..]);
    }
  }

  lemma {:induction false} FailureIsFinal(s: State, run: seq<Step>)
    requires s.checkFailed && IsRun(s, run)
    ensures After(s, run).checkFailed
    decreases run
  {
    if run != [] {
      FailureIsFinal(Next(s, run[0]), run[1..]);
    }
  }

  lemma {:induction false} UnserialisedFails(s: State, run: seq<Step>)
    requires Invariant(s) && IsRun(s, run) && !Serialised(s, run)
    ensures After(s, run).checkFailed
    decreases run
  {
    if StartsAlone(s, run[0]) {
      StepKeepsInvariant(s, run[0]);
      UnserialisedFails(Next(s, run[0]), run[1..]);
    } else {
      FailureIsFinal(Next(s, run[0]), run[1..]);
    }
  }

  /** The internal checks hold throughout a run exactly when its reclaims are serialised. */
  lemma ChecksHoldIffSerialised(run: seq<Step>)
    requires IsRun(Initial(), run)
    ensures !After(Initial(), run).checkFailed <==> Serialised(Initial(), run)
  {
    InitialInvariant();
    if Serialised(Initial(), run) {
      SerialisedRunKeepsInvariant(Initial(), run);
    } else {
      UnserialisedFails(Initial(), run);
    }
  }

  /** No thread is reclaiming or fulfilling. */
  ghost predicate Quiet(s: State) {
    forall t :: !InArbitration(PcOf(s, t)) && LocalPromises(PcOf(s, t)) == []
  }

  /** Once no arbitration or finisher is active, every future handed out has been fulfilled, once. */
  lemma QuietMeansAllFulfilled(run: seq<Step>)
    requires IsRun(Initial(), run) && Serialised(Initial(), run) && Quiet(After(Initial(), run))
    ensures var s := After(Initial(), run);
            && !s.underArbitration && s.arbitrationPromises == [] && NoDuplicates(s.fulfilled)
            && forall f: Future :: f in s.fulfilled <==> f < s.issued
  {
    InitialInvariant();
    SerialisedRunKeepsInvariant(Initial(), run);
    var s := After(Initial(), run);
    forall f: Future
      ensures f in s.fulfilled <==> f < s.issued
    {
      assert Held(s, f) <==> f in s.fulfilled;
    }
  }

  /** A finisher that keeps running fulfils its whole list and returns. */
  lemma {:induction false} FinisherDrains(s: State, t: ThreadId) returns (run: seq<Step>)
    requires PcOf(s, t).Fulfilling?
    ensures IsRun(s, run) && |run| == |PcOf(s, t).promises| + 1
    ensures PcOf(After(s, run), t) == Idle
    ensures var s' := After(s, run);
            s' == s.(pcs := s'.pcs, fulfilled := s.fulfilled + PcOf(s, t).promises)
    decreases |PcOf(s, t).promises|
  {
    var local := PcOf(s, t).promises;
    if local == [] {
      run := [Return(t)];
      assert run[1..] == [];
    } else {
      var s' := Next(s, FulfillOne(t));
      var rest := FinisherDrains(s', t);
      run := [FulfillOne(t)] + rest;
      assert run[1..] == rest;
      assert s'.fulfilled + local[1..] == s.fulfilled + local;
    }
  }

  /** Two reclaims that overlap make a check fail. */
  lemma OverlappingReclaimsFail(t: ThreadId, u: ThreadId)
    requires t != u
    ensures var run := [Reclaim(t), StartArbitration(t), Reclaim(u), StartArbitration(u)];
            IsRun(Initial(), run) && !Serialised(Initial(), run) && After(Initial(), run).checkFailed
  {
    var run := [Reclaim(t), StartArbitration(t), Reclaim(u), StartArbitration(u)];
    var s1 := Next(Initial(), run[0]);
    var s2 := Next(s1, run[1]);
    var s3 := Next(s2, run[2]);
    var s4 := Next(s3, run[3]);
    assert run[1..][1..] == run[2..] && run[2..][1..] == run[3..] && run[3..][1..] == [];
    assert IsRun(s4, []) && IsRun(s3, run[3..]) && IsRun(s2, run[2..]) && IsRun(s1, run[1..]);
    assert After(s3, run[3..]) == s4 && After(s2, run[2..]) == s4 && After(s1, run[1..]) == s4;
    ChecksHoldIffSerialised(run);
  }

  /** The overlapping reclaim does harm beyond its failed check: its leave guard ends the arbitration of the first, whose
      own end then fails as well. */
  lemma OverlappingReclaimEndsTheOther(t: ThreadId, u: ThreadId)
    requires t != u
    ensures var run := [Reclaim(t), StartArbitration(t), Reclaim(u), StartArbitration(u), FinishArbitration(u)];
            && IsRun(Initial(), run) && !After(Initial(), run).underArbitration
            && PcOf(After(Initial(), run), t) == Reclaiming && PcOf(After(Initial(), run), u) == Fulfilling([])
    ensures var s := After(Initial(), [Reclaim(t), StartArbitration(t), Reclaim(u), StartArbitration(u), FinishArbitration(u)]);
            var run := [ReclaimEnds(t, false), FinishArbitration(t)];
            IsRun(s, run) && PcOf(After(s, run), t) == Idle && After(s, run).checkFailed
  {
    var run := [Reclaim(t), StartArbitration(t), Reclaim(u), StartArbitration(u), FinishArbitration(u)];
    var s1 := Next(Initial(), run[0]);
    var s2 := Next(s1, run[1]);
    var s3 := Next(s2, run[2]);
    var s4 := Next(s3, run[3]);
    var s5 := Next(s4, run[4]);
    assert run[1..][1..] == run[2..] && run[2..][1..] == run[3..] && run[3..][1..] == run[4..] && run[4..][1..] == [];
    assert IsRun(s5, []) && IsRun(s4, run[4..]) && IsRun(s3, run[3..]) && IsRun(s2, run[2..]) && IsRun(s1, run[1..]);
    assert After(s4, run[4..]) == s5 && After(s3, run[3..]) == s5 && After(s2, run[2..]) == s5 && After(s1, run[1..]) == s5;
    var rest := [ReclaimEnds(t, false), FinishArbitration(t)];
    var s6 := Next(s5, rest[0]);
    assert rest[1..][1..] == [] && IsRun(Next(s6, rest[1]), []) && IsRun(s6, rest[1..]);
    assert After(s6, rest[1..]) == Next(s6, rest[1]);
  }

  // ----- the methods, each locked section as one call -----

  /** The fields of QueryCtx that take part; a promise is the number of its future. */
  class QueryCtx {
    var underArbitration: bool
    var arbitrationPromises: seq<Future>
    var issued: nat
    var fulfilled: seq<Future>

    /** The fields are those of a protocol state. */
    ghost predicate Represents(s: State)
      reads this
    {
      && underArbitration == s.underArbitration && arbitrationPromises == s.arbitrationPromises
      && issued == s.issued && fulfilled == s.fulfilled
    }

    constructor ()
      ensures Represents(Initial())
    {
      underArbitration, arbitrationPromises, issued, fulfilled := false, [], 0, [];
    }

    /** The locked part of checkUnderArbitration. */
    method CheckUnderArbitrationLocked(ghost s: State, ghost t: ThreadId) returns (future: Option<Future>)
      requires Represents(s) && Enabled(s, CheckLocked(t)) && Invariant(s)
      modifies this
      ensures Represents(Next(s, CheckLocked(t)))
      ensures future == if s.underArbitration then Some(s.issued) else None
    {
      if !underArbitration {
        assert arbitrationPromises == [];   // the BOLT_CHECK
        return None;
      }
      arbitrationPromises := arbitrationPromises + [issued];
      future := Some(issued);
      issued := issued + 1;
    }

    /** The first, unlocked read of checkUnderArbitration: whether to go on to the lock. */
    method CheckUnderArbitrationUnlocked(ghost s: State, ghost t: ThreadId) returns (wantsLock: bool)
      requires Represents(s) && Enabled(s, CheckUnlocked(t))
      ensures Represents(Next(s, CheckUnlocked(t)))
      ensures wantsLock <==> PcOf(Next(s, CheckUnlocked(t)), t) == WantsLock
      ensures wantsLock == s.underArbitration
    {
      wantsLock := underArbitration;
    }

    /** checkUnderArbitration run without interruption: a new future exactly during an arbitration. */
    method CheckUnderArbitration(ghost s: State, ghost t: ThreadId) returns (future: Option<Future>)
      requires Represents(s) && PcOf(s, t) == Idle && Invariant(s)
      modifies this
      ensures future == if s.underArbitration then Some(s.issued) else None
      ensures Represents(if s.underArbitration then After(s, [CheckUnlocked(t), CheckLocked(t)]) else s)
    {
      StepKeepsInvariant(s, CheckUnlocked(t));
      if s.underArbitration { CheckerGetsFuture(s, t); }
      var wantsLock := CheckUnderArbitrationUnlocked(s, t);
      if !wantsLock { return None; }
      future := CheckUnderArbitrationLocked(Next(s, CheckUnlocked(t)), t);
    }

    method Start(ghost s: State, ghost t: ThreadId)
      requires Represents(s) && Enabled(s, StartArbitration(t)) && Invariant(s) && StartsAlone(s, StartArbitration(t))
      modifies this
      ensures Represents(Next(s, StartArbitration(t))) && underArbitration
    {
      FlagKept(s, StartArbitration(t));
      assert !underArbitration && arbitrationPromises == [];   // the BOLT_CHECKs
      underArbitration := true;
    }

    /** The locked section of finishArbitration: the pending promises move to the finisher. */
    method FinishLocked(ghost s: State, ghost t: ThreadId) returns (promises: seq<Future>)
      requires Represents(s) && Enabled(s, FinishArbitration(t)) && Invariant(s)
      modifies this
      ensures Represents(Next(s, FinishArbitration(t)))
      ensures PcOf(Next(s, FinishArbitration(t)), t) == Fulfilling(promises)
    {
      assert InArbitration(PcOf(s, t));
      assert underArbitration;   // the BOLT_CHECK
      promises := arbitrationPromises;
      underArbitration := false;
      arbitrationPromises := [];
    }

    /** One turn of the loop after the lock is released, with any steps of other threads since the last. */
    method FulfillNext(promises: seq<Future>, ghost s: State, ghost t: ThreadId) returns (rest: seq<Future>)
      requires Represents(s) && PcOf(s, t) == Fulfilling(promises) && promises != []
      modifies this
      ensures Represents(Next(s, FulfillOne(t))) && PcOf(Next(s, FulfillOne(t)), t) == Fulfilling(rest)
    {
      fulfilled := fulfilled + [promises[0]];
      rest := promises[1..];
    }

    /** finishArbitration run without interruption: the locked swap, then every promise in turn. */
    method Finish(ghost s: State, ghost t: ThreadId) returns (ghost run: seq<Step>)
      requires Represents(s) && Enabled(s, FinishArbitration(t)) && Invariant(s)
      modifies this
      ensures IsRun(s, run) && Represents(After(s, run)) && PcOf(After(s, run), t) == Idle
      ensures !underArbitration && arbitrationPromises == []
      ensures fulfilled == old(fulfilled) + old(arbitrationPromises)
    {
      var promises := FinishLocked(s, t);
      ghost var s' := Next(s, FinishArbitration(t));
      var rest := FinisherDrains(s', t);
      run := [FinishArbitration(t)] + rest;
      assert run[1..] == rest;
      for i := 0 to |promises|
        invariant fulfilled == old(fulfilled) + promises[..i]
        invariant !underArbitration && arbitrationPromises == [] && issued == old(issued)
      {
        fulfilled := fulfilled + [promises[i]];
      }
      assert promises[..|promises|] == promises;
    }
  }
}
