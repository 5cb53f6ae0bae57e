/** Equality of plans up to an equality of their expressions, and what a round trip leaves of it
    (bolt/core/PlanNode.cpp). */
module PlanEquality {
  import opened Types
  import opened PlanNodes
  import opened PlanSerde
  import opened PlanRoundTrip

  // ----- all expressions of a plan -----

  ghost predicate AllHold<E>(es: seq<E>, ok: E -> bool) {
    forall i | 0 <= i < |es| :: ok(es[i])
  }

  ghost predicate OptionHolds<E>(e: Option<E>, ok: E -> bool) {
    e.Some? ==> ok(e.value)
  }

  ghost predicate FunctionHolds<E>(f: WindowFunction<E>, ok: E -> bool) {
    ok(f.call) && OptionHolds(f.frame.startValue, ok) && OptionHolds(f.frame.endValue, ok)
  }

  /** `ok` holds of the node's expressions, and `okBare` of those in window functions. */
  ghost predicate NodeForall<E>(n: Node<E>, ok: E -> bool, okBare: E -> bool) {
    match n
    case Leaf(_) => true
    case Filter(f) => ok(f)
    case Project(_, es) => AllHold(es, ok)
    case Unnest(reps, vars, _, _) => AllHold(reps, ok) && AllHold(vars, ok)
    case Window(ps, ss, _, fs, _, _, _) =>
      AllHold(ps, ok) && AllHold(ss, ok) && forall i | 0 <= i < |fs| :: FunctionHolds(fs[i], okBare)
    case RowNumber(ps, _, _) => AllHold(ps, ok)
    case TopNRowNumber(ps, ss, _, _, _) => AllHold(ps, ok) && AllHold(ss, ok)
    case HashJoin(_, _, lk, rk, f, _, _) => AllHold(lk, ok) && AllHold(rk, ok) && OptionHolds(f, ok)
    case MergeJoin(_, lk, rk, f, _) => AllHold(lk, ok) && AllHold(rk, ok) && OptionHolds(f, ok)
    case NestedLoopJoin(_, f, _) => OptionHolds(f, ok)
  }

  ghost predicate PlanForall<E>(p: Plan<E>, ok: E -> bool, okBare: E -> bool) {
    NodeForall(p.node, ok, okBare) && forall i | 0 <= i < |p.sources| :: PlanForall(p.sources[i], ok, okBare)
  }

  lemma {:induction false} PlanForallImplies<E(!new)>(p: Plan<E>, ok: E -> bool, okBare: E -> bool, good: E -> bool, goodBare: E -> bool)
    requires PlanForall(p, ok, okBare)
    requires forall e :: (ok(e) ==> good(e)) && (okBare(e) ==> goodBare(e))
    ensures PlanForall(p, good, goodBare)
    decreases p
  {
    forall i | 0 <= i < |p.sources| {
      PlanForallImplies(p.sources[i], ok, okBare, good, goodBare);
    }
  }

  // ----- equality -----

  ghost predicate AllEqual<E>(es: seq<E>, fs: seq<E>, eq: (E, E) -> bool) {
    |es| == |fs| && forall i | 0 <= i < |es| :: eq(es[i], fs[i])
  }

  ghost predicate OptionEqual<E>(e: Option<E>, f: Option<E>, eq: (E, E) -> bool) {
    (e.Some? <==> f.Some?) && (e.Some? && f.Some? ==> eq(e.value, f.value))
  }

  ghost predicate FunctionEqual<E>(f: WindowFunction<E>, g: WindowFunction<E>, eq: (E, E) -> bool) {
    && eq(f.call, g.call) && f.ignoreNulls == g.ignoreNulls
    && f.frame.windowType == g.frame.windowType
    && f.frame.startType == g.frame.startType && OptionEqual(f.frame.startValue, g.frame.startValue, eq)
    && f.frame.endType == g.frame.endType && OptionEqual(f.frame.endValue, g.frame.endValue, eq)
  }

  ghost predicate FunctionsEqual<E>(fs: seq<WindowFunction<E>>, gs: seq<WindowFunction<E>>, eq: (E, E) -> bool) {
    |fs| == |gs| && forall i | 0 <= i < |fs| :: FunctionEqual(fs[i], gs[i], eq)
  }

  /** The same class with the same fields, expressions compared by `eq`. */
  ghost predicate NodeEq<E>(m: Node<E>, n: Node<E>, eq: (E, E) -> bool) {
    match (m, n)
    case (Leaf(t), Leaf(u)) => t == u
    case (Filter(f), Filter(g)) => eq(f, g)
    case (Project(a, es), Project(b, fs)) => a == b && AllEqual(es, fs, eq)
    case (Unnest(rs, vs, o, t), Unnest(rs', vs', o', t')) =>
      AllEqual(rs, rs', eq) && AllEqual(vs, vs', eq) && o == o' && t == t'
    case (Window(ps, ss, orders, fs, sorted, top, t), Window(ps', ss', orders', fs', sorted', top', t')) =>
      && AllEqual(ps, ps', eq) && AllEqual(ss, ss', eq) && orders == orders' && FunctionsEqual(fs, fs', eq)
      && sorted == sorted' && top == top' && t == t'
    case (RowNumber(ps, limit, t), RowNumber(ps', limit', t')) => AllEqual(ps, ps', eq) && limit == limit' && t == t'
    case (TopNRowNumber(ps, ss, orders, limit, t), TopNRowNumber(ps', ss', orders', limit', t')) =>
      AllEqual(ps, ps', eq) && AllEqual(ss, ss', eq) && orders == orders' && limit == limit' && t == t'
    case (HashJoin(jt, na, lk, rk, f, t, c), HashJoin(jt', na', lk', rk', f', t', c')) =>
      && jt == jt' && na == na' && AllEqual(lk, lk', eq) && AllEqual(rk, rk', eq) && OptionEqual(f, f', eq)
      && t == t' && c == c'
    case (MergeJoin(jt, lk, rk, f, t), MergeJoin(jt', lk', rk', f', t')) =>
      jt == jt' && AllEqual(lk, lk', eq) && AllEqual(rk, rk', eq) && OptionEqual(f, f', eq) && t == t'
    case (NestedLoopJoin(jt, f, t), NestedLoopJoin(jt', f', t')) => jt == jt' && OptionEqual(f, f', eq) && t == t'
    case _ => false
  }

  /** The same ids and equal nodes throughout. */
  ghost predicate PlanEq<E>(p: Plan<E>, q: Plan<E>, eq: (E, E) -> bool) {
    && p.id == q.id && NodeEq(p.node, q.node, eq)
    && |p.sources| == |q.sources| && forall i | 0 <= i < |p.sources| :: PlanEq(p.sources[i], q.sources[i], eq)
  }

  // ----- what comes back -----

  /** `e` comes back, and equal to `e` exactly when it fits. */
  ghost function ComesBack<E, J>(o: Exprs<E, J>, eq: (E, E) -> bool, fits: E -> bool): E -> bool {
    (e: E) => Kept(o, e) && (eq(o.read(o.write(e)).value, e) <==> fits(e))
  }

  ghost function ComesBackBare<E, J>(o: Exprs<E, J>, eq: (E, E) -> bool, fits: E -> bool): E -> bool {
    (e: E) => KeptBare(o, e) && (eq(o.readBare(o.write(e)).value, e) <==> fits(e))
  }

  lemma NodeComesBackKept<E, J>(o: Exprs<E, J>, eq: (E, E) -> bool, fits: E -> bool, n: Node<E>)
    requires NodeForall(n, ComesBack(o, eq, fits), ComesBackBare(o, eq, fits))
    ensures NodeKept(o, n)
  {}

  lemma AllBackEqualIff<E, J>(o: Exprs<E, J>, eq: (E, E) -> bool, fits: E -> bool, es: seq<E>)
    requires AllHold(es, ComesBack(o, eq, fits))
    ensures AllKept(o, es) && (AllEqual(BackAll(o, es), es, eq) <==> AllHold(es, fits))
  {}

  lemma FunctionsBackEqualIff<E, J>(o: Exprs<E, J>, eq: (E, E) -> bool, fits: E -> bool, fs: seq<WindowFunction<E>>)
    requires forall i | 0 <= i < |fs| :: FunctionHolds(fs[i], ComesBackBare(o, eq, fits))
    ensures forall i | 0 <= i < |fs| :: FunctionKept(o, fs[i])
    ensures FunctionsEqual(BackFunctions(o, fs), fs, eq) <==> forall i | 0 <= i < |fs| :: FunctionHolds(fs[i], fits)
  {
    forall i | 0 <= i < |fs|
      ensures FunctionKept(o, fs[i]) && (FunctionEqual(BackFunction(o, fs[i]), fs[i], eq) <==> FunctionHolds(fs[i], fits))
    {
      assert FunctionHolds(fs[i], ComesBackBare(o, eq, fits));
    }
    var gs := BackFunctions(o, fs);
    assert forall i | 0 <= i < |fs| :: gs[i] == BackFunction(o, fs[i]);
  }

  /** A node comes back equal exactly when its omitted fields hold defaults and its expressions fit. */
  lemma NodeBackEqualIff<E, J>(o: Exprs<E, J>, eq: (E, E) -> bool, fits: E -> bool, n: Node<E>)
    requires NodeForall(n, ComesBack(o, eq, fits), ComesBackBare(o, eq, fits))
    ensures NodeKept(o, n)
    ensures NodeEq(BackNode(o, n), n, eq) <==> NodeAtDefaults(n) && NodeForall(n, fits, fits)
  {
    NodeComesBackKept(o, eq, fits, n);
    match n
    case Project(_, es) => AllBackEqualIff(o, eq, fits, es);
    case Unnest(reps, vars, _, _) => AllBackEqualIff(o, eq, fits, reps); AllBackEqualIff(o, eq, fits, vars);
    case Window(ps, ss, _, fs, _, _, _) =>
      AllBackEqualIff(o, eq, fits, ps);
      AllBackEqualIff(o, eq, fits, ss);
      FunctionsBackEqualIff(o, eq, fits, fs);
    case RowNumber(ps, _, _) => AllBackEqualIff(o, eq, fits, ps);
    case TopNRowNumber(ps, ss, _, _, _) => AllBackEqualIff(o, eq, fits, ps); AllBackEqualIff(o, eq, fits, ss);
    case HashJoin(_, _, lk, rk, _, _, _) => AllBackEqualIff(o, eq, fits, lk); AllBackEqualIff(o, eq, fits, rk);
    case MergeJoin(_, lk, rk, _, _) => AllBackEqualIff(o, eq, fits, lk); AllBackEqualIff(o, eq, fits, rk);
    case _ =>
  }

  lemma {:induction false} PlanBackEqualIff<E, J>(o: Exprs<E, J>, eq: (E, E) -> bool, fits: E -> bool, p: Plan<E>)
    requires PlanForall(p, ComesBack(o, eq, fits), ComesBackBare(o, eq, fits))
    ensures ExprsKept(o, p)
    ensures PlanEq(Back(o, p), p, eq) <==> AtDefaults(p) && PlanForall(p, fits, fits)
    decreases p
  {
    NodeBackEqualIff(o, eq, fits, p.node);
    forall i | 0 <= i < |p.sources|
      ensures ExprsKept(o, p.sources[i])
      ensures PlanEq(Back(o, p.sources[i]), p.sources[i], eq) <==> AtDefaults(p.sources[i]) && PlanForall(p.sources[i], fits, fits)
    {
      PlanBackEqualIff(o, eq, fits, p.sources[i]);
    }
  }

  /** create(serialize(p)) exists for every plan that constructors built without the unnamed join kind, and
      equals it exactly when the omitted fields hold their defaults and every expression fits. */
  lemma RoundTripEqualIff<E, J>(o: Exprs<E, J>, numberType: Type, eq: (E, E) -> bool, fits: E -> bool, p: Plan<E>)
    requires Built(o, numberType, p) && AllNamed(p)
    requires PlanForall(p, ComesBack(o, eq, fits), ComesBackBare(o, eq, fits))
    ensures Serialize(o, p).Success? && Create(o, numberType, Serialize(o, p).value).Success?
    ensures var r := Create(o, numberType, Serialize(o, p).value).value;
            && OutputType(o, r) == OutputType(o, p)
            && (PlanEq(r, p, eq) <==> AtDefaults(p) && PlanForall(p, fits, fits))
  {
    PlanBackEqualIff(o, eq, fits, p);
    CreateAfterSerialize(o, numberType, p);
  }
}
