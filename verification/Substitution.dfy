/** What rewriteInputNames promises (bolt/core/ITypedExpr.h:76-83): the rewritten tree means the original
    with every mapped column bound to the value of its replacement. The meaning is taken over an arbitrary
    interpretation of calls, casts, dereferences, constants and lambdas; functions are their graphs, so an
    interpretation cannot tell two extensionally equal lambda arguments apart. */
module Substitution {
  import opened Types
  import opened Sequences
  import opened Expressions

  datatype Interp<!V> = Interp(
    constant: (Type, Payload) -> V,
    call: (Type, string, seq<V>) -> V,
    cast: (Type, bool, V) -> V,
    deref: (nat, V) -> V,
    field: (string, V) -> V,
    concat: (seq<string>, seq<V>) -> V,
    ghost lambda: (Type, imap<seq<V>, V>) -> V,
    ghost row: imap<string, V> -> V)

  ghost predicate Total<V(!new)>(env: imap<string, V>) {
    forall n: string :: n in env
  }

  /** A field of the input row is the column of that name. */
  ghost predicate Lawful<V(!new)>(I: Interp<V>) {
    forall env: imap<string, V>, n: string :: Total(env) ==> I.field(n, I.row(env)) == env[n]
  }

  ghost function Extend<V(!new)>(env: imap<string, V>, names: seq<string>, args: seq<V>): (r: imap<string, V>)
    requires Total(env) && |args| == |names|
    ensures Total(r)
  {
    imap n | n in env :: if n in names then args[IndexOf(names, n)] else env[n]
  }

  ghost function Eval<V(!new)>(I: Interp<V>, e: Expr, env: imap<string, V>): V
    requires WellFormed(e) && Total(env)
    decreases e, 0
  {
    match e
    case Input(_) => I.row(env)
    case Constant(t, p) => I.constant(t, p)
    case Column(_, n) => env[n]
    case FieldAccess(_, x, n) => I.field(n, Eval(I, x, env))
    case Dereference(_, x, i) => I.deref(i, Eval(I, x, env))
    case Cast(t, x, b) => I.cast(t, b, Eval(I, x, env))
    case Call(t, n, es) =>
      I.call(t, n, seq(|es|, i requires 0 <= i < |es| => Eval(I, es[i], env)))
    case Concat(t, es) =>
      I.concat(t.names, seq(|es|, i requires 0 <= i < |es| => Eval(I, es[i], env)))
    case Lambda(ps, b) => I.lambda(ps, Graph(I, ps.names, b, env))
  }

  /** The function a lambda body denotes in `env`. */
  ghost function Graph<V(!new)>(I: Interp<V>, names: seq<string>, body: Expr, env: imap<string, V>): imap<seq<V>, V>
    requires WellFormed(body) && Total(env)
    decreases body, 1
  {
    imap args: seq<V> | |args| == |names| :: Eval(I, body, Extend(env, names, args))
  }

  /** The environment in which every mapped column has the value of its replacement. */
  ghost function Bind<V(!new)>(I: Interp<V>, m: Mapping, env: imap<string, V>): (r: imap<string, V>)
    requires WellFormedRange(m) && Total(env)
    ensures Total(r)
  {
    imap n | n in env :: if n in m then Eval(I, m[n], env) else env[n]
  }

  // ----- the condition -----

  /** `e` reads column `n` of the row it is evaluated on. */
  predicate Reads(e: Expr, n: string) {
    match e
    case Input(_) => true
    case Constant(_, _) => false
    case Column(_, k) => k == n
    case FieldAccess(_, x, k) => if x.Input? then k == n else Reads(x, n)
    case Dereference(_, x, _) => Reads(x, n)
    case Cast(_, x, _) => Reads(x, n)
    case Call(_, _, es) => exists i | 0 <= i < |es| :: Reads(es[i], n)
    case Concat(_, es) => exists i | 0 <= i < |es| :: Reads(es[i], n)
    case Lambda(ps, b) => !(ps.Row? && n in ps.names) && Reads(b, n)
  }

  /** `e` is one of the two ways to write input column `n`. */
  predicate IsColumn(e: Expr, n: string) {
    || (e.Column? && e.name == n)
    || (e.FieldAccess? && e.input.Input? && e.name == n)
  }

  /** Rewriting `e` under the lambda parameters `bound` cannot change its meaning:
      - a replacement that lands under a lambda reads none of the lambda's parameters;
      - a mapped name that is read over the input row is replaced by an input column;
      - the input row is used whole only where the mapping renames nothing. */
  ghost predicate Safe(e: Expr, m: Mapping, bound: set<string>) {
    match e
    case Input(_) => forall n :: n in m ==> IsColumn(m[n], n)
    case Constant(_, _) => true
    case Column(_, n) => n in m ==> forall p :: p in bound ==> !Reads(m[n], p)
    case FieldAccess(_, x, n) =>
      if x.Input? then n in m ==> NewName(n, m) !in bound && IsColumn(m[n], NewName(n, m))
      else if x.Column? && x.name in m && m[x.name].Input? then NewName(n, m) == n && n !in bound
      else Safe(x, m, bound)
    case Dereference(_, x, _) => Safe(x, m, bound)
    case Cast(_, x, _) => Safe(x, m, bound)
    case Call(_, _, es) => forall i | 0 <= i < |es| :: Safe(es[i], m, bound)
    case Concat(_, es) => forall i | 0 <= i < |es| :: Safe(es[i], m, bound)
    case Lambda(ps, b) => Safe(b, m, bound + (set p | p in Params(ps)))
  }

  // ----- soundness -----

  /** Environments that agree on the columns an expression reads give it the same value. */
  lemma {:induction false} EvalReadsOnly<V(!new)>(I: Interp<V>, e: Expr, env: imap<string, V>, env': imap<string, V>)
    requires Lawful(I) && WellFormed(e) && Total(env) && Total(env')
    requires forall n :: Reads(e, n) ==> env[n] == env'[n]
    ensures Eval(I, e, env) == Eval(I, e, env')
    decreases e
  {
    match e
    case Input(_) => assert env == env';
    case FieldAccess(_, x, k) => if !x.Input? { EvalReadsOnly(I, x, env, env'); }
    case Dereference(_, x, _) => EvalReadsOnly(I, x, env, env');
    case Cast(_, x, _) => EvalReadsOnly(I, x, env, env');
    case Call(_, _, es) => InputsReadOnly(I, e, es, env, env');
    case Concat(_, es) => InputsReadOnly(I, e, es, env, env');
    case Lambda(ps, b) =>
      forall args: seq<V> | |args| == |ps.names|
        ensures Eval(I, b, Extend(env, ps.names, args)) == Eval(I, b, Extend(env', ps.names, args))
      {
        EvalReadsOnly(I, b, Extend(env, ps.names, args), Extend(env', ps.names, args));
      }
      assert Graph(I, ps.names, b, env) == Graph(I, ps.names, b, env');
    case _ =>
  }

  lemma {:induction false} InputsReadOnly<V(!new)>(I: Interp<V>, e: Expr, es: seq<Expr>, env: imap<string, V>, env': imap<string, V>)
    requires Lawful(I) && Total(env) && Total(env')
    requires (e.Call? || e.Concat?) && e.inputs == es && WellFormed(e)
    requires forall n :: Reads(e, n) ==> env[n] == env'[n]
    ensures seq(|es|, i requires 0 <= i < |es| => Eval(I, es[i], env))
         == seq(|es|, i requires 0 <= i < |es| => Eval(I, es[i], env'))
    decreases e, 0
  {
    forall i | 0 <= i < |es|
      ensures Eval(I, es[i], env) == Eval(I, es[i], env')
    {
      assert forall n :: Reads(es[i], n) ==> Reads(e, n);
      EvalReadsOnly(I, es[i], env, env');
    }
  }

  lemma ColumnValue<V(!new)>(I: Interp<V>, e: Expr, n: string, env: imap<string, V>)
    requires Lawful(I) && WellFormed(e) && Total(env) && IsColumn(e, n)
    ensures Eval(I, e, env) == env[n]
  {
    assert I.field(n, I.row(env)) == env[n];
  }

  /** `inner` is `outer` with the parameters `bound` rebound; `replaced` is `inner` with every mapped
      column bound to its replacement's value in `outer`. */
  ghost predicate Related<V(!new)>(I: Interp<V>, m: Mapping, bound: set<string>,
                                   outer: imap<string, V>, inner: imap<string, V>, replaced: imap<string, V>)
  {
    && Lawful(I) && WellFormedRange(m) && Total(outer) && Total(inner) && Total(replaced)
    && (forall n :: n in bound ==> n !in m && inner[n] == replaced[n])
    && (forall n :: n !in bound ==> inner[n] == outer[n])
    && (forall n :: n !in bound ==> replaced[n] == if n in m then Eval(I, m[n], outer) else outer[n])
  }

  /** Substitution preserves meaning under any interpretation, through lambdas, calls, casts, row
      constructors, dereferences and both forms of field access. */
  lemma {:induction false} SubstitutionPreservesMeaning<V(!new)>(I: Interp<V>, e: Expr, m: Mapping, env: imap<string, V>)
    requires Lawful(I) && WellFormed(e) && WellFormedRange(m) && Total(env)
    requires RewriteInputNames(e, m).Success? && Safe(e, m, {})
    ensures WellFormed(RewriteInputNames(e, m).value)
    ensures Eval(I, RewriteInputNames(e, m).value, env) == Eval(I, e, Bind(I, m, env))
  {
    SubstitutionUnderBinders(I, e, m, {}, env, env, Bind(I, m, env));
  }

  lemma {:induction false} SubstitutionUnderBinders<V(!new)>(
      I: Interp<V>, e: Expr, m: Mapping, bound: set<string>,
      outer: imap<string, V>, inner: imap<string, V>, replaced: imap<string, V>)
    requires Related(I, m, bound, outer, inner, replaced)
    requires WellFormed(e) && RewriteInputNames(e, m).Success? && Safe(e, m, bound)
    ensures WellFormed(RewriteInputNames(e, m).value)
    ensures Eval(I, RewriteInputNames(e, m).value, inner) == Eval(I, e, replaced)
    decreases e, 1
  {
    RewritePreservesType(e, m);
    match e
    case Input(_) => InputUnderBinders(I, m, bound, outer, inner, replaced);
    case Constant(_, _) =>
    case Column(_, n) =>
      if n in m && n !in bound { EvalReadsOnly(I, m[n], inner, outer); }
    case FieldAccess(_, x, n) => FieldUnderBinders(I, e, m, bound, outer, inner, replaced);
    case Dereference(_, x, _) => SubstitutionUnderBinders(I, x, m, bound, outer, inner, replaced);
    case Cast(_, x, _) => SubstitutionUnderBinders(I, x, m, bound, outer, inner, replaced);
    case Call(_, _, es) => InputsUnderBinders(I, e, es, m, bound, outer, inner, replaced);
    case Concat(_, es) => InputsUnderBinders(I, e, es, m, bound, outer, inner, replaced);
    case Lambda(ps, b) => LambdaUnderBinders(I, e, m, bound, outer, inner, replaced);
  }

  lemma {:induction false} InputUnderBinders<V(!new)>(
      I: Interp<V>, m: Mapping, bound: set<string>,
      outer: imap<string, V>, inner: imap<string, V>, replaced: imap<string, V>)
    requires Related(I, m, bound, outer, inner, replaced)
    requires forall n :: n in m ==> IsColumn(m[n], n)
    ensures inner == replaced
  {
    forall n
      ensures inner[n] == replaced[n]
    {
      if n in m && n !in bound { ColumnValue(I, m[n], n, outer); }
    }
  }

  lemma {:induction false} FieldUnderBinders<V(!new)>(
      I: Interp<V>, e: Expr, m: Mapping, bound: set<string>,
      outer: imap<string, V>, inner: imap<string, V>, replaced: imap<string, V>)
    requires Related(I, m, bound, outer, inner, replaced) && e.FieldAccess?
    requires WellFormed(e) && RewriteInputNames(e, m).Success? && Safe(e, m, bound)
    requires WellFormed(RewriteInputNames(e, m).value)
    ensures Eval(I, RewriteInputNames(e, m).value, inner) == Eval(I, e, replaced)
    decreases e, 0
  {
    var x, n := e.input, e.name;
    RewriteToInput(x, m);
    if x.Input? {
      if n in m && n !in bound { ColumnValue(I, m[n], NewName(n, m), outer); }
      assert I.field(NewName(n, m), I.row(inner)) == inner[NewName(n, m)];
      assert I.field(n, I.row(replaced)) == replaced[n];
    } else if x.Column? && x.name in m && m[x.name].Input? {
      assert I.field(n, I.row(inner)) == inner[n];
      assert I.field(n, I.row(outer)) == outer[n];
    } else {
      SubstitutionUnderBinders(I, x, m, bound, outer, inner, replaced);
    }
  }

  lemma {:induction false} InputsUnderBinders<V(!new)>(
      I: Interp<V>, e: Expr, es: seq<Expr>, m: Mapping, bound: set<string>,
      outer: imap<string, V>, inner: imap<string, V>, replaced: imap<string, V>)
    requires Related(I, m, bound, outer, inner, replaced) && (e.Call? || e.Concat?) && e.inputs == es
    requires WellFormed(e) && RewriteInputNames(e, m).Success? && Safe(e, m, bound)
    requires WellFormed(RewriteInputNames(e, m).value)
    ensures Eval(I, RewriteInputNames(e, m).value, inner) == Eval(I, e, replaced)
    decreases e, 0
  {
    forall i | 0 <= i < |es| { SubstitutionUnderBinders(I, es[i], m, bound, outer, inner, replaced); }
    var es' := RewriteInputNames(e, m).value.inputs;
    assert seq(|es'|, i requires 0 <= i < |es'| => Eval(I, es'[i], inner))
        == seq(|es|, i requires 0 <= i < |es| => Eval(I, es[i], replaced));
  }

  lemma {:induction false} LambdaUnderBinders<V(!new)>(
      I: Interp<V>, e: Expr, m: Mapping, bound: set<string>,
      outer: imap<string, V>, inner: imap<string, V>, replaced: imap<string, V>)
    requires Related(I, m, bound, outer, inner, replaced) && e.Lambda?
    requires WellFormed(e) && RewriteInputNames(e, m).Success? && Safe(e, m, bound)
    requires WellFormed(RewriteInputNames(e, m).value)
    ensures Eval(I, RewriteInputNames(e, m).value, inner) == Eval(I, e, replaced)
    decreases e, 0
  {
    var ps, b, b' := e.params, e.body, RewriteInputNames(e.body, m).value;
    forall args: seq<V> | |args| == |ps.names|
      ensures Eval(I, b', Extend(inner, ps.names, args)) == Eval(I, b, Extend(replaced, ps.names, args))
    {
      ExtendRelated(I, m, bound, outer, inner, replaced, ps, args);
      SubstitutionUnderBinders(I, b, m, bound + (set p | p in Params(ps)), outer,
                               Extend(inner, ps.names, args), Extend(replaced, ps.names, args));
    }
    assert Graph(I, ps.names, b', inner) == Graph(I, ps.names, b, replaced);
  }

  lemma ExtendRelated<V(!new)>(
      I: Interp<V>, m: Mapping, bound: set<string>,
      outer: imap<string, V>, inner: imap<string, V>, replaced: imap<string, V>, ps: Type, args: seq<V>)
    requires Related(I, m, bound, outer, inner, replaced) && ps.Row? && |args| == |ps.names| && !BindsMapped(ps, m)
    ensures Related(I, m, bound + (set p | p in Params(ps)), outer,
                    Extend(inner, ps.names, args), Extend(replaced, ps.names, args))
  {}

  /** Only the input row itself, or a column mapped to it, rewrites to the input row. */
  lemma RewriteToInput(x: Expr, m: Mapping)
    requires WellFormed(x) && RewriteInputNames(x, m).Success?
    ensures RewriteInputNames(x, m).value.Input? <==> x.Input? || (x.Column? && x.name in m && m[x.name].Input?)
  {}
}
