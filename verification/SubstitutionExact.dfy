/** The condition of `Substitution.SubstitutionPreservesMeaning` is exact: in the term model, where every
    operation is a constructor and lambdas are observed at fresh probes, a rewriting that preserves
    meaning is `Safe`. */
module SubstitutionExact {
  import opened Types
  import opened Expressions
  import opened Substitution

  datatype Term =
    | Atom(name: string)
    | Probe(position: nat)
    | ConstantTerm(typ: Type, payload: Payload)
    | CallTerm(typ: Type, fn: string, args: seq<Term>)
    | CastTerm(typ: Type, nullOnFailure: bool, arg: Term)
    | DerefTerm(index: nat, arg: Term)
    | FieldTerm(name: string, arg: Term)
    | ConcatTerm(names: seq<string>, args: seq<Term>)
    | LambdaTerm(params: Type, result: Term)
    | RowTerm(ghost columns: imap<string, Term>)

  ghost function FieldOf(n: string, t: Term): Term {
    if t.RowTerm? && n in t.columns then t.columns[n] else FieldTerm(n, t)
  }

  function Probes(n: nat): (ps: seq<Term>)
    ensures |ps| == n && forall i | 0 <= i < n :: ps[i] == Probe(i)
  {
    seq(n, i requires 0 <= i < n => Probe(i))
  }

  ghost function Observe(ps: Type, graph: imap<seq<Term>, Term>): Term {
    var probes := Probes(|Params(ps)|);
    LambdaTerm(ps, if probes in graph then graph[probes] else Probe(0))
  }

  /** The term interpretation. */
  ghost function Terms(): Interp<Term> {
    Interp(
      (t: Type, p: Payload) => ConstantTerm(t, p),
      (t: Type, n: string, args: seq<Term>) => CallTerm(t, n, args),
      (t: Type, b: bool, x: Term) => CastTerm(t, b, x),
      (i: nat, x: Term) => DerefTerm(i, x),
      (n: string, x: Term) => FieldOf(n, x),
      (ns: seq<string>, args: seq<Term>) => ConcatTerm(ns, args),
      (ps: Type, g: imap<seq<Term>, Term>) => Observe(ps, g),
      (env: imap<string, Term>) => RowTerm(env))
  }

  lemma TermsLawful()
    ensures Lawful(Terms())
  {}

  /** Every column is bound to its own name. */
  ghost function Atoms(): (env: imap<string, Term>)
    ensures Total(env) && forall n: string :: env[n] == Atom(n)
  {
    imap n: string | true :: Atom(n)
  }

  /** Columns hold atoms or probes, never a whole row or a compound term. */
  ghost predicate Flat(env: imap<string, Term>) {
    Total(env) && forall n: string :: env[n].Atom? || env[n].Probe?
  }

  lemma LambdaValue(ps: Type, b: Expr, env: imap<string, Term>)
    requires WellFormed(Lambda(ps, b)) && Total(env)
    ensures Eval(Terms(), Lambda(ps, b), env)
         == LambdaTerm(ps, Eval(Terms(), b, Extend(env, ps.names, Probes(|ps.names|))))
  {}

  lemma ExtendFlat(env: imap<string, Term>, names: seq<string>)
    requires Flat(env)
    ensures Flat(Extend(env, names, Probes(|names|)))
  {}

  /** In a flat environment only columns denote atoms and probes, and only the input row denotes a row. */
  lemma TermShape(e: Expr, env: imap<string, Term>)
    requires WellFormed(e) && Flat(env)
    ensures Eval(Terms(), e, env).RowTerm? <==> e.Input?
    ensures Eval(Terms(), e, env).Atom? || Eval(Terms(), e, env).Probe? <==> exists n :: IsColumn(e, n)
  {
    match e
    case FieldAccess(_, x, n) =>
      TermShape(x, env);
      if x.Input? { assert IsColumn(e, n); }
    case Column(_, n) => assert IsColumn(e, n);
    case Lambda(ps, b) => LambdaValue(ps, b, env);
    case _ =>
  }

  /** Terms determine every column they were built from. */
  lemma {:induction false} EqualTermsReadEqually(e: Expr, env: imap<string, Term>, env': imap<string, Term>, n: string)
    requires WellFormed(e) && Flat(env) && Flat(env')
    requires Eval(Terms(), e, env) == Eval(Terms(), e, env') && Reads(e, n)
    ensures env[n] == env'[n]
    decreases e
  {
    match e
    case Input(_) =>
    case Column(_, _) =>
    case FieldAccess(_, x, k) =>
      if !x.Input? {
        TermShape(x, env);
        TermShape(x, env');
        EqualTermsReadEqually(x, env, env', n);
      }
    case Dereference(_, x, _) => EqualTermsReadEqually(x, env, env', n);
    case Cast(_, x, _) => EqualTermsReadEqually(x, env, env', n);
    case Call(_, _, es) =>
      var i :| 0 <= i < |es| && Reads(es[i], n);
      assert Eval(Terms(), e, env).args[i] == Eval(Terms(), e, env').args[i];
      EqualTermsReadEqually(es[i], env, env', n);
    case Concat(_, es) =>
      var i :| 0 <= i < |es| && Reads(es[i], n);
      assert Eval(Terms(), e, env).args[i] == Eval(Terms(), e, env').args[i];
      EqualTermsReadEqually(es[i], env, env', n);
    case Lambda(ps, b) =>
      LambdaValue(ps, b, env);
      LambdaValue(ps, b, env');
      ExtendFlat(env, ps.names);
      ExtendFlat(env', ps.names);
      EqualTermsReadEqually(b, Extend(env, ps.names, Probes(|ps.names|)), Extend(env', ps.names, Probes(|ps.names|)), n);
  }

  /** `inner` binds the parameters to probes and every other column to itself. */
  ghost predicate Probed(m: Mapping, bound: set<string>, inner: imap<string, Term>, replaced: imap<string, Term>) {
    && Related(Terms(), m, bound, Atoms(), inner, replaced)
    && forall n :: n in bound ==> inner[n].Probe?
  }

  lemma ProbedFlat(m: Mapping, bound: set<string>, inner: imap<string, Term>, replaced: imap<string, Term>)
    requires Probed(m, bound, inner, replaced)
    ensures Flat(inner) && Flat(Atoms())
  {
    forall n: string
      ensures inner[n].Atom? || inner[n].Probe?
    {
      if n !in bound { assert inner[n] == Atoms()[n]; }
    }
  }

  /** A rewriting that preserves meaning under the term interpretation is safe. */
  lemma {:induction false} PreservedOnlyIfSafe(e: Expr, m: Mapping)
    requires WellFormed(e) && WellFormedRange(m) && RewriteInputNames(e, m).Success?
    requires WellFormed(RewriteInputNames(e, m).value)
    requires Eval(Terms(), RewriteInputNames(e, m).value, Atoms()) == Eval(Terms(), e, Bind(Terms(), m, Atoms()))
    ensures Safe(e, m, {})
  {
    TermsLawful();
    SafeUnderBinders(e, m, {}, Atoms(), Bind(Terms(), m, Atoms()));
  }

  lemma {:induction false} SafeUnderBinders(
      e: Expr, m: Mapping, bound: set<string>, inner: imap<string, Term>, replaced: imap<string, Term>)
    requires Probed(m, bound, inner, replaced)
    requires WellFormed(e) && RewriteInputNames(e, m).Success? && WellFormed(RewriteInputNames(e, m).value)
    requires Eval(Terms(), RewriteInputNames(e, m).value, inner) == Eval(Terms(), e, replaced)
    ensures Safe(e, m, bound)
    decreases e, 1
  {
    ProbedFlat(m, bound, inner, replaced);
    match e
    case Input(_) => InputSafe(m, bound, inner, replaced);
    case Constant(_, _) =>
    case Column(_, n) =>
      if n in m {
        forall p | p in bound { ReplacementReadsNoProbe(m[n], inner, p); }
      }
    case FieldAccess(_, x, n) => FieldSafe(e, m, bound, inner, replaced);
    case Dereference(_, x, _) => SafeUnderBinders(x, m, bound, inner, replaced);
    case Cast(_, x, _) => SafeUnderBinders(x, m, bound, inner, replaced);
    case Call(_, _, es) => InputsSafe(e, es, m, bound, inner, replaced);
    case Concat(_, es) => InputsSafe(e, es, m, bound, inner, replaced);
    case Lambda(ps, b) => LambdaSafe(e, m, bound, inner, replaced);
  }

  lemma {:induction false} LambdaSafe(
      e: Expr, m: Mapping, bound: set<string>, inner: imap<string, Term>, replaced: imap<string, Term>)
    requires Probed(m, bound, inner, replaced) && e.Lambda?
    requires WellFormed(e) && RewriteInputNames(e, m).Success? && WellFormed(RewriteInputNames(e, m).value)
    requires Eval(Terms(), RewriteInputNames(e, m).value, inner) == Eval(Terms(), e, replaced)
    ensures Safe(e, m, bound)
    decreases e, 0
  {
    var ps, b, b' := e.params, e.body, RewriteInputNames(e.body, m).value;
    var probes := Probes(|ps.names|);
    assert RewriteInputNames(e, m).value == Lambda(ps, b');
    LambdaValue(ps, b', inner);
    LambdaValue(ps, b, replaced);
    ExtendProbed(m, bound, inner, replaced, ps);
    SafeUnderBinders(b, m, bound + (set p | p in Params(ps)), Extend(inner, ps.names, probes), Extend(replaced, ps.names, probes));
  }

  lemma ExtendProbed(m: Mapping, bound: set<string>, inner: imap<string, Term>, replaced: imap<string, Term>, ps: Type)
    requires Probed(m, bound, inner, replaced) && ps.Row? && !BindsMapped(ps, m)
    ensures Probed(m, bound + (set p | p in Params(ps)),
                   Extend(inner, ps.names, Probes(|ps.names|)), Extend(replaced, ps.names, Probes(|ps.names|)))
  {
    var probes := Probes(|ps.names|);
    ExtendRelated(Terms(), m, bound, Atoms(), inner, replaced, ps, probes);
    forall n | n in bound || n in ps.names
      ensures Extend(inner, ps.names, probes)[n].Probe?
    {}
  }

  lemma {:induction false} InputSafe(m: Mapping, bound: set<string>, inner: imap<string, Term>, replaced: imap<string, Term>)
    requires Probed(m, bound, inner, replaced) && RowTerm(inner) == RowTerm(replaced)
    ensures forall n :: n in m ==> IsColumn(m[n], n)
  {
    forall n | n in m
      ensures IsColumn(m[n], n)
    {
      assert inner[n] == replaced[n];
      AtomIsColumn(m[n], n);
    }
  }

  lemma ReplacementReadsNoProbe(r: Expr, inner: imap<string, Term>, p: string)
    requires WellFormed(r) && Flat(inner) && Flat(Atoms()) && inner[p].Probe?
    requires Eval(Terms(), r, inner) == Eval(Terms(), r, Atoms())
    ensures !Reads(r, p)
  {
    if Reads(r, p) { EqualTermsReadEqually(r, inner, Atoms(), p); }
  }

  lemma {:induction false} InputsSafe(
      e: Expr, es: seq<Expr>, m: Mapping, bound: set<string>, inner: imap<string, Term>, replaced: imap<string, Term>)
    requires Probed(m, bound, inner, replaced) && (e.Call? || e.Concat?) && e.inputs == es
    requires WellFormed(e) && RewriteInputNames(e, m).Success? && WellFormed(RewriteInputNames(e, m).value)
    requires Eval(Terms(), RewriteInputNames(e, m).value, inner) == Eval(Terms(), e, replaced)
    ensures Safe(e, m, bound)
    decreases e, 0
  {
    var e' := RewriteInputNames(e, m).value;
    forall i | 0 <= i < |es|
      ensures Safe(es[i], m, bound)
    {
      assert Eval(Terms(), e', inner).args[i] == Eval(Terms(), e, replaced).args[i];
      SafeUnderBinders(es[i], m, bound, inner, replaced);
    }
  }

  /** Only a column expression denotes an atom. */
  lemma AtomIsColumn(e: Expr, n: string)
    requires WellFormed(e) && Eval(Terms(), e, Atoms()) == Atom(n)
    ensures IsColumn(e, n)
  {
    TermsLawful();
    TermShape(e, Atoms());
    var k :| IsColumn(e, k);
    ColumnValue(Terms(), e, k, Atoms());
  }

  lemma {:induction false} FieldSafe(
      e: Expr, m: Mapping, bound: set<string>, inner: imap<string, Term>, replaced: imap<string, Term>)
    requires Probed(m, bound, inner, replaced) && e.FieldAccess?
    requires WellFormed(e) && RewriteInputNames(e, m).Success? && WellFormed(RewriteInputNames(e, m).value)
    requires Eval(Terms(), RewriteInputNames(e, m).value, inner) == Eval(Terms(), e, replaced)
    ensures Safe(e, m, bound)
    decreases e, 0
  {
    var x, n := e.input, e.name;
    var x' := RewriteInputNames(x, m).value;
    ProbedFlat(m, bound, inner, replaced);
    RewriteToInput(x, m);
    if x.Input? {
      assert inner[NewName(n, m)] == replaced[n];
      InputFieldSafe(e, m, bound, inner, replaced);
    } else if x'.Input? {
      assert inner[NewName(n, m)] == Atom(n);
    } else {
      TermShape(x', inner);
      if Eval(Terms(), x, replaced).RowTerm? { ReplacedRow(x, m, bound, inner, replaced); }
      SafeUnderBinders(x, m, bound, inner, replaced);
    }
  }

  lemma InputFieldSafe(
      e: Expr, m: Mapping, bound: set<string>, inner: imap<string, Term>, replaced: imap<string, Term>)
    requires Probed(m, bound, inner, replaced) && e.FieldAccess? && e.input.Input?
    requires WellFormed(e) && Flat(inner) && Flat(Atoms()) && Total(replaced)
    requires inner[NewName(e.name, m)] == replaced[e.name]
    ensures Safe(e, m, bound)
  {
    var n := e.name;
    if n in m {
      assert n !in bound;
      NewNameSafe(n, m, bound, inner);
    }
  }

  lemma NewNameSafe(n: string, m: Mapping, bound: set<string>, inner: imap<string, Term>)
    requires WellFormedRange(m) && n in m && Flat(inner) && Flat(Atoms())
    requires forall k :: k in bound ==> inner[k].Probe?
    requires inner[NewName(n, m)] == Eval(Terms(), m[n], Atoms())
    ensures NewName(n, m) !in bound && IsColumn(m[n], NewName(n, m))
  {
    TermShape(m[n], Atoms());
    var k :| IsColumn(m[n], k);
    TermsLawful();
    ColumnValue(Terms(), m[n], k, Atoms());
    assert NewName(n, m) == k;
  }

  /** The only row other than the input row that can turn up is the unreplaced one. */
  lemma {:induction false} ReplacedRow(x: Expr, m: Mapping, bound: set<string>, inner: imap<string, Term>, replaced: imap<string, Term>)
    requires Probed(m, bound, inner, replaced)
    requires WellFormed(x) && !x.Input? && Eval(Terms(), x, replaced).RowTerm?
    ensures Eval(Terms(), x, replaced) == RowTerm(Atoms())
    decreases x
  {
    match x
    case Column(_, n) => ReplacedColumn(n, m, bound, inner, replaced);
    case FieldAccess(_, y, n) =>
      if y.Input? {
        ReplacedColumn(n, m, bound, inner, replaced);
      } else {
        assert Eval(Terms(), y, replaced).RowTerm?;
        ReplacedRow(y, m, bound, inner, replaced);
      }
    case Lambda(ps, b) => LambdaValue(ps, b, replaced);
    case _ =>
  }

  lemma ReplacedColumn(n: string, m: Mapping, bound: set<string>, inner: imap<string, Term>, replaced: imap<string, Term>)
    requires Probed(m, bound, inner, replaced) && replaced[n].RowTerm?
    ensures replaced[n] == RowTerm(Atoms())
  {
    if n in m && n !in bound { TermShape(m[n], Atoms()); }
  }

  /** In `env`, the rewritten tree means the original with the mapped columns rebound. */
  ghost predicate Preserved<V(!new)>(I: Interp<V>, e: Expr, m: Mapping, env: imap<string, V>) {
    && WellFormed(e) && WellFormedRange(m) && Total(env)
    && RewriteInputNames(e, m).Success? && WellFormed(RewriteInputNames(e, m).value)
    && Eval(I, RewriteInputNames(e, m).value, env) == Eval(I, e, Bind(I, m, env))
  }

  /** `Safe` says exactly when a rewriting that goes through preserves meaning. */
  lemma {:induction false} SafeIsExact(e: Expr, m: Mapping)
    requires WellFormed(e) && WellFormedRange(m) && RewriteInputNames(e, m).Success?
    ensures Safe(e, m, {}) <==> forall env :: Total(env) ==> Preserved(Terms(), e, m, env)
  {
    if Safe(e, m, {}) {
      forall env: imap<string, Term> | Total(env)
        ensures Preserved(Terms(), e, m, env)
      {
        TermsLawful();
        SubstitutionPreservesMeaning(Terms(), e, m, env);
      }
    }
    if Preserved(Terms(), e, m, Atoms()) {
      PreservedOnlyIfSafe(e, m);
    }
  }

  /** Capture: mapping column a to column p rewrites `p -> a` into `p -> p` without an error. */
  lemma CaptureChangesMeaning(t: Type)
    ensures var e := Lambda(Row(["p"], [t]), Column(t, "a"));
            var m := map["a" := Column(t, "p")];
            && RewriteInputNames(e, m) == Success(Lambda(Row(["p"], [t]), Column(t, "p")))
            && !Safe(e, m, {})
  {
    var m: Mapping := map["a" := Column(t, "p")];
    assert "p" in {} + (set p | p in Params(Row(["p"], [t])));
    assert Reads(m["a"], "p");
  }

  /** A field over the input row keeps its name when it is mapped to something other than a field access. */
  lemma MappedFieldOverInputIsKept(row: Type, t: Type, p: Payload)
    ensures var e := FieldAccess(t, Input(row), "a");
            var m := map["a" := Constant(t, p)];
            RewriteInputNames(e, m) == Success(e) && !Safe(e, m, {})
  {}
}
