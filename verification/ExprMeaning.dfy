/** What expression equality decides: which parts of two trees it compares, and that equal trees mean the same
    (bolt/core/Expressions.h, bolt/core/Expressions.cpp:312-336). */
module ExprMeaning {
  import opened Types
  import opened Expressions
  import opened ExprEquality
  import opened Substitution
  import CV = ConstantValues

  // ----- which parts are compared -----

  /** A tree reduced to what operator== looks at: class, type (field names of the outermost level only, and none on
      inputs and dereferences), names, flags, parameter rows, and the bits of constants. */
  datatype Key =
    | InputKey
    | LiteralKey(typ: Type, variant: Variant)
    | ValueKey(typ: Type, value: CV.Value)
    | CallKey(typ: Type, name: string, inputs: seq<Key>)
    | ColumnKey(typ: Type, name: string)
    | FieldKey(typ: Type, input: Key, name: string)
    | DereferenceKey(input: Key, index: nat)
    | ConcatKey(typ: Type, inputs: seq<Key>)
    | LambdaKey(typ: Type, params: Type, body: Key)
    | CastKey(typ: Type, input: Key, nullOnFailure: bool)

  function KeyOf(e: Expr): Key
    requires ConstantsReadable(e)
    decreases e, 0
  {
    var t := EraseBelow(ExprType(e));
    match e
    case Input(_) => InputKey
    case Constant(_, ScalarPayload(v)) => LiteralKey(t, v)
    case Constant(_, VectorPayload(v)) => ValueKey(t, CV.Decode(v, 0))
    case Call(_, n, es) => CallKey(t, n, KeysOf(es))
    case Column(_, n) => ColumnKey(t, n)
    case FieldAccess(_, x, n) => FieldKey(t, KeyOf(x), n)
    case Dereference(_, x, i) => DereferenceKey(KeyOf(x), i)
    case Concat(_, es) => ConcatKey(t, KeysOf(es))
    case Lambda(ps, b) => LambdaKey(t, EraseBelow(ps), KeyOf(b))
    case Cast(_, x, b) => CastKey(t, KeyOf(x), b)
  }

  function KeysOf(es: seq<Expr>): (ks: seq<Key>)
    requires forall i | 0 <= i < |es| :: ConstantsReadable(es[i])
    ensures |ks| == |es| && forall i | 0 <= i < |es| :: ks[i] == KeyOf(es[i])
    decreases es
  {
    seq(|es|, i requires 0 <= i < |es| => KeyOf(es[i]))
  }

  lemma {:induction false} ConstantEqIffSameKey(a: Expr, b: Expr, mem: nat -> CV.Vec)
    requires a.Constant? && b.Constant? && ConstantsReadable(a) && ConstantsReadable(b) && Placed(a, mem) && Placed(b, mem)
    ensures ConstantEq(a, b) <==> KeyOf(a) == KeyOf(b)
  {
    TypeEqIffErasedBelow(a.typ, b.typ);
    ConstantEqIffSameValue(a, b, mem);
  }

  /** One level of the comparison, for nodes with one input or a body. */
  lemma {:induction false} UnaryEqIffSameKey(a: Expr, b: Expr, x: Expr, y: Expr)
    requires ConstantsReadable(a) && ConstantsReadable(b)
    requires Below(a) == Some(x) && Below(b) == Some(y) && (ExprEq(x, y) <==> KeyOf(x) == KeyOf(y))
    ensures ExprEq(a, b) <==> KeyOf(a) == KeyOf(b)
  {
    match (a, b)
    case (FieldAccess(t, _, _), FieldAccess(u, _, _)) => TypeEqIffErasedBelow(t, u);
    case (Dereference(_, _, _), Dereference(_, _, _)) =>
    case (Cast(t, _, _), Cast(u, _, _)) => TypeEqIffErasedBelow(t, u);
    case (Lambda(ps, _), Lambda(qs, _)) =>
      TypeEqIffErasedBelow(ExprType(a), ExprType(b));
      TypeEqIffErasedBelow(ps, qs);
    case _ =>
  }

  /** The single input of a node, or the body of a lambda. */
  function Below(e: Expr): Option<Expr> {
    match e
    case FieldAccess(_, x, _) => Some(x)
    case Dereference(_, x, _) => Some(x)
    case Cast(_, x, _) => Some(x)
    case Lambda(_, b) => Some(b)
    case _ => None
  }

  /** One level of the comparison, for calls and row constructors. */
  lemma {:induction false} NaryEqIffSameKey(a: Expr, b: Expr)
    requires ConstantsReadable(a) && ConstantsReadable(b) && (a.Call? || a.Concat?) && (b.Call? || b.Concat?)
    requires |a.inputs| == |b.inputs| && (forall i | 0 <= i < |a.inputs| :: ExprEq(a.inputs[i], b.inputs[i])) <==>
             KeysOf(a.inputs) == KeysOf(b.inputs)
    ensures ExprEq(a, b) <==> KeyOf(a) == KeyOf(b)
  {
    TypeEqIffErasedBelow(a.typ, b.typ);
  }

  lemma {:induction false} LeafEqIffSameKey(a: Expr, b: Expr, mem: nat -> CV.Vec)
    requires ConstantsReadable(a) && ConstantsReadable(b) && Placed(a, mem) && Placed(b, mem)
    requires a.Input? || a.Constant? || a.Column?
    ensures ExprEq(a, b) <==> KeyOf(a) == KeyOf(b)
  {
    TypeEqIffErasedBelow(ExprType(a), ExprType(b));
    if a.Constant? && b.Constant? { ConstantEqIffSameKey(a, b, mem); }
  }

  /** Expressions are equal exactly when they have the same key. */
  lemma {:induction false} ExprEqIffSameKey(a: Expr, b: Expr, mem: nat -> CV.Vec)
    requires ConstantsReadable(a) && ConstantsReadable(b) && Placed(a, mem) && Placed(b, mem)
    ensures ExprEq(a, b) <==> KeyOf(a) == KeyOf(b)
    decreases a, 1
  {
    if a.Input? || a.Constant? || a.Column? {
      LeafEqIffSameKey(a, b, mem);
    } else if Below(a).Some? && Below(b).Some? {
      ExprEqIffSameKey(Below(a).value, Below(b).value, mem);
      UnaryEqIffSameKey(a, b, Below(a).value, Below(b).value);
    } else if (a.Call? || a.Concat?) && (b.Call? || b.Concat?) {
      AllEqIffSameKeys(a.inputs, b.inputs, mem);
      NaryEqIffSameKey(a, b);
    }
  }

  lemma {:induction false} AllEqIffSameKeys(es: seq<Expr>, fs: seq<Expr>, mem: nat -> CV.Vec)
    requires forall i | 0 <= i < |es| :: ConstantsReadable(es[i]) && Placed(es[i], mem)
    requires forall i | 0 <= i < |fs| :: ConstantsReadable(fs[i]) && Placed(fs[i], mem)
    ensures |es| == |fs| && (forall i | 0 <= i < |es| :: ExprEq(es[i], fs[i])) <==> KeysOf(es) == KeysOf(fs)
    decreases es, 0
  {
    if |es| == |fs| {
      forall i | 0 <= i < |es|
        ensures ExprEq(es[i], fs[i]) <==> KeysOf(es)[i] == KeysOf(fs)[i]
      {
        ExprEqIffSameKey(es[i], fs[i], mem);
      }
    }
  }

  // ----- equal trees mean the same -----

  /** The same literal, or vectors that decode to one value. */
  ghost predicate SameLiteral(t: Type, p: Payload, u: Type, q: Payload) {
    match (p, q)
    case (ScalarPayload(x), ScalarPayload(y)) => x == y
    case (VectorPayload(v), VectorPayload(w)) =>
      CV.Readable(Some(v), 0, t) && CV.Readable(Some(w), 0, u) && CV.Decode(v, 0) == CV.Decode(w, 0)
    case _ => false
  }

  /** The interpretation does not tell equal types or equal constants apart. */
  ghost predicate Respects<V(!new)>(I: Interp<V>) {
    && (forall t, p, u, q :: TypeEq(t, u) && SameLiteral(t, p, u, q) ==> I.constant(t, p) == I.constant(u, q))
    && (forall t, u, n, vs :: TypeEq(t, u) ==> I.call(t, n, vs) == I.call(u, n, vs))
    && (forall t, u, b, v :: TypeEq(t, u) ==> I.cast(t, b, v) == I.cast(u, b, v))
    && (forall t, u, g :: TypeEq(t, u) ==> I.lambda(t, g) == I.lambda(u, g))
  }

  lemma {:induction false} EqualConstantsMeanTheSame<V(!new)>(I: Interp<V>, a: Expr, b: Expr, mem: nat -> CV.Vec)
    requires Respects(I) && a.Constant? && b.Constant? && ConstantsReadable(a) && ConstantsReadable(b)
    requires Placed(a, mem) && Placed(b, mem) && ConstantEq(a, b)
    ensures I.constant(a.typ, a.payload) == I.constant(b.typ, b.payload)
  {
    ConstantEqIffSameValue(a, b, mem);
    assert SameLiteral(a.typ, a.payload, b.typ, b.payload);
  }

  /** Equal trees have the same value in every environment, under every such interpretation. */
  lemma {:induction false} EqualTreesMeanTheSame<V(!new)>(I: Interp<V>, a: Expr, b: Expr, mem: nat -> CV.Vec, env: imap<string, V>)
    requires Respects(I) && WellFormed(a) && WellFormed(b) && Total(env)
    requires ConstantsReadable(a) && ConstantsReadable(b) && Placed(a, mem) && Placed(b, mem) && ExprEq(a, b)
    ensures Eval(I, a, env) == Eval(I, b, env)
    decreases a, 1
  {
    match (a, b)
    case (Constant(_, _), Constant(_, _)) => EqualConstantsMeanTheSame(I, a, b, mem);
    case (FieldAccess(_, x, _), FieldAccess(_, y, _)) => EqualTreesMeanTheSame(I, x, y, mem, env);
    case (Dereference(_, x, _), Dereference(_, y, _)) => EqualTreesMeanTheSame(I, x, y, mem, env);
    case (Cast(_, x, _), Cast(_, y, _)) => EqualTreesMeanTheSame(I, x, y, mem, env);
    case (Lambda(_, _), Lambda(_, _)) => EqualLambdasMeanTheSame(I, a, b, mem, env);
    case (Call(_, _, es), Call(_, _, fs)) => EqualInputsMeanTheSame(I, es, fs, mem, env);
    case (Concat(_, es), Concat(_, fs)) => EqualInputsMeanTheSame(I, es, fs, mem, env);
    case _ =>
  }

  lemma {:induction false} EqualInputsMeanTheSame<V(!new)>(I: Interp<V>, es: seq<Expr>, fs: seq<Expr>, mem: nat -> CV.Vec, env: imap<string, V>)
    requires Respects(I) && Total(env) && |es| == |fs|
    requires forall i | 0 <= i < |es| :: WellFormed(es[i]) && ConstantsReadable(es[i]) && Placed(es[i], mem)
    requires forall i | 0 <= i < |fs| :: WellFormed(fs[i]) && ConstantsReadable(fs[i]) && Placed(fs[i], mem)
    requires forall i | 0 <= i < |es| :: ExprEq(es[i], fs[i])
    ensures seq(|es|, i requires 0 <= i < |es| => Eval(I, es[i], env)) == seq(|fs|, i requires 0 <= i < |fs| => Eval(I, fs[i], env))
    decreases es, 0
  {
    forall i | 0 <= i < |es|
      ensures Eval(I, es[i], env) == Eval(I, fs[i], env)
    {
      EqualTreesMeanTheSame(I, es[i], fs[i], mem, env);
    }
  }

  lemma {:induction false} EqualLambdasMeanTheSame<V(!new)>(I: Interp<V>, a: Expr, b: Expr, mem: nat -> CV.Vec, env: imap<string, V>)
    requires Respects(I) && a.Lambda? && b.Lambda? && WellFormed(a) && WellFormed(b) && Total(env)
    requires ConstantsReadable(a) && ConstantsReadable(b) && Placed(a, mem) && Placed(b, mem) && ExprEq(a, b)
    ensures Eval(I, a, env) == Eval(I, b, env)
    decreases a, 0
  {
    var names := a.params.names;
    assert b.params.names == names;
    forall args: seq<V> | |args| == |names|
      ensures Eval(I, a.body, Extend(env, names, args)) == Eval(I, b.body, Extend(env, names, args))
    {
      EqualTreesMeanTheSame(I, a.body, b.body, mem, Extend(env, names, args));
    }
    assert Graph(I, names, a.body, env) == Graph(I, names, b.body, env);
  }
}
