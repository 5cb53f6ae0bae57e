/** Typed expression trees and rewriteInputNames (bolt/core/Expressions.h, bolt/core/ITypedExpr.h). */
module Expressions {
  import opened Types
  import CV = ConstantValues

  /** A scalar literal; floating-point literals keep their exact bits. */
  datatype Variant =
    | NullVariant(kind: TypeKind)
    | RealVariant(bits: nat)
    | DoubleVariant(bits: nat)
    | OtherVariant(otherKind: TypeKind, payload: int)

  /** The value of a ConstantTypedExpr: a variant, or position 0 of a vector. */
  datatype Payload = ScalarPayload(variant: Variant) | VectorPayload(vector: CV.Vec)

  /** The eight node classes. `Column` and `FieldAccess` are the two forms of FieldAccessTypedExpr,
      without and with an input. */
  datatype Expr =
    | Input(typ: Type)
    | Constant(typ: Type, payload: Payload)
    | Call(typ: Type, name: string, inputs: seq<Expr>)
    | Column(typ: Type, name: string)
    | FieldAccess(typ: Type, input: Expr, name: string)
    | Dereference(typ: Type, input: Expr, index: nat)
    | Concat(typ: Type, inputs: seq<Expr>)
    | Lambda(params: Type, body: Expr)
    | Cast(typ: Type, input: Expr, nullOnFailure: bool)

  function ExprType(e: Expr): Type {
    if e.Lambda? then
      Function((if e.params.Row? then e.params.children else []) + [ExprType(e.body)])
    else e.typ
  }

  /** ConcatTypedExpr::toType. */
  function ConcatType(names: seq<string>, inputs: seq<Expr>): Type
    requires |names| <= |inputs|
  {
    Row(names, seq(|names|, i requires 0 <= i < |names| => ExprType(inputs[i])))
  }

  /** A lambda has the function type from its parameters to its body, a row constructor the row of its inputs. */
  lemma TypesOfBuiltNodes(params: Type, body: Expr, names: seq<string>, inputs: seq<Expr>)
    requires params.Row? && |names| <= |inputs|
    ensures var t := ExprType(Lambda(params, body));
            && t.Function? && |t.signature| == |params.children| + 1
            && t.signature[|params.children|] == ExprType(body)
            && forall i | 0 <= i < |params.children| :: t.signature[i] == params.children[i]
    ensures var t := ConcatType(names, inputs);
            && t.Row? && t.names == names && |t.children| == |names|
            && forall i | 0 <= i < |names| :: t.children[i] == ExprType(inputs[i])
  {
  }

  /** What the constructors establish. */
  predicate WellFormed(e: Expr) {
    match e
    case Input(_) => true
    case Constant(t, p) => p.VectorPayload? ==> t == CV.TypeOf(p.vector)
    case Call(_, _, es) => forall i | 0 <= i < |es| :: WellFormed(es[i])
    case Column(_, _) => true
    case FieldAccess(_, x, _) => WellFormed(x)
    case Dereference(_, x, _) => WellFormed(x) && !x.Input?
    case Concat(t, es) =>
      && (forall i | 0 <= i < |es| :: WellFormed(es[i]))
      && t.Row? && |t.names| <= |es| && t == ConcatType(t.names, es)
    case Lambda(ps, b) => ps.Row? && WellFormed(b)
    case Cast(_, x, _) => WellFormed(x)
  }

  type Mapping = map<string, Expr>

  /** The name a field over the input row gets: the name of the field access it is mapped to, if any. */
  function NewName(name: string, m: Mapping): string {
    if name in m && (m[name].Column? || m[name].FieldAccess?) then m[name].name else name
  }

  predicate BindsMapped(params: Type, m: Mapping) {
    params.Row? && exists n :: n in params.names && n in m
  }

  /** rewriteInputNames of all classes; a failed BOLT_USER_CHECK or BOLT_USER_FAIL is `Failure`. */
  function RewriteInputNames(e: Expr, m: Mapping): Result<Expr>
    requires WellFormed(e)
    decreases e
  {
    match e
    case Input(_) => Success(e)
    case Constant(_, _) => Success(e)
    case Column(t, n) => Success(if n in m then m[n] else e)
    case FieldAccess(t, x, n) =>
      (match RewriteInputNames(x, m)
       case Failure(msg) => Failure(msg)
       case Success(x') => Success(FieldAccess(t, x', if x'.Input? then NewName(n, m) else n)))
    case Dereference(t, x, i) =>
      (match RewriteInputNames(x, m)
       case Failure(msg) => Failure(msg)
       case Success(x') => if x'.Input? then Failure("dereference of a top level column") else Success(Dereference(t, x', i)))
    case Cast(t, x, b) =>
      (match RewriteInputNames(x, m)
       case Failure(msg) => Failure(msg)
       case Success(x') => Success(Cast(t, x', b)))
    case Lambda(ps, body) =>
      if BindsMapped(ps, m) then Failure("Ambiguous variable")
      else
        (match RewriteInputNames(body, m)
         case Failure(msg) => Failure(msg)
         case Success(body') => Success(Lambda(ps, body')))
    case Call(t, n, es) =>
      (match RewriteInputs(es, m)
       case Failure(msg) => Failure(msg)
       case Success(es') => Success(Call(t, n, es')))
    case Concat(t, es) =>
      (match RewriteInputs(es, m)
       case Failure(msg) => Failure(msg)
       case Success(es') => Success(Concat(ConcatType(t.names, es'), es')))
  }

  /** rewriteInputsRecursive. */
  function RewriteInputs(es: seq<Expr>, m: Mapping): (r: Result<seq<Expr>>)
    requires forall i | 0 <= i < |es| :: WellFormed(es[i])
    ensures r.Success? ==> |r.value| == |es|
    ensures r.Success? ==> forall i | 0 <= i < |es| :: RewriteInputNames(es[i], m) == Success(r.value[i])
    ensures r.Failure? ==> exists i | 0 <= i < |es| :: RewriteInputNames(es[i], m).Failure?
    decreases es
  {
    if es == [] then Success([])
    else
      match RewriteInputNames(es[0], m)
      case Failure(msg) => Failure(msg)
      case Success(e') =>
        match RewriteInputs(es[1..], m)
        case Failure(msg) => Failure(msg)
        case Success(es') => Success([e'] + es')
  }

  /** The loop of rewriteInputsRecursive as it runs; an exception ends it with a failure. */
  method RewriteInputsRecursive(es: seq<Expr>, m: Mapping) returns (r: Result<seq<Expr>>)
    requires forall i | 0 <= i < |es| :: WellFormed(es[i])
    ensures r.Success? <==> RewriteInputs(es, m).Success?
    ensures r.Success? ==> r == RewriteInputs(es, m)
  {
    var newInputs: seq<Expr> := [];
    for k := 0 to |es|
      invariant |newInputs| == k
      invariant forall i | 0 <= i < k :: RewriteInputNames(es[i], m) == Success(newInputs[i])
    {
      var e' := RewriteInputNames(es[k], m);
      if e'.Failure? {
        return Failure(e'.message);
      }
      newInputs := newInputs + [e'.value];
    }
    assert newInputs == RewriteInputs(es, m).value;
    r := Success(newInputs);
  }

  // ----- when rewriting succeeds -----

  function Params(params: Type): seq<string> {
    if params.Row? then params.names else []
  }

  /** A lambda cannot be rewritten exactly when one of its parameters is a key of the mapping, or its body cannot. */
  lemma LambdaFailsIff(params: Type, body: Expr, m: Mapping)
    requires WellFormed(Lambda(params, body))
    ensures RewriteInputNames(Lambda(params, body), m).Failure? <==>
            (exists i | 0 <= i < |params.names| :: params.names[i] in m) || RewriteInputNames(body, m).Failure?
    ensures RewriteInputNames(Lambda(params, body), m).Success? ==>
            RewriteInputNames(Lambda(params, body), m).value == Lambda(params, RewriteInputNames(body, m).value)
  {
    if i :| 0 <= i < |params.names| && params.names[i] in m { assert params.names[i] in params.names; }
  }

  /** No lambda binds a mapped name, and no dereferenced column is mapped to the bare input row. */
  predicate Rewritable(e: Expr, m: Mapping) {
    match e
    case Input(_) => true
    case Constant(_, _) => true
    case Column(_, _) => true
    case FieldAccess(_, x, _) => Rewritable(x, m)
    case Cast(_, x, _) => Rewritable(x, m)
    case Dereference(_, x, _) => Rewritable(x, m) && !(x.Column? && x.name in m && m[x.name].Input?)
    case Lambda(ps, b) => Rewritable(b, m) && forall i | 0 <= i < |Params(ps)| :: Params(ps)[i] !in m
    case Call(_, _, es) => forall i | 0 <= i < |es| :: Rewritable(es[i], m)
    case Concat(_, es) => forall i | 0 <= i < |es| :: Rewritable(es[i], m)
  }

  lemma {:induction false} RewriteSucceedsIffRewritable(e: Expr, m: Mapping)
    requires WellFormed(e)
    ensures RewriteInputNames(e, m).Success? <==> Rewritable(e, m)
  {
    match e
    case FieldAccess(_, x, _) => RewriteSucceedsIffRewritable(x, m);
    case Cast(_, x, _) => RewriteSucceedsIffRewritable(x, m);
    case Dereference(_, x, _) => RewriteSucceedsIffRewritable(x, m);
    case Lambda(ps, b) =>
      RewriteSucceedsIffRewritable(b, m);
      LambdaFailsIff(ps, b, m);
      assert Params(ps) == ps.names && e == Lambda(ps, b);
      assert Rewritable(e, m) <==> Rewritable(b, m) && !exists i | 0 <= i < |ps.names| :: ps.names[i] in m;
    case Call(_, _, es) => forall i | 0 <= i < |es| { RewriteSucceedsIffRewritable(es[i], m); }
    case Concat(_, es) => forall i | 0 <= i < |es| { RewriteSucceedsIffRewritable(es[i], m); }
    case _ =>
  }

  /** The names that lambdas anywhere in the tree bind. */
  function BoundNames(e: Expr): set<string> {
    match e
    case Input(_) => {}
    case Constant(_, _) => {}
    case Column(_, _) => {}
    case FieldAccess(_, x, _) => BoundNames(x)
    case Cast(_, x, _) => BoundNames(x)
    case Dereference(_, x, _) => BoundNames(x)
    case Lambda(ps, b) => BoundNames(b) + set n | n in Params(ps)
    case Call(_, _, es) => set i, n | 0 <= i < |es| && n in BoundNames(es[i]) :: n
    case Concat(_, es) => set i, n | 0 <= i < |es| && n in BoundNames(es[i]) :: n
  }

  /** A mapping that keeps away from all lambda parameters and brings in no bare input row always succeeds. */
  lemma {:induction false} FreshMappingSucceeds(e: Expr, m: Mapping)
    requires WellFormed(e) && BoundNames(e) !! m.Keys && forall n :: n in m ==> !m[n].Input?
    ensures RewriteInputNames(e, m).Success?
    decreases e, 1
  {
    match e
    case FieldAccess(_, x, _) => FreshMappingSucceeds(x, m);
    case Cast(_, x, _) => FreshMappingSucceeds(x, m);
    case Dereference(_, x, _) => FreshMappingSucceeds(x, m);
    case Lambda(ps, b) => FreshMappingSucceeds(b, m); LambdaFailsIff(ps, b, m);
    case Call(_, _, es) => FreshInputsSucceed(e, es, m);
    case Concat(_, es) => FreshInputsSucceed(e, es, m);
    case _ =>
  }

  lemma {:induction false} FreshInputsSucceed(e: Expr, es: seq<Expr>, m: Mapping)
    requires (e.Call? || e.Concat?) && e.inputs == es && WellFormed(e)
    requires BoundNames(e) !! m.Keys && forall n :: n in m ==> !m[n].Input?
    ensures RewriteInputs(es, m).Success?
    decreases e, 0
  {
    forall i | 0 <= i < |es|
      ensures RewriteInputNames(es[i], m).Success?
    {
      assert BoundNames(es[i]) <= BoundNames(e);
      FreshMappingSucceeds(es[i], m);
    }
  }

  // ----- types and constructor invariants -----

  ghost predicate WellFormedRange(m: Mapping) {
    forall n :: n in m ==> WellFormed(m[n])
  }

  /** Each mapped column that occurs is replaced by an expression of its own type. */
  predicate TypePreserving(e: Expr, m: Mapping) {
    match e
    case Input(_) => true
    case Constant(_, _) => true
    case Column(t, n) => n in m ==> ExprType(m[n]) == t
    case FieldAccess(_, x, _) => TypePreserving(x, m)
    case Cast(_, x, _) => TypePreserving(x, m)
    case Dereference(_, x, _) => TypePreserving(x, m)
    case Lambda(_, b) => TypePreserving(b, m)
    case Call(_, _, es) => forall i | 0 <= i < |es| :: TypePreserving(es[i], m)
    case Concat(_, es) => forall i | 0 <= i < |es| :: TypePreserving(es[i], m)
  }

  /** Rewriting builds well-formed trees, and keeps the type when the mapping does. */
  lemma {:induction false} RewritePreservesType(e: Expr, m: Mapping)
    requires WellFormed(e) && WellFormedRange(m) && RewriteInputNames(e, m).Success?
    ensures WellFormed(RewriteInputNames(e, m).value)
    ensures TypePreserving(e, m) ==> ExprType(RewriteInputNames(e, m).value) == ExprType(e)
  {
    match e
    case FieldAccess(_, x, _) => RewritePreservesType(x, m);
    case Cast(_, x, _) => RewritePreservesType(x, m);
    case Dereference(_, x, _) => RewritePreservesType(x, m);
    case Lambda(_, b) => RewritePreservesType(b, m);
    case Call(_, _, es) =>
      forall i | 0 <= i < |es| { RewritePreservesType(es[i], m); }
    case Concat(t, es) =>
      forall i | 0 <= i < |es| { RewritePreservesType(es[i], m); }
      var es' := RewriteInputs(es, m).value;
      if TypePreserving(e, m) {
        assert ConcatType(t.names, es').children == t.children;
      }
    case _ =>
  }
}
