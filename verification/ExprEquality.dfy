/** Expression operator== and hash() (bolt/core/Expressions.h, bolt/core/Expressions.cpp, bolt/core/ITypedExpr.h). */
module ExprEquality {
  import opened Types
  import opened Expressions
  import CV = ConstantValues
  import CH = ConstantHash

  /** Every vector constant holds a value of its type at position 0. */
  predicate ConstantsReadable(e: Expr) {
    match e
    case Input(_) => true
    case Column(_, _) => true
    case Constant(t, p) => p.VectorPayload? ==> CV.Readable(Some(p.vector), 0, t)
    case FieldAccess(_, x, _) => ConstantsReadable(x)
    case Dereference(_, x, _) => ConstantsReadable(x)
    case Cast(_, x, _) => ConstantsReadable(x)
    case Lambda(_, b) => ConstantsReadable(b)
    case Call(_, _, es) => forall i | 0 <= i < |es| :: ConstantsReadable(es[i])
    case Concat(_, es) => forall i | 0 <= i < |es| :: ConstantsReadable(es[i])
  }

  /** A tree over input rows of type `row`: Input nodes have that type, dereferences select an existing field. */
  predicate WellTyped(e: Expr, row: Type) {
    match e
    case Input(t) => Equivalent(t, row)
    case Column(_, _) => true
    case Constant(t, p) => p.VectorPayload? ==> CV.Readable(Some(p.vector), 0, t)
    case FieldAccess(_, x, _) => WellTyped(x, row)
    case Dereference(t, x, i) =>
      && WellTyped(x, row)
      && ExprType(x).Row? && i < |ExprType(x).children| && Equivalent(t, ExprType(x).children[i])
    case Cast(_, x, _) => WellTyped(x, row)
    case Lambda(ps, b) => ps.Row? && WellTyped(b, row)
    case Call(_, _, es) => forall i | 0 <= i < |es| :: WellTyped(es[i], row)
    case Concat(_, es) => forall i | 0 <= i < |es| :: WellTyped(es[i], row)
  }

  /** `mem` is the vector at each address; every vector of every constant is the one its address names. */
  ghost predicate Placed(e: Expr, mem: nat -> CV.Vec) {
    match e
    case Input(_) => true
    case Column(_, _) => true
    case Constant(_, p) => p.VectorPayload? ==> forall x :: CV.Contains(p.vector, x) ==> mem(x.addr) == x
    case FieldAccess(_, x, _) => Placed(x, mem)
    case Dereference(_, x, _) => Placed(x, mem)
    case Cast(_, x, _) => Placed(x, mem)
    case Lambda(_, b) => Placed(b, mem)
    case Call(_, _, es) => forall i | 0 <= i < |es| :: Placed(es[i], mem)
    case Concat(_, es) => forall i | 0 <= i < |es| :: Placed(es[i], mem)
  }

  function VariantKind(v: Variant): TypeKind {
    match v
    case NullVariant(k) => k
    case RealVariant(_) => REAL
    case DoubleVariant(_) => DOUBLE
    case OtherVariant(k, _) => k
  }

  /** ConstantTypedExpr::equals on the scalar literals. */
  predicate VariantEq(a: Variant, b: Variant) {
    if VariantKind(a) != VariantKind(b) then false
    else if a.RealVariant? && b.RealVariant? then a.bits == b.bits
    else if a.DoubleVariant? && b.DoubleVariant? then a.bits == b.bits
    else a == b
  }

  /** ConstantTypedExpr::equals. */
  predicate ConstantEq(a: Expr, b: Expr)
    requires a.Constant? && b.Constant? && ConstantsReadable(a) && ConstantsReadable(b)
  {
    TypeEq(a.typ, b.typ) &&
    match (a.payload, b.payload)
    case (ScalarPayload(x), ScalarPayload(y)) => VariantEq(x, y)
    case (VectorPayload(v), VectorPayload(w)) =>
      EquivalentSymmetric(a.typ, b.typ);
      CV.HasTypeUpToEquivalence(w, b.typ, a.typ);
      CV.EqualConstantValues(Some(v), 0, Some(w), 0, a.typ)
    case _ => false
  }

  /** operator== of all classes. */
  predicate ExprEq(a: Expr, b: Expr)
    requires ConstantsReadable(a) && ConstantsReadable(b)
    decreases a
  {
    match (a, b)
    case (Input(_), Input(_)) => true
    case (Constant(_, _), Constant(_, _)) => ConstantEq(a, b)
    case (Column(t, n), Column(u, k)) => n == k && TypeEq(t, u)
    case (FieldAccess(t, x, n), FieldAccess(u, y, k)) => n == k && TypeEq(t, u) && ExprEq(x, y)
    case (Dereference(_, x, i), Dereference(_, y, j)) => i == j && ExprEq(x, y)
    case (Cast(t, x, p), Cast(u, y, q)) => p == q && TypeEq(t, u) && ExprEq(x, y)
    case (Lambda(ps, x), Lambda(qs, y)) =>
      TypeEq(ExprType(a), ExprType(b)) && TypeEq(ps, qs) && ExprEq(x, y)
    case (Call(t, n, es), Call(u, k, fs)) =>
      n == k && TypeEq(t, u) && |es| == |fs| && forall i | 0 <= i < |es| :: ExprEq(es[i], fs[i])
    case (Concat(t, es), Concat(u, fs)) =>
      TypeEq(t, u) && |es| == |fs| && forall i | 0 <= i < |es| :: ExprEq(es[i], fs[i])
    case _ => false
  }

  lemma {:induction false} WellTypedReadable(e: Expr, row: Type)
    requires WellTyped(e, row)
    ensures ConstantsReadable(e)
  {
    match e
    case FieldAccess(_, x, _) => WellTypedReadable(x, row);
    case Dereference(_, x, _) => WellTypedReadable(x, row);
    case Cast(_, x, _) => WellTypedReadable(x, row);
    case Lambda(_, b) => WellTypedReadable(b, row);
    case Call(_, _, es) => forall i | 0 <= i < |es| { WellTypedReadable(es[i], row); }
    case Concat(_, es) => forall i | 0 <= i < |es| { WellTypedReadable(es[i], row); }
    case _ =>
  }

  // ----- an equivalence relation -----

  lemma TypeEqReflexive(t: Type)
    ensures TypeEq(t, t)
  {
    EquivalentReflexive(t);
  }

  lemma {:induction false} ExprEqReflexive(e: Expr)
    requires ConstantsReadable(e)
    ensures ExprEq(e, e)
  {
    TypeEqReflexive(ExprType(e));
    match e
    case FieldAccess(_, x, _) => ExprEqReflexive(x);
    case Dereference(_, x, _) => ExprEqReflexive(x);
    case Cast(_, x, _) => ExprEqReflexive(x);
    case Lambda(ps, b) => TypeEqReflexive(ps); ExprEqReflexive(b);
    case Call(_, _, es) => forall i | 0 <= i < |es| { ExprEqReflexive(es[i]); }
    case Concat(_, es) => forall i | 0 <= i < |es| { ExprEqReflexive(es[i]); }
    case _ =>
  }

  /** The decoded value of a vector constant. */
  function ConstantValue(e: Expr): CV.Value
    requires e.Constant? && e.payload.VectorPayload? && ConstantsReadable(e)
  {
    CV.Decode(e.payload.vector, 0)
  }

  /** Constants are equal exactly when their types match and they hold the same bits. */
  lemma ConstantEqIffSameValue(a: Expr, b: Expr, mem: nat -> CV.Vec)
    requires a.Constant? && b.Constant? && ConstantsReadable(a) && ConstantsReadable(b)
    requires Placed(a, mem) && Placed(b, mem)
    ensures ConstantEq(a, b) <==>
            && TypeEq(a.typ, b.typ)
            && (a.payload.VectorPayload? <==> b.payload.VectorPayload?)
            && (a.payload.VectorPayload? && b.payload.VectorPayload? ==> ConstantValue(a) == ConstantValue(b))
            && (a.payload.ScalarPayload? && b.payload.ScalarPayload? ==> a.payload.variant == b.payload.variant)
  {
    if TypeEq(a.typ, b.typ) && a.payload.VectorPayload? && b.payload.VectorPayload? {
      EquivalentSymmetric(a.typ, b.typ);
      CV.HasTypeUpToEquivalence(b.payload.vector, b.typ, a.typ);
      var l, r := Some(a.payload.vector), Some(b.payload.vector);
      forall x, y | CV.Reaches(l, r, x) && CV.Reaches(l, r, y) && x.addr == y.addr
        ensures x == y
      {
        assert mem(x.addr) == x && mem(y.addr) == y;
      }
      CV.EqualConstantValuesIffSameValue(l, 0, r, 0, a.typ);
    }
  }

  lemma {:induction false} ExprEqSymmetric(a: Expr, b: Expr, mem: nat -> CV.Vec)
    requires ConstantsReadable(a) && ConstantsReadable(b) && Placed(a, mem) && Placed(b, mem)
    requires ExprEq(a, b)
    ensures ExprEq(b, a)
    decreases a
  {
    EquivalentSymmetric(ExprType(a), ExprType(b));
    match (a, b)
    case (Constant(_, _), Constant(_, _)) =>
      ConstantEqIffSameValue(a, b, mem);
      ConstantEqIffSameValue(b, a, mem);
    case (FieldAccess(_, x, _), FieldAccess(_, y, _)) => ExprEqSymmetric(x, y, mem);
    case (Dereference(_, x, _), Dereference(_, y, _)) => ExprEqSymmetric(x, y, mem);
    case (Cast(_, x, _), Cast(_, y, _)) => ExprEqSymmetric(x, y, mem);
    case (Lambda(ps, x), Lambda(qs, y)) => EquivalentSymmetric(ps, qs); ExprEqSymmetric(x, y, mem);
    case (Call(_, _, es), Call(_, _, fs)) => forall i | 0 <= i < |es| { ExprEqSymmetric(es[i], fs[i], mem); }
    case (Concat(_, es), Concat(_, fs)) => forall i | 0 <= i < |es| { ExprEqSymmetric(es[i], fs[i], mem); }
    case _ =>
  }

  lemma TypeEqTransitive(t: Type, u: Type, v: Type)
    requires TypeEq(t, u) && TypeEq(u, v)
    ensures TypeEq(t, v)
  {
    EquivalentTransitive(t, u, v);
  }

  lemma {:induction false} ExprEqTransitive(a: Expr, b: Expr, c: Expr, mem: nat -> CV.Vec)
    requires ConstantsReadable(a) && ConstantsReadable(b) && ConstantsReadable(c)
    requires Placed(a, mem) && Placed(b, mem) && Placed(c, mem)
    requires ExprEq(a, b) && ExprEq(b, c)
    ensures ExprEq(a, c)
    decreases a
  {
    match a
    case Input(_) =>
    case Constant(_, _) => ConstantEqTransitive(a, b, c, mem);
    case Column(_, _) => TypeEqTransitive(a.typ, b.typ, c.typ);
    case FieldAccess(_, x, _) => TypeEqTransitive(a.typ, b.typ, c.typ); ExprEqTransitive(x, b.input, c.input, mem);
    case Dereference(_, x, _) => ExprEqTransitive(x, b.input, c.input, mem);
    case Cast(_, x, _) => TypeEqTransitive(a.typ, b.typ, c.typ); ExprEqTransitive(x, b.input, c.input, mem);
    case Lambda(ps, x) =>
      TypeEqTransitive(ExprType(a), ExprType(b), ExprType(c));
      TypeEqTransitive(ps, b.params, c.params);
      ExprEqTransitive(x, b.body, c.body, mem);
    case Call(_, _, es) => TypeEqTransitive(a.typ, b.typ, c.typ); InputsEqTransitive(es, b.inputs, c.inputs, mem);
    case Concat(_, es) => TypeEqTransitive(a.typ, b.typ, c.typ); InputsEqTransitive(es, b.inputs, c.inputs, mem);
  }

  lemma ConstantEqTransitive(a: Expr, b: Expr, c: Expr, mem: nat -> CV.Vec)
    requires a.Constant? && b.Constant? && c.Constant?
    requires ConstantsReadable(a) && ConstantsReadable(b) && ConstantsReadable(c)
    requires Placed(a, mem) && Placed(b, mem) && Placed(c, mem)
    requires ConstantEq(a, b) && ConstantEq(b, c)
    ensures ConstantEq(a, c)
  {
    ConstantEqIffSameValue(a, b, mem);
    ConstantEqIffSameValue(b, c, mem);
    TypeEqTransitive(a.typ, b.typ, c.typ);
    ConstantEqIffSameValue(a, c, mem);
  }

  lemma {:induction false} InputsEqTransitive(xs: seq<Expr>, ys: seq<Expr>, zs: seq<Expr>, mem: nat -> CV.Vec)
    requires |xs| == |ys| == |zs|
    requires forall i | 0 <= i < |xs| :: ConstantsReadable(xs[i]) && ConstantsReadable(ys[i]) && ConstantsReadable(zs[i])
    requires forall i | 0 <= i < |xs| :: Placed(xs[i], mem) && Placed(ys[i], mem) && Placed(zs[i], mem)
    requires forall i | 0 <= i < |xs| :: ExprEq(xs[i], ys[i]) && ExprEq(ys[i], zs[i])
    ensures forall i | 0 <= i < |xs| :: ExprEq(xs[i], zs[i])
    decreases xs
  {
    forall i | 0 <= i < |xs| {
      ExprEqTransitive(xs[i], ys[i], zs[i], mem);
    }
  }

  // ----- hash -----

  /** The hash primitives beyond those on vectors: class-name bases, strings, and variant::hash. */
  datatype ExprHashing = ExprHashing(
    values: CH.Hashing,
    base: string -> nat,
    text: string -> nat,
    variant: Variant -> nat)

  function VariantHash(h: ExprHashing, v: Variant): nat {
    match v
    case RealVariant(bits) => h.values.word(bits)
    case DoubleVariant(bits) => h.values.word(bits)
    case _ => h.variant(v)
  }

  function LocalHash(h: ExprHashing, e: Expr): nat
    requires ConstantsReadable(e)
    decreases e, 0
  {
    var mix := h.values.mix;
    match e
    case Input(_) => h.base("InputTypedExpr")
    case Constant(t, p) =>
      mix(h.base("ConstantTypedExpr"),
          match p
          case VectorPayload(v) =>
            if CV.NeedsConstantValueHash(t) then CH.HashConstantValue(h.values, Some(v), 0, t) else h.values.valueAt(v, 0)
          case ScalarPayload(v) => VariantHash(h, v))
    case Call(_, n, _) => mix(h.base("CallTypedExpr"), h.text(n))
    case Column(_, n) => mix(h.base("FieldAccessTypedExpr"), h.text(n))
    case FieldAccess(_, _, n) => mix(h.base("FieldAccessTypedExpr"), h.text(n))
    case Dereference(_, _, i) => mix(h.base("DereferenceTypedExpr"), i)
    case Concat(_, _) => h.base("ConcatTypedExpr")
    case Lambda(_, b) => mix(h.base("LambdaTypedExpr"), Hash(h, b))
    case Cast(_, _, b) => mix(h.base("CastTypedExpr"), if b then 1 else 0)
  }

  /** ITypedExpr::inputs. */
  function Inputs(e: Expr): (es: seq<Expr>)
    ensures forall i | 0 <= i < |es| :: es[i] < e
  {
    match e
    case Call(_, _, es) => es
    case Concat(_, es) => es
    case FieldAccess(_, x, _) => [x]
    case Dereference(_, x, _) => [x]
    case Cast(_, x, _) => [x]
    case _ => []
  }

  /** ITypedExpr::hash. */
  function Hash(h: ExprHashing, e: Expr): nat
    requires ConstantsReadable(e)
    decreases e, |Inputs(e)| + 2
  {
    RunningHash(h, e, |Inputs(e)|)
  }

  /** The running value of hash() after `n` inputs. */
  function RunningHash(h: ExprHashing, e: Expr, n: nat): nat
    requires ConstantsReadable(e) && n <= |Inputs(e)|
    decreases e, n + 1
  {
    if n == 0 then h.values.mix(HashKind(ExprType(e)), LocalHash(h, e))
    else h.values.mix(RunningHash(h, e, n - 1), Hash(h, Inputs(e)[n - 1]))
  }

  /** The loop of hash() as it runs. */
  method ComputeHash(h: ExprHashing, e: Expr) returns (hash: nat)
    requires ConstantsReadable(e)
    ensures hash == Hash(h, e)
  {
    hash := h.values.mix(HashKind(ExprType(e)), LocalHash(h, e));
    for i := 0 to |Inputs(e)|
      invariant hash == RunningHash(h, e, i)
    {
      hash := h.values.mix(hash, Hash(h, Inputs(e)[i]));
    }
  }

  /** Equal trees over one input row type have equivalent types, although Input and Dereference compare none. */
  lemma {:induction false} EqualTreesHaveEquivalentTypes(a: Expr, b: Expr, row: Type)
    requires WellTyped(a, row) && WellTyped(b, row) && ConstantsReadable(a) && ConstantsReadable(b)
    requires ExprEq(a, b)
    ensures Equivalent(ExprType(a), ExprType(b))
    decreases a
  {
    match (a, b)
    case (Input(t), Input(u)) =>
      EquivalentSymmetric(u, row);
      EquivalentTransitive(t, row, u);
    case (Dereference(t, x, i), Dereference(u, y, _)) =>
      EqualTreesHaveEquivalentTypes(x, y, row);
      var s, r := ExprType(x).children[i], ExprType(y).children[i];
      EquivalentTransitive(t, s, r);
      EquivalentSymmetric(u, r);
      EquivalentTransitive(t, r, u);
    case _ =>
  }
}
