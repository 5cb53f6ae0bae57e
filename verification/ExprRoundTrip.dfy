/** create after serialize gives an equal expression (bolt/core/Expressions.cpp:248-476, bolt/type/Variant.cpp:514-723). */
module ExprRoundTrip {
  import opened Types
  import opened Expressions
  import opened ExprEquality
  import opened ExprSerde
  import CV = ConstantValues

  /** The restored vector has the type of the saved one and the same value at position 0. */
  ghost predicate SameConstant(w: Option<CV.Vec>, v: CV.Vec) {
    && CV.Readable(Some(v), 0, CV.TypeOf(v))
    && w.Some? && CV.TypeOf(w.value) == CV.TypeOf(v) && CV.Readable(w, 0, CV.TypeOf(v))
    && CV.Decode(w.value, 0) == CV.Decode(v, 0)
  }

  /** What saveVector and restoreVector promise. */
  ghost predicate Lossless(c: Codec) {
    forall v: CV.Vec | CV.Readable(Some(v), 0, CV.TypeOf(v)) :: SameConstant(c.restore(c.save(v)), v)
  }

  predicate LiteralsFit(e: Expr) {
    match e
    case Input(_) => true
    case Column(_, _) => true
    case Constant(_, p) => p.ScalarPayload? ==> LiteralFits(p.variant)
    case Call(_, _, es) => forall i | 0 <= i < |es| :: LiteralsFit(es[i])
    case FieldAccess(_, x, _) => LiteralsFit(x)
    case Dereference(_, x, _) => LiteralsFit(x)
    case Concat(_, es) => forall i | 0 <= i < |es| :: LiteralsFit(es[i])
    case Lambda(_, b) => LiteralsFit(b)
    case Cast(_, x, _) => LiteralsFit(x)
  }

  /** Every vector constant comes back with its type and value. */
  ghost predicate ConstantsKept(c: Codec, e: Expr) {
    match e
    case Input(_) => true
    case Column(_, _) => true
    case Constant(_, p) => p.VectorPayload? ==> SameConstant(c.restore(c.save(p.vector)), p.vector)
    case Call(_, _, es) => forall i | 0 <= i < |es| :: ConstantsKept(c, es[i])
    case FieldAccess(_, x, _) => ConstantsKept(c, x)
    case Dereference(_, x, _) => ConstantsKept(c, x)
    case Concat(_, es) => forall i | 0 <= i < |es| :: ConstantsKept(c, es[i])
    case Lambda(_, b) => ConstantsKept(c, b)
    case Cast(_, x, _) => ConstantsKept(c, x)
  }

  lemma {:induction false} LosslessKeeps(c: Codec, e: Expr)
    requires Lossless(c) && WellFormed(e) && ConstantsReadable(e)
    ensures ConstantsKept(c, e)
  {
    match e
    case FieldAccess(_, x, _) => LosslessKeeps(c, x);
    case Dereference(_, x, _) => LosslessKeeps(c, x);
    case Cast(_, x, _) => LosslessKeeps(c, x);
    case Lambda(_, b) => LosslessKeeps(c, b);
    case Call(_, _, es) => forall i | 0 <= i < |es| { LosslessKeeps(c, es[i]); }
    case Concat(_, es) => forall i | 0 <= i < |es| { LosslessKeeps(c, es[i]); }
    case _ =>
  }

  lemma {:induction false} KeptRestores(c: Codec, e: Expr)
    requires ConstantsKept(c, e) && WellFormed(e)
    ensures Restorable(c, e) && ConstantsReadable(Restored(c, e))
  {
    match e
    case FieldAccess(_, x, _) => KeptRestores(c, x);
    case Dereference(_, x, _) => KeptRestores(c, x);
    case Cast(_, x, _) => KeptRestores(c, x);
    case Lambda(_, b) => KeptRestores(c, b);
    case Call(_, _, es) => forall i | 0 <= i < |es| { KeptRestores(c, es[i]); }
    case Concat(_, es) => forall i | 0 <= i < |es| { KeptRestores(c, es[i]); }
    case _ =>
  }

  lemma RestoredConstantEqual(c: Codec, e: Expr, mem: nat -> CV.Vec)
    requires ConstantsKept(c, e) && WellFormed(e) && ConstantsReadable(e) && e.Constant?
    requires Restorable(c, e) && ConstantsReadable(Restored(c, e))
    requires Placed(e, mem) && Placed(Restored(c, e), mem)
    ensures ConstantEq(Restored(c, e), e) <==> LiteralsFit(e)
  {
    TypeEqReflexive(e.typ);
    ConstantEqIffSameValue(Restored(c, e), e, mem);
  }

  lemma {:induction false} RestoredEqualIff(c: Codec, e: Expr, mem: nat -> CV.Vec)
    requires ConstantsKept(c, e) && WellFormed(e) && ConstantsReadable(e)
    requires Restorable(c, e) && ConstantsReadable(Restored(c, e))
    requires Placed(e, mem) && Placed(Restored(c, e), mem)
    ensures ExprEq(Restored(c, e), e) <==> LiteralsFit(e)
    decreases e
  {
    TypeEqReflexive(ExprType(e));
    match e
    case Constant(_, _) => RestoredConstantEqual(c, e, mem);
    case FieldAccess(_, x, _) => RestoredEqualIff(c, x, mem);
    case Dereference(_, x, _) => RestoredEqualIff(c, x, mem);
    case Cast(_, x, _) => RestoredEqualIff(c, x, mem);
    case Lambda(ps, b) => TypeEqReflexive(ps); RestoredEqualIff(c, b, mem);
    case Call(_, _, es) => RestoredAllEqual(c, es, Restored(c, e).inputs, mem);
    case Concat(_, es) => RestoredAllEqual(c, es, Restored(c, e).inputs, mem);
    case _ =>
  }

  lemma {:induction false} RestoredAllEqual(c: Codec, es: seq<Expr>, rs: seq<Expr>, mem: nat -> CV.Vec)
    requires |rs| == |es|
    requires forall i | 0 <= i < |es| :: ConstantsKept(c, es[i]) && WellFormed(es[i]) && ConstantsReadable(es[i]) && Placed(es[i], mem)
    requires forall i | 0 <= i < |es| ::
               Restorable(c, es[i]) && rs[i] == Restored(c, es[i]) && ConstantsReadable(rs[i]) && Placed(rs[i], mem)
    ensures forall i | 0 <= i < |es| :: ExprEq(rs[i], es[i]) <==> LiteralsFit(es[i])
    decreases es
  {
    forall i | 0 <= i < |es| {
      RestoredEqualIff(c, es[i], mem);
    }
  }

  /** create(serialize(e)) exists for every well-formed tree whose constants come back, and equals it exactly
      when every 128-bit literal is inside the 64-bit range. */
  lemma RoundTripEqualIffLiteralsFit(c: Codec, e: Expr, mem: nat -> CV.Vec)
    requires ConstantsKept(c, e) && WellFormed(e) && ConstantsReadable(e) && Placed(e, mem)
    requires Restorable(c, e) ==> Placed(Restored(c, e), mem)
    ensures Restorable(c, e) && Create(c, Serialize(c, e)) == Success(Restored(c, e))
    ensures ConstantsReadable(Restored(c, e)) && (ExprEq(Restored(c, e), e) <==> LiteralsFit(e))
  {
    KeptRestores(c, e);
    CreateAfterSerialize(c, e);
    RestoredEqualIff(c, e, mem);
  }

  /** With a lossless vector codec this is every well-formed tree. */
  lemma LosslessRoundTrip(c: Codec, e: Expr, mem: nat -> CV.Vec)
    requires Lossless(c) && WellFormed(e) && ConstantsReadable(e) && Placed(e, mem)
    requires Restorable(c, e) ==> Placed(Restored(c, e), mem)
    ensures Create(c, Serialize(c, e)).Success?
    ensures var r := Create(c, Serialize(c, e)).value;
            ConstantsReadable(r) && (ExprEq(r, e) <==> LiteralsFit(e))
  {
    LosslessKeeps(c, e);
    RoundTripEqualIffLiteralsFit(c, e, mem);
  }

  /** A 128-bit literal outside the 64-bit range comes back as another literal. */
  lemma HugeLiteralChanges(c: Codec)
    ensures var e := Constant(Scalar(HUGEINT, []), ScalarPayload(OtherVariant(HUGEINT, TWO63)));
            Create(c, Serialize(c, e)) == Success(Constant(Scalar(HUGEINT, []), ScalarPayload(OtherVariant(HUGEINT, -TWO63))))
  {
    var e := Constant(Scalar(HUGEINT, []), ScalarPayload(OtherVariant(HUGEINT, TWO63)));
    CreateAfterSerialize(c, e);
  }
}
