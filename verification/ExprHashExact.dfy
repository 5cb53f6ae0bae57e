/** When equal expressions hash equally: exactly when the kinds of their types agree throughout
    (bolt/core/ITypedExpr.h:89-95, bolt/core/Expressions.h, bolt/core/Expressions.cpp:290-310). */
module ExprHashExact {
  import opened Types
  import opened Expressions
  import opened ExprEquality
  import CV = ConstantValues
  import CH = ConstantHash

  /** The types of corresponding subtrees, lambda bodies included, have equal kind hashes. */
  predicate SameKinds(a: Expr, b: Expr)
    decreases a
  {
    && HashKind(ExprType(a)) == HashKind(ExprType(b))
    && (a.Lambda? && b.Lambda? ==> SameKinds(a.body, b.body))
    && |Inputs(a)| == |Inputs(b)|
    && forall i | 0 <= i < |Inputs(a)| :: SameKinds(Inputs(a)[i], Inputs(b)[i])
  }

  predicate ApartAt(mix: (nat, nat) -> nat, x: nat, y: nat, z: nat, w: nat) {
    mix(x, y) == mix(z, w) ==> x == z && y == w
  }

  /** The mixing function tells its argument pairs apart. */
  ghost predicate TellsApart(mix: (nat, nat) -> nat) {
    forall x, y, z, w :: ApartAt(mix, x, y, z, w)
  }

  lemma EqualConstantsHashEqually(h: ExprHashing, a: Expr, b: Expr, mem: nat -> CV.Vec)
    requires CH.ValueHashContract(h.values)
    requires a.Constant? && b.Constant? && ConstantsReadable(a) && ConstantsReadable(b)
    requires Placed(a, mem) && Placed(b, mem) && ConstantEq(a, b)
    ensures LocalHash(h, a) == LocalHash(h, b)
  {
    ConstantEqIffSameValue(a, b, mem);
    if a.payload.VectorPayload? {
      var v, w, t := a.payload.vector, b.payload.vector, a.typ;
      CH.NeedsHashUpToEquivalence(a.typ, b.typ);
      if CV.NeedsConstantValueHash(t) {
        CH.HashDependsOnlyOnValue(h.values, Some(v), 0, t, Some(w), 0, b.typ);
      } else {
        EquivalentSymmetric(a.typ, b.typ);
        CV.HasTypeUpToEquivalence(w, b.typ, t);
        assert CH.SameValueHashInput(v, 0, w, 0, t);
      }
    }
  }

  /** The inputs of equal trees are equal one by one. */
  lemma EqualInputs(a: Expr, b: Expr, mem: nat -> CV.Vec, k: nat)
    requires Placed(a, mem) && Placed(b, mem)
    requires ConstantsReadable(a) && ConstantsReadable(b) && ExprEq(a, b) && k < |Inputs(a)|
    ensures k < |Inputs(b)| == |Inputs(a)|
    ensures var x, y := Inputs(a)[k], Inputs(b)[k];
            && Placed(x, mem) && Placed(y, mem) && ConstantsReadable(x) && ConstantsReadable(y) && ExprEq(x, y)
  {
  }

  predicate SameInputHash(h: ExprHashing, a: Expr, b: Expr, k: nat)
    requires ConstantsReadable(a) && ConstantsReadable(b) && k < |Inputs(a)| == |Inputs(b)|
  {
    Hash(h, Inputs(a)[k]) == Hash(h, Inputs(b)[k])
  }

  lemma {:induction false} InputsHashEqually(h: ExprHashing, a: Expr, b: Expr, n: nat)
    requires ConstantsReadable(a) && ConstantsReadable(b) && n <= |Inputs(a)| == |Inputs(b)|
    requires forall k | 0 <= k < n :: SameInputHash(h, a, b, k)
    requires RunningHash(h, a, 0) == RunningHash(h, b, 0)
    ensures RunningHash(h, a, n) == RunningHash(h, b, n)
    decreases n
  {
    if n > 0 {
      InputsHashEqually(h, a, b, n - 1);
      assert SameInputHash(h, a, b, n - 1);
    }
  }

  lemma MixApart(mix: (nat, nat) -> nat, x: nat, y: nat, z: nat, w: nat)
    requires TellsApart(mix) && mix(x, y) == mix(z, w)
    ensures x == z && y == w
  {
    assert ApartAt(mix, x, y, z, w);
  }

  /** Equal running hashes after an input come from equal ones before it and equal hashes of the input. */
  lemma RunningHashApart(h: ExprHashing, a: Expr, b: Expr, n: nat)
    requires TellsApart(h.values.mix)
    requires ConstantsReadable(a) && ConstantsReadable(b) && n < |Inputs(a)| == |Inputs(b)|
    requires RunningHash(h, a, n + 1) == RunningHash(h, b, n + 1)
    ensures RunningHash(h, a, n) == RunningHash(h, b, n) && SameInputHash(h, a, b, n)
  {
    MixApart(h.values.mix, RunningHash(h, a, n), Hash(h, Inputs(a)[n]), RunningHash(h, b, n), Hash(h, Inputs(b)[n]));
  }

  ghost predicate SameInputHashes(h: ExprHashing, a: Expr, b: Expr, n: nat)
    requires ConstantsReadable(a) && ConstantsReadable(b) && n <= |Inputs(a)| == |Inputs(b)|
  {
    RunningHash(h, a, 0) == RunningHash(h, b, 0) && forall k | 0 <= k < n :: SameInputHash(h, a, b, k)
  }

  /** Equal running hashes come from equal parts. */
  lemma {:induction false} InputsHashedApart(h: ExprHashing, a: Expr, b: Expr, n: nat)
    requires TellsApart(h.values.mix)
    requires ConstantsReadable(a) && ConstantsReadable(b) && n <= |Inputs(a)| == |Inputs(b)|
    requires RunningHash(h, a, n) == RunningHash(h, b, n)
    ensures SameInputHashes(h, a, b, n)
    decreases n
  {
    if n > 0 {
      RunningHashApart(h, a, b, n - 1);
      InputsHashedApart(h, a, b, n - 1);
    }
  }

  /** The local hashes of equal trees agree, of lambdas if the bodies hash equally. */
  lemma EqualLocalHashes(h: ExprHashing, a: Expr, b: Expr, mem: nat -> CV.Vec)
    requires CH.ValueHashContract(h.values) && Placed(a, mem) && Placed(b, mem)
    requires ConstantsReadable(a) && ConstantsReadable(b) && ExprEq(a, b)
    requires a.Lambda? ==> Hash(h, a.body) == Hash(h, b.body)
    ensures LocalHash(h, a) == LocalHash(h, b)
  {
    if a.Constant? { EqualConstantsHashEqually(h, a, b, mem); }
  }

  /** Equal trees of the same kinds have equal hashes. */
  lemma {:induction false} SameKindsHashEqually(h: ExprHashing, a: Expr, b: Expr, mem: nat -> CV.Vec)
    requires CH.ValueHashContract(h.values) && Placed(a, mem) && Placed(b, mem)
    requires ConstantsReadable(a) && ConstantsReadable(b) && ExprEq(a, b) && SameKinds(a, b)
    ensures Hash(h, a) == Hash(h, b)
    decreases a
  {
    if a.Lambda? { SameKindsHashEqually(h, a.body, b.body, mem); }
    EqualLocalHashes(h, a, b, mem);
    forall k | 0 <= k < |Inputs(a)|
      ensures SameInputHash(h, a, b, k)
    {
      EqualInputs(a, b, mem, k);
      SameKindsHashEqually(h, Inputs(a)[k], Inputs(b)[k], mem);
    }
    InputsHashEqually(h, a, b, |Inputs(a)|);
  }

  /** Equal hashes before the inputs come from equal kinds, and of lambdas from equal hashes of the bodies. */
  lemma HeadsApart(h: ExprHashing, a: Expr, b: Expr)
    requires TellsApart(h.values.mix)
    requires ConstantsReadable(a) && ConstantsReadable(b) && RunningHash(h, a, 0) == RunningHash(h, b, 0)
    ensures HashKind(ExprType(a)) == HashKind(ExprType(b)) && LocalHash(h, a) == LocalHash(h, b)
    ensures a.Lambda? && b.Lambda? ==> Hash(h, a.body) == Hash(h, b.body)
  {
    MixApart(h.values.mix, HashKind(ExprType(a)), LocalHash(h, a), HashKind(ExprType(b)), LocalHash(h, b));
    if a.Lambda? && b.Lambda? {
      var base := h.base("LambdaTypedExpr");
      MixApart(h.values.mix, base, Hash(h, a.body), base, Hash(h, b.body));
    }
  }

  /** The hash leaves nothing out: trees with as many inputs and one hash agree in kind, in the hashes of their inputs,
      and, class by class, in function name, field name, field index, cast flag, body hash and constant hash. */
  lemma HashSeesEveryPart(h: ExprHashing, a: Expr, b: Expr)
    requires TellsApart(h.values.mix) && (forall m, n :: h.text(m) == h.text(n) ==> m == n)
    requires ConstantsReadable(a) && ConstantsReadable(b) && |Inputs(a)| == |Inputs(b)| && Hash(h, a) == Hash(h, b)
    ensures HashKind(ExprType(a)) == HashKind(ExprType(b))
    ensures forall k | 0 <= k < |Inputs(a)| :: SameInputHash(h, a, b, k)
    ensures a.Call? && b.Call? ==> a.name == b.name
    ensures (a.Column? || a.FieldAccess?) && (b.Column? || b.FieldAccess?) ==> a.name == b.name
    ensures a.Dereference? && b.Dereference? ==> a.index == b.index
    ensures a.Cast? && b.Cast? ==> a.nullOnFailure == b.nullOnFailure
    ensures a.Lambda? && b.Lambda? ==> Hash(h, a.body) == Hash(h, b.body)
    ensures a.Constant? && b.Constant? && a.payload.ScalarPayload? && b.payload.ScalarPayload? ==>
              VariantHash(h, a.payload.variant) == VariantHash(h, b.payload.variant)
  {
    InputsHashedApart(h, a, b, |Inputs(a)|);
    HeadsApart(h, a, b);
    LocalHashesApart(h, a, b);
  }

  lemma LocalHashesApart(h: ExprHashing, a: Expr, b: Expr)
    requires TellsApart(h.values.mix) && (forall m, n :: h.text(m) == h.text(n) ==> m == n)
    requires ConstantsReadable(a) && ConstantsReadable(b) && LocalHash(h, a) == LocalHash(h, b)
    ensures a.Call? && b.Call? ==> a.name == b.name
    ensures (a.Column? || a.FieldAccess?) && (b.Column? || b.FieldAccess?) ==> a.name == b.name
    ensures a.Dereference? && b.Dereference? ==> a.index == b.index
    ensures a.Cast? && b.Cast? ==> a.nullOnFailure == b.nullOnFailure
    ensures a.Constant? && b.Constant? && a.payload.ScalarPayload? && b.payload.ScalarPayload? ==>
              VariantHash(h, a.payload.variant) == VariantHash(h, b.payload.variant)
  {
    var mix := h.values.mix;
    if a.Call? && b.Call? {
      MixApart(mix, h.base("CallTypedExpr"), h.text(a.name), h.base("CallTypedExpr"), h.text(b.name));
    } else if (a.Column? || a.FieldAccess?) && (b.Column? || b.FieldAccess?) {
      MixApart(mix, h.base("FieldAccessTypedExpr"), h.text(a.name), h.base("FieldAccessTypedExpr"), h.text(b.name));
    } else if a.Dereference? && b.Dereference? {
      MixApart(mix, h.base("DereferenceTypedExpr"), a.index, h.base("DereferenceTypedExpr"), b.index);
    } else if a.Cast? && b.Cast? {
      MixApart(mix, h.base("CastTypedExpr"), if a.nullOnFailure then 1 else 0, h.base("CastTypedExpr"), if b.nullOnFailure then 1 else 0);
    } else if a.Constant? && b.Constant? && a.payload.ScalarPayload? && b.payload.ScalarPayload? {
      MixApart(mix, h.base("ConstantTypedExpr"), VariantHash(h, a.payload.variant),
               h.base("ConstantTypedExpr"), VariantHash(h, b.payload.variant));
    }
  }

  /** With a mix that tells its arguments apart, equal trees that hash equally have the same kinds. */
  lemma {:induction false} EqualHashesSameKinds(h: ExprHashing, a: Expr, b: Expr, mem: nat -> CV.Vec)
    requires TellsApart(h.values.mix) && Placed(a, mem) && Placed(b, mem)
    requires ConstantsReadable(a) && ConstantsReadable(b) && ExprEq(a, b) && Hash(h, a) == Hash(h, b)
    ensures SameKinds(a, b)
    decreases a
  {
    assert |Inputs(a)| == |Inputs(b)|;
    InputsHashedApart(h, a, b, |Inputs(a)|);
    HeadsApart(h, a, b);
    if a.Lambda? { EqualHashesSameKinds(h, a.body, b.body, mem); }
    forall k | 0 <= k < |Inputs(a)|
      ensures SameKinds(Inputs(a)[k], Inputs(b)[k])
    {
      EqualInputs(a, b, mem, k);
      assert SameInputHash(h, a, b, k);
      EqualHashesSameKinds(h, Inputs(a)[k], Inputs(b)[k], mem);
    }
  }

  /** Under such a mix, equal trees hash equally exactly when they have the same kinds. */
  lemma HashEquallyIffSameKinds(h: ExprHashing, a: Expr, b: Expr, mem: nat -> CV.Vec)
    requires CH.ValueHashContract(h.values) && TellsApart(h.values.mix) && Placed(a, mem) && Placed(b, mem)
    requires ConstantsReadable(a) && ConstantsReadable(b) && ExprEq(a, b)
    ensures Hash(h, a) == Hash(h, b) <==> SameKinds(a, b)
  {
    if SameKinds(a, b) { SameKindsHashEqually(h, a, b, mem); }
    if Hash(h, a) == Hash(h, b) { EqualHashesSameKinds(h, a, b, mem); }
  }

  // ----- whatever the hash functions -----

  /** A pairing of the natural numbers. */
  function Pair(x: nat, y: nat): nat {
    (x + y) * (x + y) + x
  }

  lemma SquaresApart(s: nat, t: nat)
    requires s < t
    ensures s * s + 2 * s + 1 <= t * t
  {
    var d := t - s - 1;
    assert t * t == (s + 1) * (s + 1) + 2 * (s + 1) * d + d * d;
  }

  lemma PairInjective(x: nat, y: nat, z: nat, w: nat)
    requires Pair(x, y) == Pair(z, w)
    ensures x == z && y == w
  {
    if x + y < z + w { SquaresApart(x + y, z + w); }
    if z + w < x + y { SquaresApart(z + w, x + y); }
  }

  lemma PairTellsApart()
    ensures TellsApart(Pair)
  {
    forall x, y, z, w
      ensures ApartAt(Pair, x, y, z, w)
    {
      if Pair(x, y) == Pair(z, w) { PairInjective(x, y, z, w); }
    }
  }

  function PairHashing(): ExprHashing {
    ExprHashing(CH.Hashing(0, Pair, w => w, (_, _) => 0), _ => 0, _ => 0, _ => 0)
  }

  /** The two trees hash equally under all hash functions that do not see vector encodings. */
  ghost predicate AlwaysHashEqually(a: Expr, b: Expr)
    requires ConstantsReadable(a) && ConstantsReadable(b)
  {
    forall h: ExprHashing | CH.ValueHashContract(h.values) :: Hash(h, a) == Hash(h, b)
  }

  /** Equal trees hash equally whatever the hash functions exactly when they have the same kinds. */
  lemma AlwaysHashEquallyIffSameKinds(a: Expr, b: Expr, mem: nat -> CV.Vec)
    requires Placed(a, mem) && Placed(b, mem) && ConstantsReadable(a) && ConstantsReadable(b) && ExprEq(a, b)
    ensures AlwaysHashEqually(a, b) <==> SameKinds(a, b)
  {
    if AlwaysHashEqually(a, b) {
      PairTellsApart();
      var h := PairHashing();
      assert CH.ValueHashContract(h.values);
      EqualHashesSameKinds(h, a, b, mem);
    }
    if SameKinds(a, b) {
      forall h: ExprHashing | CH.ValueHashContract(h.values) { SameKindsHashEqually(h, a, b, mem); }
    }
  }

  // ----- the well-typed case -----

  /** Equal trees over one input row type have the same kinds. */
  lemma {:induction false} WellTypedSameKinds(a: Expr, b: Expr, row: Type)
    requires WellTyped(a, row) && WellTyped(b, row) && ConstantsReadable(a) && ConstantsReadable(b) && ExprEq(a, b)
    ensures SameKinds(a, b)
    decreases a
  {
    EqualTreesHaveEquivalentTypes(a, b, row);
    EquivalentSameHashKind(ExprType(a), ExprType(b));
    if a.Lambda? { WellTypedSameKinds(a.body, b.body, row); }
    forall k | 0 <= k < |Inputs(a)|
      ensures k < |Inputs(b)| && SameKinds(Inputs(a)[k], Inputs(b)[k])
    {
      WellTypedSameKinds(Inputs(a)[k], Inputs(b)[k], row);
    }
  }

  /** Equal trees over one input row type have equal hashes. */
  lemma EqualTreesHashEqually(h: ExprHashing, a: Expr, b: Expr, row: Type, mem: nat -> CV.Vec)
    requires CH.ValueHashContract(h.values)
    requires WellTyped(a, row) && WellTyped(b, row) && Placed(a, mem) && Placed(b, mem)
    requires ConstantsReadable(a) && ConstantsReadable(b)
    requires ExprEq(a, b)
    ensures Hash(h, a) == Hash(h, b)
  {
    WellTypedSameKinds(a, b, row);
    SameKindsHashEqually(h, a, b, mem);
  }

  /** Input nodes of any two types are equal, and hash alike exactly when the mixed kind hashes of the types agree. */
  lemma InputsOfDifferentTypesDiffer(h: ExprHashing, t: Type, u: Type)
    ensures ExprEq(Input(t), Input(u))
    ensures Hash(h, Input(t)) == Hash(h, Input(u)) <==>
            h.values.mix(HashKind(t), h.base("InputTypedExpr")) == h.values.mix(HashKind(u), h.base("InputTypedExpr"))
  {
    var a, b := Input(t), Input(u);
    assert Hash(h, a) == RunningHash(h, a, 0) && Hash(h, b) == RunningHash(h, b, 0);
    assert LocalHash(h, a) == h.base("InputTypedExpr") == LocalHash(h, b);
  }

  /** BIGINT and DOUBLE inputs hash differently under any mix that tells its first arguments apart. */
  lemma BigintAndDoubleInputsDiffer(h: ExprHashing)
    requires forall x, y, z :: h.values.mix(x, z) == h.values.mix(y, z) ==> x == y
    ensures var a, b := Input(Scalar(BIGINT, [])), Input(Scalar(DOUBLE, []));
            ExprEq(a, b) && Hash(h, a) != Hash(h, b)
  {
    InputsOfDifferentTypesDiffer(h, Scalar(BIGINT, []), Scalar(DOUBLE, []));
  }
}
