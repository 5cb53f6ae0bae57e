/** Options, results and the column types of the engine (bolt/type/Type.h, bolt/type/Type.cpp). */
module Types {

  datatype Option<+T> = None | Some(value: T)

  datatype Result<+T> = Success(value: T) | Failure(message: string)

  datatype TypeKind =
    | BOOLEAN | TINYINT | SMALLINT | INTEGER | BIGINT | HUGEINT | REAL | DOUBLE
    | VARCHAR | VARBINARY | TIMESTAMP | VARIANT | UNKNOWN | OPAQUE | ARRAY | MAP | ROW | FUNCTION

  /** `parameters` distinguishes types that share a kind: decimal precision and scale, logical type ids. */
  datatype Type =
    | Scalar(scalarKind: TypeKind, parameters: seq<int>)
    | Opaque(typeIndex: nat)
    | Array(element: Type)
    | Map(key: Type, item: Type)
    | Row(names: seq<string>, children: seq<Type>)
    | Function(signature: seq<Type>)
  {
    function Kind(): TypeKind {
      match this
      case Scalar(k, _) => k
      case Opaque(_) => OPAQUE
      case Array(_) => ARRAY
      case Map(_, _) => MAP
      case Row(_, _) => ROW
      case Function(_) => FUNCTION
    }

    /** The types nested directly inside this one, in `childAt` order. */
    function Children(): (cs: seq<Type>)
      ensures forall i | 0 <= i < |cs| :: cs[i] < this
    {
      match this
      case Scalar(_, _) => []
      case Opaque(_) => []
      case Array(e) => [e]
      case Map(k, v) => [k, v]
      case Row(_, cs) => cs
      case Function(cs) => cs
    }
  }

  /** Type::equivalent: row field names and opaque type indexes are ignored. */
  predicate Equivalent(a: Type, b: Type) {
    match (a, b)
    case (Scalar(j, p), Scalar(k, q)) => j == k && p == q
    case (Opaque(_), Opaque(_)) => true
    case (Array(x), Array(y)) => Equivalent(x, y)
    case (Map(k, v), Map(l, w)) => Equivalent(k, l) && Equivalent(v, w)
    case (Row(_, cs), Row(_, ds)) =>
      |cs| == |ds| && forall i | 0 <= i < |cs| :: Equivalent(cs[i], ds[i])
    case (Function(cs), Function(ds)) =>
      |cs| == |ds| && forall i | 0 <= i < |cs| :: Equivalent(cs[i], ds[i])
    case _ => false
  }

  /** Type::operator==: names and opaque indexes are compared at the outermost level only. */
  predicate TypeEq(a: Type, b: Type) {
    && Equivalent(a, b)
    && (a.Row? && b.Row? ==> a.names == b.names)
    && (a.Opaque? && b.Opaque? ==> a.typeIndex == b.typeIndex)
  }

  lemma {:induction false} EquivalentReflexive(a: Type)
    ensures Equivalent(a, a)
  {
    forall c | c in a.Children() { EquivalentReflexive(c); }
  }

  lemma {:induction false} EquivalentSymmetric(a: Type, b: Type)
    ensures Equivalent(a, b) ==> Equivalent(b, a)
  {
    if Equivalent(a, b) {
      assert |a.Children()| == |b.Children()|;
      forall i | 0 <= i < |a.Children()| {
        EquivalentSymmetric(a.Children()[i], b.Children()[i]);
      }
      EquivalentByChildren(a, b);
      EquivalentByChildren(b, a);
    }
  }

  lemma {:induction false} EquivalentTransitive(a: Type, b: Type, c: Type)
    requires Equivalent(a, b) && Equivalent(b, c)
    ensures Equivalent(a, c)
  {
    EquivalentByChildren(a, b);
    EquivalentByChildren(b, c);
    forall i | 0 <= i < |a.Children()| {
      EquivalentTransitive(a.Children()[i], b.Children()[i], c.Children()[i]);
    }
    EquivalentByChildren(a, c);
  }

  /** Same outermost constructor and scalar payload. */
  predicate SameHead(a: Type, b: Type) {
    && |a.Children()| == |b.Children()|
    && match (a, b)
       case (Scalar(j, p), Scalar(k, q)) => j == k && p == q
       case (Opaque(_), Opaque(_)) => true
       case (Array(_), Array(_)) => true
       case (Map(_, _), Map(_, _)) => true
       case (Row(_, _), Row(_, _)) => true
       case (Function(_), Function(_)) => true
       case _ => false
  }

  lemma EquivalentByChildren(a: Type, b: Type)
    ensures Equivalent(a, b) <==>
            SameHead(a, b) && forall i | 0 <= i < |a.Children()| :: Equivalent(a.Children()[i], b.Children()[i])
  {
    if Equivalent(a, b) {
      forall i | 0 <= i < |a.Children()|
        ensures Equivalent(a.Children()[i], b.Children()[i])
      {}
    }
    if SameHead(a, b) && forall i | 0 <= i < |a.Children()| :: Equivalent(a.Children()[i], b.Children()[i]) {
      match (a, b)
      case (Array(x), Array(y)) => assert Equivalent(a.Children()[0], b.Children()[0]);
      case (Map(_, _), Map(_, _)) =>
        assert Equivalent(a.Children()[0], b.Children()[0]);
        assert Equivalent(a.Children()[1], b.Children()[1]);
      case _ =>
    }
  }

  // ----- what the two comparisons see -----

  /** The type without field names and opaque indexes. */
  function Erase(t: Type): Type {
    match t
    case Scalar(_, _) => t
    case Opaque(_) => Opaque(0)
    case Array(e) => Array(Erase(e))
    case Map(k, v) => Map(Erase(k), Erase(v))
    case Row(_, cs) => Row([], seq(|cs|, i requires 0 <= i < |cs| => Erase(cs[i])))
    case Function(cs) => Function(seq(|cs|, i requires 0 <= i < |cs| => Erase(cs[i])))
  }

  /** The type with those of the outermost level only. */
  function EraseBelow(t: Type): Type {
    match t
    case Row(names, _) => Row(names, Erase(t).children)
    case Opaque(_) => t
    case _ => Erase(t)
  }

  lemma {:induction false} AllEquivalentIffErased(cs: seq<Type>, ds: seq<Type>)
    requires |cs| == |ds|
    ensures (forall i | 0 <= i < |cs| :: Equivalent(cs[i], ds[i])) <==>
            seq(|cs|, i requires 0 <= i < |cs| => Erase(cs[i])) == seq(|ds|, i requires 0 <= i < |ds| => Erase(ds[i]))
    decreases cs
  {
    var es, fs := seq(|cs|, i requires 0 <= i < |cs| => Erase(cs[i])), seq(|ds|, i requires 0 <= i < |ds| => Erase(ds[i]));
    forall i | 0 <= i < |cs|
      ensures Equivalent(cs[i], ds[i]) <==> es[i] == fs[i]
    {
      EquivalentIffErased(cs[i], ds[i]);
    }
  }

  /** Types are equivalent exactly when they are equal without field names and opaque indexes. */
  lemma {:induction false} EquivalentIffErased(a: Type, b: Type)
    ensures Equivalent(a, b) <==> Erase(a) == Erase(b)
    decreases a
  {
    match (a, b)
    case (Array(x), Array(y)) => EquivalentIffErased(x, y);
    case (Map(k, v), Map(l, w)) => EquivalentIffErased(k, l); EquivalentIffErased(v, w);
    case (Row(_, cs), Row(_, ds)) =>
      if |cs| == |ds| { AllEquivalentIffErased(cs, ds); } else { assert |Erase(a).children| != |Erase(b).children|; }
    case (Function(cs), Function(ds)) =>
      if |cs| == |ds| { AllEquivalentIffErased(cs, ds); } else { assert |Erase(a).signature| != |Erase(b).signature|; }
    case _ =>
  }

  /** Types are equal exactly when they are without those below the outermost level. */
  lemma TypeEqIffErasedBelow(a: Type, b: Type)
    ensures TypeEq(a, b) <==> EraseBelow(a) == EraseBelow(b)
  {
    EquivalentIffErased(a, b);
  }

  const WORD_MODULUS := 0x1_0000_0000_0000_0000

  function KindCode(k: TypeKind): nat {
    match k
    case BOOLEAN => 0 case TINYINT => 1 case SMALLINT => 2 case INTEGER => 3 case BIGINT => 4
    case REAL => 5 case DOUBLE => 6 case VARCHAR => 7 case VARBINARY => 8 case TIMESTAMP => 9
    case HUGEINT => 10 case ARRAY => 30 case MAP => 31 case ROW => 32 case UNKNOWN => 33
    case FUNCTION => 34 case OPAQUE => 35 case VARIANT => 37
  }

  /** Type::hashKind, in 64-bit wrap-around arithmetic. */
  function HashKind(t: Type): nat
    decreases t, |t.Children()| + 1
  {
    HashFrom(t, 0, KindCode(t.Kind()))
  }

  /** The hashKind loop from child `i` on, with running value `hash`. */
  function HashFrom(t: Type, i: nat, hash: nat): nat
    requires i <= |t.Children()|
    decreases t, |t.Children()| - i
  {
    if i == |t.Children()| then hash
    else HashFrom(t, i + 1, (hash * 31 + HashKind(t.Children()[i])) % WORD_MODULUS)
  }

  /** The loop of hashKind as it runs. */
  method ComputeHashKind(t: Type) returns (hash: nat)
    ensures hash == HashKind(t)
    decreases t
  {
    hash := KindCode(t.Kind());
    for i := 0 to |t.Children()|
      invariant HashFrom(t, i, hash) == HashKind(t)
    {
      var child := ComputeHashKind(t.Children()[i]);
      hash := (hash * 31 + child) % WORD_MODULUS;
    }
  }

  /** Equivalent types have the same kind hash, whatever their field names. */
  lemma {:induction false} EquivalentSameHashKind(a: Type, b: Type)
    requires Equivalent(a, b)
    ensures HashKind(a) == HashKind(b)
    decreases a, |a.Children()| + 1
  {
    EquivalentByChildren(a, b);
    HashFromAgree(a, b, 0, KindCode(a.Kind()));
  }

  lemma {:induction false} HashFromAgree(a: Type, b: Type, i: nat, hash: nat)
    requires Equivalent(a, b) && i <= |a.Children()| == |b.Children()|
    ensures HashFrom(a, i, hash) == HashFrom(b, i, hash)
    decreases a, |a.Children()| - i
  {
    if i < |a.Children()| {
      EquivalentByChildren(a, b);
      EquivalentSameHashKind(a.Children()[i], b.Children()[i]);
      HashFromAgree(a, b, i + 1, (hash * 31 + HashKind(a.Children()[i])) % WORD_MODULUS);
    }
  }
}
