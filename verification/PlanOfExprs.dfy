/** Plans over typed expressions: the two round trips together (bolt/core/PlanNode.cpp, bolt/core/Expressions.cpp). */
module PlanOfExprs {
  import opened Types
  import opened Expressions
  import opened ExprEquality
  import opened ExprRoundTrip
  import opened ExprSerde
  import CV = ConstantValues
  import P = PlanNodes
  import PS = PlanSerde
  import R = PlanRoundTrip
  import PE = PlanEquality
  import W = PlanWitnesses

  function FieldName(e: Expr): Option<string> {
    if e.Column? || e.FieldAccess? then Some(e.name) else None
  }

  /** Expressions written with `save`, read with `restore`, and with `restoreBare` where no memory pool is passed on. */
  function TypedExprs(save: CV.Vec -> string, restore: string -> Option<CV.Vec>, restoreBare: string -> Option<CV.Vec>)
    : P.Exprs<Expr, Json>
  {
    P.Exprs(ExprType, FieldName, (e: Expr) => e.Call?,
            (e: Expr) => Serialize(Codec(save, restore), e),
            (j: Json) => Create(Codec(save, restore), j),
            (j: Json) => Create(Codec(save, restoreBare), j))
  }

  /** What is written does not depend on how it will be read. */
  lemma {:induction false} WriteIgnoresRestore(c: Codec, d: Codec, e: Expr)
    requires c.save == d.save
    ensures Serialize(c, e) == Serialize(d, e)
    decreases e
  {
    match e
    case FieldAccess(_, x, _) => WriteIgnoresRestore(c, d, x);
    case Dereference(_, x, _) => WriteIgnoresRestore(c, d, x);
    case Cast(_, x, _) => WriteIgnoresRestore(c, d, x);
    case Lambda(_, b) => WriteIgnoresRestore(c, d, b);
    case Call(_, _, es) => WriteAllIgnoresRestore(c, d, es);
    case Concat(_, es) => WriteAllIgnoresRestore(c, d, es);
    case _ =>
  }

  lemma {:induction false} WriteAllIgnoresRestore(c: Codec, d: Codec, es: seq<Expr>)
    requires c.save == d.save
    ensures SerializeAll(c, es) == SerializeAll(d, es)
    decreases es
  {
    if es != [] {
      WriteIgnoresRestore(c, d, es[0]);
      WriteAllIgnoresRestore(c, d, es[1..]);
    }
  }

  /** A restorable expression comes back with its type and field name, as the tree Restored describes. */
  lemma RestorableIsKept(save: CV.Vec -> string, restore: string -> Option<CV.Vec>, bare: string -> Option<CV.Vec>, e: Expr)
    requires Restorable(Codec(save, restore), e)
    ensures R.Kept(TypedExprs(save, restore, bare), e)
    ensures Create(Codec(save, restore), Serialize(Codec(save, restore), e)) == Success(Restored(Codec(save, restore), e))
  {
    CreateAfterSerialize(Codec(save, restore), e);
  }

  /** The same without a pool, for the calls and bounds of window functions. */
  lemma RestorableIsKeptBare(save: CV.Vec -> string, restore: string -> Option<CV.Vec>, bare: string -> Option<CV.Vec>, e: Expr)
    requires Restorable(Codec(save, bare), e)
    ensures R.KeptBare(TypedExprs(save, restore, bare), e)
  {
    WriteIgnoresRestore(Codec(save, restore), Codec(save, bare), e);
    CreateAfterSerialize(Codec(save, bare), e);
  }

  // ----- plans -----

  /** Expression equality on trees with readable constants. */
  ghost predicate ExprEqual(a: Expr, b: Expr) {
    ConstantsReadable(a) && ConstantsReadable(b) && ExprEq(a, b)
  }

  /** A well-formed tree whose constants come back through `c`, all vectors where `mem` says they are. */
  ghost predicate GoodThrough(c: Codec, mem: nat -> CV.Vec, e: Expr) {
    && WellFormed(e) && ConstantsReadable(e) && ConstantsKept(c, e)
    && Placed(e, mem) && (Restorable(c, e) ==> Placed(Restored(c, e), mem))
  }

  ghost function Good(c: Codec, mem: nat -> CV.Vec): Expr -> bool {
    (e: Expr) => GoodThrough(c, mem, e)
  }

  lemma GoodComesBack(save: CV.Vec -> string, restore: string -> Option<CV.Vec>, bare: string -> Option<CV.Vec>,
      mem: nat -> CV.Vec, e: Expr)
    ensures GoodThrough(Codec(save, restore), mem, e) ==>
              PE.ComesBack(TypedExprs(save, restore, bare), ExprEqual, LiteralsFit)(e)
    ensures GoodThrough(Codec(save, bare), mem, e) ==>
              PE.ComesBackBare(TypedExprs(save, restore, bare), ExprEqual, LiteralsFit)(e)
  {
    if GoodThrough(Codec(save, restore), mem, e) {
      RoundTripEqualIffLiteralsFit(Codec(save, restore), e, mem);
      RestorableIsKept(save, restore, bare, e);
    }
    if GoodThrough(Codec(save, bare), mem, e) {
      RoundTripEqualIffLiteralsFit(Codec(save, bare), e, mem);
      RestorableIsKeptBare(save, restore, bare, e);
      WriteIgnoresRestore(Codec(save, restore), Codec(save, bare), e);
    }
  }

  lemma NodeComesBack(save: CV.Vec -> string, restore: string -> Option<CV.Vec>, bare: string -> Option<CV.Vec>,
      mem: nat -> CV.Vec, n: P.Node<Expr>)
    requires PE.NodeForall(n, Good(Codec(save, restore), mem), Good(Codec(save, bare), mem))
    ensures var o := TypedExprs(save, restore, bare);
            PE.NodeForall(n, PE.ComesBack(o, ExprEqual, LiteralsFit), PE.ComesBackBare(o, ExprEqual, LiteralsFit))
  {
    forall e: Expr { GoodComesBack(save, restore, bare, mem, e); }
  }

  lemma {:induction false} PlanComesBack(save: CV.Vec -> string, restore: string -> Option<CV.Vec>, bare: string -> Option<CV.Vec>,
      mem: nat -> CV.Vec, p: P.Plan<Expr>)
    requires PE.PlanForall(p, Good(Codec(save, restore), mem), Good(Codec(save, bare), mem))
    ensures var o := TypedExprs(save, restore, bare);
            PE.PlanForall(p, PE.ComesBack(o, ExprEqual, LiteralsFit), PE.ComesBackBare(o, ExprEqual, LiteralsFit))
    decreases p
  {
    NodeComesBack(save, restore, bare, mem, p.node);
    forall i | 0 <= i < |p.sources| {
      PlanComesBack(save, restore, bare, mem, p.sources[i]);
    }
  }

  /** create(serialize(p)) exists for every plan of typed expressions that constructors built without the unnamed
      join kind, and equals it exactly when the omitted fields hold their defaults and every literal fits. */
  lemma TypedPlanRoundTrip(save: CV.Vec -> string, restore: string -> Option<CV.Vec>, bare: string -> Option<CV.Vec>,
      numberType: Type, mem: nat -> CV.Vec, p: P.Plan<Expr>)
    requires P.Built(TypedExprs(save, restore, bare), numberType, p) && R.AllNamed(p)
    requires PE.PlanForall(p, Good(Codec(save, restore), mem), Good(Codec(save, bare), mem))
    ensures var o := TypedExprs(save, restore, bare);
            PS.Serialize(o, p).Success? && PS.Create(o, numberType, PS.Serialize(o, p).value).Success?
    ensures var o := TypedExprs(save, restore, bare);
            var r := PS.Create(o, numberType, PS.Serialize(o, p).value).value;
            && P.OutputType(o, r) == P.OutputType(o, p)
            && (PE.PlanEq(r, p, ExprEqual) <==> R.AtDefaults(p) && PE.PlanForall(p, LiteralsFit, LiteralsFit))
  {
    PlanComesBack(save, restore, bare, mem, p);
    PE.RoundTripEqualIff(TypedExprs(save, restore, bare), numberType, ExprEqual, LiteralsFit, p);
  }

  /** A well-formed tree with readable constants, its vectors and the restored ones where `mem` says they are. */
  ghost function Readable(c: Codec, mem: nat -> CV.Vec): Expr -> bool {
    (e: Expr) => WellFormed(e) && ConstantsReadable(e) && Placed(e, mem) && (Restorable(c, e) ==> Placed(Restored(c, e), mem))
  }

  /** With lossless vector codecs this is every such plan. */
  lemma LosslessPlanRoundTrip(save: CV.Vec -> string, restore: string -> Option<CV.Vec>, bare: string -> Option<CV.Vec>,
      numberType: Type, mem: nat -> CV.Vec, p: P.Plan<Expr>)
    requires Lossless(Codec(save, restore)) && Lossless(Codec(save, bare))
    requires P.Built(TypedExprs(save, restore, bare), numberType, p) && R.AllNamed(p)
    requires PE.PlanForall(p, Readable(Codec(save, restore), mem), Readable(Codec(save, bare), mem))
    ensures var o := TypedExprs(save, restore, bare);
            PS.Serialize(o, p).Success? && PS.Create(o, numberType, PS.Serialize(o, p).value).Success?
    ensures var o := TypedExprs(save, restore, bare);
            PE.PlanEq(PS.Create(o, numberType, PS.Serialize(o, p).value).value, p, ExprEqual) <==>
            R.AtDefaults(p) && PE.PlanForall(p, LiteralsFit, LiteralsFit)
  {
    var c, d := Codec(save, restore), Codec(save, bare);
    forall e: Expr
      ensures Readable(c, mem)(e) ==> Good(c, mem)(e)
      ensures Readable(d, mem)(e) ==> Good(d, mem)(e)
    {
      if Readable(c, mem)(e) { LosslessKeeps(c, e); }
      if Readable(d, mem)(e) { LosslessKeeps(d, e); }
    }
    PE.PlanForallImplies(p, Readable(c, mem), Readable(d, mem), Good(c, mem), Good(d, mem));
    TypedPlanRoundTrip(save, restore, bare, numberType, mem, p);
  }

  // ----- plans that do not come back -----

  /** A window over rank() comes back without its top-n, a cached join of a and b without its settings, and the
      deprecated anti join of a and b cannot be written. */
  lemma TypedPlansLost(save: CV.Vec -> string, restore: string -> Option<CV.Vec>, bare: string -> Option<CV.Vec>, numberType: Type)
    ensures var o := TypedExprs(save, restore, bare);
            var call := Call(P.BIGINT_TYPE, "rank", []);
            var p := W.WindowOver(call, 5);
            && P.Built(o, numberType, p) && PS.Serialize(o, p).Success?
            && PS.Create(o, numberType, PS.Serialize(o, p).value) == Success(W.WindowOver(call, 0))
    ensures var o := TypedExprs(save, restore, bare);
            var l, r := Column(P.BIGINT_TYPE, "a"), Column(P.BIGINT_TYPE, "b");
            var p, q := W.Join(P.Inner, l, r, P.HashTableCache(true, true, Some(7))), W.Join(P.NullAwareAnti, l, r, P.NO_CACHE);
            && P.Built(o, numberType, p) && PS.Serialize(o, p).Success?
            && PS.Create(o, numberType, PS.Serialize(o, p).value) == Success(W.Join(P.Inner, l, r, P.NO_CACHE))
            && P.Built(o, numberType, q) && PS.Serialize(o, q).Failure?
  {
    var o := TypedExprs(save, restore, bare);
    var call, l, r := Call(P.BIGINT_TYPE, "rank", []), Column(P.BIGINT_TYPE, "a"), Column(P.BIGINT_TYPE, "b");
    CreateAfterSerialize(Codec(save, bare), call);
    WriteIgnoresRestore(Codec(save, restore), Codec(save, bare), call);
    CreateAfterSerialize(Codec(save, restore), l);
    CreateAfterSerialize(Codec(save, restore), r);
    W.TopNumIsLost(o, numberType, call, 5);
    W.CacheIsLost(o, numberType, l, r, P.HashTableCache(true, true, Some(7)));
    W.NullAwareAntiCannotBeWritten(o, numberType, l, r);
  }
}
