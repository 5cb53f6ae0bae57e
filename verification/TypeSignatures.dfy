/** Type signatures and the normal form that companion-function deduplication compares
    (bolt/expression/TypeSignature.h, bolt/exec/AggregateCompanionSignatures.cpp). */
module TypeSignatures {
  import opened Types
  import opened Sequences

  datatype TypeSig = TypeSig(baseName: string, parameters: seq<TypeSig>, rowFieldName: Option<string>)

  // ----- fmt::format("T{}", k) -----

  function Digit(d: nat): char
    requires d < 10
  {
    "0123456789"[d]
  }

  function Decimal(n: nat): string {
    if n < 10 then [Digit(n)] else Decimal(n / 10) + [Digit(n % 10)]
  }

  function FreshName(k: nat): string {
    "T" + Decimal(k)
  }

  lemma {:induction false} DecimalInjective(m: nat, n: nat)
    requires Decimal(m) == Decimal(n)
    ensures m == n
  {
    var s, t := Decimal(m), Decimal(n);
    DecimalLength(m);
    DecimalLength(n);
    assert s[|s| - 1] == Digit(m % 10) && t[|t| - 1] == Digit(n % 10);
    DigitInjective(m % 10, n % 10);
    if m >= 10 {
      assert s[..|s| - 1] == Decimal(m / 10) && t[..|t| - 1] == Decimal(n / 10);
      DecimalInjective(m / 10, n / 10);
    }
  }

  lemma DigitInjective(c: nat, d: nat)
    requires c < 10 && d < 10 && Digit(c) == Digit(d)
    ensures c == d
  {}

  lemma DecimalLength(n: nat)
    ensures |Decimal(n)| >= 1 && (|Decimal(n)| == 1 <==> n < 10)
  {}

  lemma FreshNameInjective(m: nat, n: nat)
    requires FreshName(m) == FreshName(n)
    ensures m == n
  {
    assert FreshName(m)[1..] == Decimal(m) && FreshName(n)[1..] == Decimal(n);
    DecimalInjective(m, n);
  }

  // ----- the order in which variables are met -----

  /** Add `v` to the variables met so far. */
  function Meet(order: seq<string>, v: string): seq<string> {
    if v in order then order else order + [v]
  }

  /** The variables met after visiting `t` in pre-order, starting from `order`. */
  function Visit(t: TypeSig, vars: set<string>, order: seq<string>): seq<string>
    decreases t
  {
    if t.baseName in vars then Meet(order, t.baseName)
    else VisitAll(t.parameters, vars, order)
  }

  function VisitAll(ts: seq<TypeSig>, vars: set<string>, order: seq<string>): seq<string>
    decreases ts
  {
    if ts == [] then order else VisitAll(ts[1..], vars, Visit(ts[0], vars, order))
  }

  /** The type with each variable replaced by the fresh name of its place in `order`. */
  function Renamed(t: TypeSig, vars: set<string>, order: seq<string>): TypeSig
    requires Known(t, vars, order)
    decreases t
  {
    if t.baseName in vars then TypeSig(FreshName(IndexOf(order, t.baseName)), [], None)
    else if t.parameters == [] then t
    else TypeSig(t.baseName,
                 seq(|t.parameters|, i requires 0 <= i < |t.parameters| => Renamed(t.parameters[i], vars, order)),
                 None)
  }

  /** Every variable of `t` is in `order`. */
  predicate Known(t: TypeSig, vars: set<string>, order: seq<string>) {
    if t.baseName in vars then t.baseName in order
    else forall i | 0 <= i < |t.parameters| :: Known(t.parameters[i], vars, order)
  }

  lemma {:induction false} VisitExtends(t: TypeSig, vars: set<string>, order: seq<string>)
    ensures order <= Visit(t, vars, order)
    ensures Distinct(order) ==> Distinct(Visit(t, vars, order))
    ensures Known(t, vars, Visit(t, vars, order))
    decreases t
  {
    if t.baseName !in vars { VisitAllExtends(t.parameters, vars, order); }
  }

  lemma {:induction false} VisitAllExtends(ts: seq<TypeSig>, vars: set<string>, order: seq<string>)
    ensures order <= VisitAll(ts, vars, order)
    ensures Distinct(order) ==> Distinct(VisitAll(ts, vars, order))
    ensures forall i | 0 <= i < |ts| :: Known(ts[i], vars, VisitAll(ts, vars, order))
    decreases ts
  {
    if ts != [] {
      var mid := Visit(ts[0], vars, order);
      VisitExtends(ts[0], vars, order);
      VisitAllExtends(ts[1..], vars, mid);
      KnownLonger(ts[0], vars, mid, VisitAll(ts, vars, order));
      forall i | 0 < i < |ts| ensures Known(ts[i], vars, VisitAll(ts, vars, order)) { assert ts[i] == ts[1..][i - 1]; }
    }
  }

  lemma {:induction false} KnownLonger(t: TypeSig, vars: set<string>, order: seq<string>, longer: seq<string>)
    requires order <= longer && Known(t, vars, order)
    ensures Known(t, vars, longer)
    decreases t
  {
    if t.baseName !in vars {
      forall i | 0 <= i < |t.parameters| { KnownLonger(t.parameters[i], vars, order, longer); }
    }
  }

  /** A longer order gives the same names. */
  lemma {:induction false} RenamedLonger(t: TypeSig, vars: set<string>, order: seq<string>, longer: seq<string>)
    requires order <= longer && Distinct(longer) && Known(t, vars, order)
    ensures Known(t, vars, longer) && Renamed(t, vars, longer) == Renamed(t, vars, order)
    decreases t
  {
    KnownLonger(t, vars, order, longer);
    if t.baseName in vars {
      IndexOfAt(longer, IndexOf(order, t.baseName));
    } else {
      forall i | 0 <= i < |t.parameters| { RenamedLonger(t.parameters[i], vars, order, longer); }
    }
  }

  /** normalizeType: rename by the order in which the type's own variables are met. */
  function NormalizeType(t: TypeSig, vars: set<string>): TypeSig {
    VisitExtends(t, vars, []);
    Renamed(t, vars, Visit(t, vars, []))
  }

  // ----- normalizeTypeImpl as it runs -----

  /** The map the recursion updates: the i-th variable met is renamed to T<i>. */
  function RenamingOf(order: seq<string>): map<string, string> {
    map v | v in order :: FreshName(IndexOf(order, v))
  }

  method NormalizeTypeImpl(t: TypeSig, vars: set<string>, renamed: map<string, string>, ghost order: seq<string>)
    returns (result: TypeSig, renamed': map<string, string>)
    requires Distinct(order) && renamed == RenamingOf(order) && (forall v <- order :: v in vars)
    ensures renamed' == RenamingOf(Visit(t, vars, order))
    ensures Known(t, vars, Visit(t, vars, order)) && result == Renamed(t, vars, Visit(t, vars, order))
    decreases t
  {
    VisitExtends(t, vars, order);
    renamed' := renamed;
    if t.baseName in renamed {
      return TypeSig(renamed[t.baseName], [], None), renamed;
    }
    if t.baseName in vars {
      RenamingSize(order);
      RenamingStep(order, t.baseName);
      var normalizedName := FreshName(|renamed|);
      renamed' := renamed[t.baseName := normalizedName];
      return TypeSig(normalizedName, [], None), renamed';
    }
    if t.parameters == [] {
      return t, renamed;
    }
    var normalizedParameters: seq<TypeSig> := [];
    ghost var met := order;
    for i := 0 to |t.parameters|
      invariant Distinct(met) && (forall v <- met :: v in vars) && renamed' == RenamingOf(met)
      invariant VisitAll(t.parameters[i..], vars, met) == VisitAll(t.parameters, vars, order)
      invariant |normalizedParameters| == i
      invariant forall k | 0 <= k < i ::
        Known(t.parameters[k], vars, met) && normalizedParameters[k] == Renamed(t.parameters[k], vars, met)
    {
      var p: TypeSig;
      ghost var next := Visit(t.parameters[i], vars, met);
      VisitExtends(t.parameters[i], vars, met);
      VisitOnlyVariables(t.parameters[i], vars, met);
      p, renamed' := NormalizeTypeImpl(t.parameters[i], vars, renamed', met);
      forall k | 0 <= k < i { RenamedLonger(t.parameters[k], vars, met, next); }
      normalizedParameters := normalizedParameters + [p];
      assert t.parameters[i..][1..] == t.parameters[i + 1..];
      met := next;
    }
    assert t.parameters[|t.parameters|..] == [];
    result := TypeSig(t.baseName, normalizedParameters, None);
    assert result.parameters == Renamed(t, vars, met).parameters;
  }

  method ComputeNormalizeType(t: TypeSig, vars: set<string>) returns (result: TypeSig)
    ensures result == NormalizeType(t, vars)
  {
    var renamed: map<string, string>;
    assert map[] == RenamingOf([]);
    result, renamed := NormalizeTypeImpl(t, vars, map[], []);
  }

  lemma {:induction false} VisitOnlyVariables(t: TypeSig, vars: set<string>, order: seq<string>)
    requires forall v <- order :: v in vars
    ensures forall v <- Visit(t, vars, order) :: v in vars
    decreases t
  {
    if t.baseName !in vars { VisitAllOnlyVariables(t.parameters, vars, order); }
  }

  lemma {:induction false} VisitAllOnlyVariables(ts: seq<TypeSig>, vars: set<string>, order: seq<string>)
    requires forall v <- order :: v in vars
    ensures forall v <- VisitAll(ts, vars, order) :: v in vars
    decreases ts
  {
    if ts != [] {
      VisitOnlyVariables(ts[0], vars, order);
      VisitAllOnlyVariables(ts[1..], vars, Visit(ts[0], vars, order));
    }
  }

  lemma RenamingSize(order: seq<string>)
    requires Distinct(order)
    ensures |RenamingOf(order)| == |order|
  {
    DistinctSize(order);
    assert RenamingOf(order).Keys == set v | v in order;
  }

  lemma RenamingStep(order: seq<string>, v: string)
    requires Distinct(order) && v !in order
    ensures RenamingOf(order + [v]) == RenamingOf(order)[v := FreshName(|order|)]
  {
    var longer := order + [v];
    IndexOfAt(longer, |order|);
    forall u | u in order
      ensures IndexOf(longer, u) == IndexOf(order, u)
    {
      IndexOfAt(longer, IndexOf(order, u));
    }
  }
}
