/** Companion signatures of an aggregate function: used variables, resolvability, the signature builders and
    their deduplication (bolt/exec/AggregateCompanionSignatures.h, bolt/exec/AggregateCompanionSignatures.cpp). */
module Companions {
  import opened Types
  import opened TypeSignatures
  import NF = NormalForm

  datatype SignatureVariable = SignatureVariable(name: string, constraint: string, integerParameter: bool)

  type Variables = map<string, SignatureVariable>

  datatype FunctionSignature = FunctionSignature(
    variables: Variables, returnType: TypeSig, argumentTypes: seq<TypeSig>,
    constantArguments: seq<bool>, variableArity: bool)

  datatype AggregateSignature = AggregateSignature(
    variables: Variables, returnType: TypeSig, intermediateType: TypeSig, argumentTypes: seq<TypeSig>,
    constantArguments: seq<bool>, variableArity: bool)

  // ----- usedTypeVariables -----

  /** Every base name that occurs in `t`. */
  function Names(t: TypeSig): set<string> {
    {t.baseName} + set i, n | 0 <= i < |t.parameters| && n in Names(t.parameters[i]) :: n
  }

  function NamesOf(ts: seq<TypeSig>): set<string> {
    set i, n | 0 <= i < |ts| && n in Names(ts[i]) :: n
  }

  /** The declarations of `all` whose names are in `names`. */
  function Restrict(all: Variables, names: set<string>): Variables {
    map v | v in all && v in names :: all[v]
  }

  /** `names` are the names seen before the call. */
  method AddUsedVariablesInType(t: TypeSig, all: Variables, used: Variables, ghost names: set<string>) returns (used': Variables)
    requires used == Restrict(all, names)
    ensures used' == Restrict(all, names + Names(t))
    decreases t
  {
    used' := used;
    if t.baseName in all && t.baseName !in used {
      used' := used[t.baseName := all[t.baseName]];
    }
    ghost var seen := names + {t.baseName};
    assert used' == Restrict(all, seen);
    for i := 0 to |t.parameters|
      invariant seen == names + {t.baseName} + NamesOf(t.parameters[..i])
      invariant used' == Restrict(all, seen)
    {
      used' := AddUsedVariablesInType(t.parameters[i], all, used', seen);
      NamesOfSnoc(t.parameters, i);
      seen := seen + Names(t.parameters[i]);
    }
    assert t.parameters[..|t.parameters|] == t.parameters;
    assert seen == names + Names(t);
  }

  lemma NamesOfSnoc(ts: seq<TypeSig>, i: nat)
    requires i < |ts|
    ensures NamesOf(ts[..i + 1]) == NamesOf(ts[..i]) + Names(ts[i])
  {
    forall n | n in NamesOf(ts[..i]) + Names(ts[i])
      ensures n in NamesOf(ts[..i + 1])
    {
      if n in Names(ts[i]) {
        assert n in Names(ts[..i + 1][i]);
      } else {
        var k :| 0 <= k < i && n in Names(ts[..i][k]);
        assert n in Names(ts[..i + 1][k]);
      }
    }
    forall n | n in NamesOf(ts[..i + 1])
      ensures n in NamesOf(ts[..i]) + Names(ts[i])
    {
      var k :| 0 <= k < i + 1 && n in Names(ts[..i + 1][k]);
      if k < i { assert n in Names(ts[..i][k]); }
    }
  }

  method ComputeUsedTypeVariables(ts: seq<TypeSig>, all: Variables) returns (used: Variables)
    ensures used == Restrict(all, NamesOf(ts))
  {
    used := map[];
    for i := 0 to |ts|
      invariant used == Restrict(all, NamesOf(ts[..i]))
    {
      used := AddUsedVariablesInType(ts[i], all, used, NamesOf(ts[..i]));
      NamesOfSnoc(ts, i);
    }
    assert ts[..|ts|] == ts;
  }

  function UsedTypeVariables(ts: seq<TypeSig>, all: Variables): Variables {
    Restrict(all, NamesOf(ts))
  }

  // ----- resolvability -----

  /** isResultTypeResolvableGivenIntermediateType. */
  predicate Resolvable(s: AggregateSignature) {
    s.variables == map[] ||
    forall v <- UsedTypeVariables([s.returnType], s.variables) :: v in UsedTypeVariables([s.intermediateType], s.variables)
  }

  /** Variables take no parameters, as FunctionSignature's constructor checks. */
  predicate PlainVariables(t: TypeSig, vars: set<string>) {
    && (t.baseName in vars ==> t.parameters == [])
    && forall i | 0 <= i < |t.parameters| :: PlainVariables(t.parameters[i], vars)
  }

  /** An assignment of concrete types to all variables. */
  ghost predicate IsSubstitution(sigma: map<string, TypeSig>, vars: set<string>) {
    sigma.Keys == vars && forall v :: v in sigma ==> sigma[v].rowFieldName.None?
  }

  /** The type with every variable replaced; a row field keeps its name. */
  function Apply(sigma: map<string, TypeSig>, t: TypeSig): TypeSig {
    if t.baseName in sigma then sigma[t.baseName].(rowFieldName := t.rowFieldName)
    else TypeSig(t.baseName,
                 seq(|t.parameters|, i requires 0 <= i < |t.parameters| => Apply(sigma, t.parameters[i])),
                 t.rowFieldName)
  }

  lemma {:induction false} VariablesAreUsedNames(t: TypeSig, vars: set<string>)
    requires PlainVariables(t, vars)
    ensures NF.Variables(t, vars) == Names(t) * vars
  {
    if t.baseName !in vars {
      forall i | 0 <= i < |t.parameters| { VariablesAreUsedNames(t.parameters[i], vars); }
      forall v | v in Names(t) * vars
        ensures v in NF.Variables(t, vars)
      {
        var i :| 0 <= i < |t.parameters| && v in Names(t.parameters[i]);
        assert v in NF.Variables(t.parameters[i], vars);
      }
      forall v | v in NF.Variables(t, vars)
        ensures v in Names(t) * vars
      {
        var i :| 0 <= i < |t.parameters| && v in NF.Variables(t.parameters[i], vars);
        assert v in Names(t.parameters[i]);
      }
    }
  }

  /** Two substitutions give one type exactly when they agree on its variables. */
  lemma {:induction false} ApplyEqualIffAgree(sigma: map<string, TypeSig>, tau: map<string, TypeSig>, t: TypeSig, vars: set<string>)
    requires IsSubstitution(sigma, vars) && IsSubstitution(tau, vars)
    ensures Apply(sigma, t) == Apply(tau, t) <==> forall v :: v in NF.Variables(t, vars) ==> sigma[v] == tau[v]
    decreases t
  {
    if t.baseName in vars {
      var s, r := sigma[t.baseName], tau[t.baseName];
      assert s.(rowFieldName := t.rowFieldName) == r.(rowFieldName := t.rowFieldName) ==> s == r;
      assert t.baseName in NF.Variables(t, vars);
    } else {
      forall i | 0 <= i < |t.parameters| { ApplyEqualIffAgree(sigma, tau, t.parameters[i], vars); }
      if Apply(sigma, t) == Apply(tau, t) {
        forall v | v in NF.Variables(t, vars)
          ensures sigma[v] == tau[v]
        {
          var i :| 0 <= i < |t.parameters| && v in NF.Variables(t.parameters[i], vars);
          assert Apply(sigma, t).parameters[i] == Apply(tau, t).parameters[i];
        }
      }
      if forall v :: v in NF.Variables(t, vars) ==> sigma[v] == tau[v] {
        forall i | 0 <= i < |t.parameters|
          ensures Apply(sigma, t.parameters[i]) == Apply(tau, t.parameters[i])
        {
          forall v | v in NF.Variables(t.parameters[i], vars) ensures sigma[v] == tau[v] { assert v in NF.Variables(t, vars); }
        }
        assert Apply(sigma, t).parameters == Apply(tau, t).parameters;
      }
    }
  }

  /** The intermediate type determines the return type. */
  ghost predicate Determined(s: AggregateSignature) {
    forall sigma, tau | IsSubstitution(sigma, s.variables.Keys) && IsSubstitution(tau, s.variables.Keys)
                        && Apply(sigma, s.intermediateType) == Apply(tau, s.intermediateType) ::
      Apply(sigma, s.returnType) == Apply(tau, s.returnType)
  }

  lemma NamesOfSingleton(t: TypeSig)
    ensures NamesOf([t]) == Names(t)
  {
    forall n | n in Names(t) ensures n in NamesOf([t]) { assert n in Names([t][0]); }
  }

  lemma ResolvableIsVariableContainment(s: AggregateSignature)
    requires PlainVariables(s.intermediateType, s.variables.Keys) && PlainVariables(s.returnType, s.variables.Keys)
    ensures Resolvable(s) <==> NF.Variables(s.returnType, s.variables.Keys) <= NF.Variables(s.intermediateType, s.variables.Keys)
  {
    NamesOfSingleton(s.returnType);
    NamesOfSingleton(s.intermediateType);
    VariablesAreUsedNames(s.returnType, s.variables.Keys);
    VariablesAreUsedNames(s.intermediateType, s.variables.Keys);
    forall v
      ensures v in NF.Variables(s.returnType, s.variables.Keys) <==> v in UsedTypeVariables([s.returnType], s.variables)
    {}
  }

  /** The syntactic test is sound and complete. */
  lemma ResolvableIffDetermined(s: AggregateSignature)
    requires PlainVariables(s.intermediateType, s.variables.Keys) && PlainVariables(s.returnType, s.variables.Keys)
    ensures Resolvable(s) <==> Determined(s)
  {
    var vars := s.variables.Keys;
    ResolvableIsVariableContainment(s);
    if Resolvable(s) {
      forall sigma, tau | IsSubstitution(sigma, vars) && IsSubstitution(tau, vars)
                          && Apply(sigma, s.intermediateType) == Apply(tau, s.intermediateType)
        ensures Apply(sigma, s.returnType) == Apply(tau, s.returnType)
      {
        ApplyEqualIffAgree(sigma, tau, s.intermediateType, vars);
        ApplyEqualIffAgree(sigma, tau, s.returnType, vars);
      }
    } else {
      var v :| v in NF.Variables(s.returnType, vars) && v !in NF.Variables(s.intermediateType, vars);
      NotDetermined(s, v);
    }
  }

  lemma NotDetermined(s: AggregateSignature, v: string)
    requires PlainVariables(s.returnType, s.variables.Keys)
    requires v in NF.Variables(s.returnType, s.variables.Keys) && v !in NF.Variables(s.intermediateType, s.variables.Keys)
    ensures !Determined(s)
  {
    var vars := s.variables.Keys;
    var sigma, tau := AllBigintExcept(vars, v, "bigint"), AllBigintExcept(vars, v, "double");
    ApplyEqualIffAgree(sigma, tau, s.intermediateType, vars);
    ApplyEqualIffAgree(sigma, tau, s.returnType, vars);
    assert sigma[v] != tau[v];
  }

  /** Every variable is bigint, except that `v` is `name`. */
  ghost function AllBigintExcept(vars: set<string>, v: string, name: string): (sigma: map<string, TypeSig>)
    ensures IsSubstitution(sigma, vars)
    ensures forall w :: w in vars ==> sigma[w] == TypeSig(if w == v then name else "bigint", [], None)
  {
    map w | w in vars :: TypeSig(if w == v then name else "bigint", [], None)
  }

  // ----- the signature builders -----

  function PartialSignature(s: AggregateSignature): AggregateSignature {
    AggregateSignature(UsedTypeVariables(s.argumentTypes + [s.intermediateType], s.variables),
                       s.intermediateType, s.intermediateType, s.argumentTypes, s.constantArguments, s.variableArity)
  }

  function MergeSignature(s: AggregateSignature): AggregateSignature {
    AggregateSignature(UsedTypeVariables([s.intermediateType], s.variables),
                       s.intermediateType, s.intermediateType, [s.intermediateType], [false], false)
  }

  function MergeExtractSignature(s: AggregateSignature): Option<AggregateSignature> {
    if !Resolvable(s) then None
    else Some(AggregateSignature(UsedTypeVariables([s.intermediateType, s.returnType], s.variables),
                                 s.returnType, s.intermediateType, [s.intermediateType], [false], false))
  }

  function ExtractSignature(s: AggregateSignature): Option<FunctionSignature> {
    if !Resolvable(s) then None
    else Some(FunctionSignature(UsedTypeVariables([s.intermediateType, s.returnType], s.variables),
                                s.returnType, [s.intermediateType], [false], false))
  }

  /** `declared` is exactly the part of `all` that the listed types mention. */
  ghost predicate DeclaresExactly(declared: Variables, types: seq<TypeSig>, all: Variables) {
    && (forall v :: v in declared <==> v in all && v in NamesOf(types))
    && (forall v :: v in declared ==> declared[v] == all[v])
  }

  lemma NamesOfSubset(ts: seq<TypeSig>, us: seq<TypeSig>)
    requires forall i | 0 <= i < |ts| :: ts[i] in us
    ensures NamesOf(ts) <= NamesOf(us)
  {
    forall n | n in NamesOf(ts)
      ensures n in NamesOf(us)
    {
      var i :| 0 <= i < |ts| && n in Names(ts[i]);
      var j :| 0 <= j < |us| && us[j] == ts[i];
      assert n in Names(us[j]);
    }
  }

  /** Each companion signature declares exactly the variables that its own types use. */
  lemma CompanionsDeclareExactlyWhatTheyUse(s: AggregateSignature)
    ensures var p := PartialSignature(s);
            DeclaresExactly(p.variables, p.argumentTypes + [p.intermediateType, p.returnType], s.variables)
    ensures var m := MergeSignature(s);
            DeclaresExactly(m.variables, m.argumentTypes + [m.intermediateType, m.returnType], s.variables)
    ensures Resolvable(s) ==>
              var m := MergeExtractSignature(s).value;
              DeclaresExactly(m.variables, m.argumentTypes + [m.intermediateType, m.returnType], s.variables)
    ensures Resolvable(s) ==>
              var x := ExtractSignature(s).value;
              DeclaresExactly(x.variables, x.argumentTypes + [x.returnType], s.variables)
  {
    var i, r, args := s.intermediateType, s.returnType, s.argumentTypes;
    NamesOfSubset(args + [i], args + [i, i]);
    NamesOfSubset(args + [i, i], args + [i]);
    NamesOfSubset([i], [i] + [i, i]);
    NamesOfSubset([i] + [i, i], [i]);
    NamesOfSubset([i, r], [i] + [i, r]);
    NamesOfSubset([i] + [i, r], [i, r]);
    NamesOfSubset([i, r], [i] + [r]);
    NamesOfSubset([i] + [r], [i, r]);
  }

  /** The stages fit together: what partial aggregation returns for the arguments of the aggregate is what merge takes
      and returns, and what both extractions take; these exist exactly when the intermediate type determines the return
      type, and return it. */
  lemma StagesCompose(s: AggregateSignature)
    requires PlainVariables(s.intermediateType, s.variables.Keys) && PlainVariables(s.returnType, s.variables.Keys)
    ensures var p := PartialSignature(s);
            && p.argumentTypes == s.argumentTypes && p.constantArguments == s.constantArguments && p.variableArity == s.variableArity
            && p.returnType == p.intermediateType == s.intermediateType
    ensures var p, m := PartialSignature(s), MergeSignature(s);
            && m.argumentTypes == [p.returnType] && m.constantArguments == [false] && !m.variableArity
            && m.returnType == m.intermediateType == p.returnType
    ensures MergeExtractSignature(s).Some? <==> Determined(s)
    ensures ExtractSignature(s).Some? <==> Determined(s)
    ensures Determined(s) ==>
              var m, x := MergeSignature(s), MergeExtractSignature(s).value;
              && x.argumentTypes == [m.returnType] && x.constantArguments == [false] && !x.variableArity
              && x.intermediateType == m.intermediateType && x.returnType == s.returnType
    ensures Determined(s) ==>
              var m, x := MergeSignature(s), ExtractSignature(s).value;
              && x.argumentTypes == [m.returnType] && x.constantArguments == [false] && !x.variableArity
              && x.returnType == s.returnType
  {
    ResolvableIffDetermined(s);
  }

  // ----- deduplication -----

  /** The first processable signature of its class. */
  ghost predicate Kept<T, K>(ss: seq<AggregateSignature>, process: AggregateSignature -> Option<T>, key: AggregateSignature -> K, i: int) {
    && 0 <= i < |ss| && process(ss[i]).Some?
    && forall j | 0 <= j < i && process(ss[j]).Some? :: key(ss[j]) != key(ss[i])
  }

  /** The processed form of the kept signatures, in input order. */
  ghost function Distinctly<T, K>(ss: seq<AggregateSignature>, process: AggregateSignature -> Option<T>, key: AggregateSignature -> K): seq<T> {
    if ss == [] then []
    else
      var n := |ss| - 1;
      Distinctly(ss[..n], process, key) + (if Kept(ss, process, key, n) then [process(ss[n]).value] else [])
  }

  function IntermediateKey(s: AggregateSignature): TypeSig {
    NormalizeType(s.intermediateType, s.variables.Keys)
  }

  function PairKey(s: AggregateSignature): (TypeSig, TypeSig) {
    (NormalizeType(s.intermediateType, s.variables.Keys), NormalizeType(s.returnType, s.variables.Keys))
  }

  method ProcessSignaturesOfDistinctTypes<T>(ss: seq<AggregateSignature>, process: AggregateSignature -> Option<T>) returns (result: seq<T>)
    ensures result == Distinctly(ss, process, PairKey)
  {
    var distinct: set<(TypeSig, TypeSig)> := {};
    result := [];
    for i := 0 to |ss|
      invariant distinct == set j | 0 <= j < i && process(ss[j]).Some? :: PairKey(ss[j])
      invariant result == Distinctly(ss[..i], process, PairKey)
    {
      var inter := ComputeNormalizeType(ss[i].intermediateType, ss[i].variables.Keys);
      var ret := ComputeNormalizeType(ss[i].returnType, ss[i].variables.Keys);
      assert ss[..i + 1][..i] == ss[..i];
      assert forall j | 0 <= j <= i :: ss[..i + 1][j] == ss[j];
      if (inter, ret) !in distinct {
        var processed := process(ss[i]);
        if processed.Some? {
          assert Kept(ss[..i + 1], process, PairKey, i);
          result := result + [processed.value];
          distinct := distinct + {(inter, ret)};
        }
      } else {
        assert !Kept(ss[..i + 1], process, PairKey, i);
      }
    }
    assert ss[..|ss|] == ss;
  }

  method ProcessSignaturesOfDistinctIntermediateTypes(ss: seq<AggregateSignature>, process: AggregateSignature -> Option<AggregateSignature>)
    returns (result: seq<AggregateSignature>)
    ensures result == Distinctly(ss, process, IntermediateKey)
  {
    var distinct: set<TypeSig> := {};
    result := [];
    for i := 0 to |ss|
      invariant distinct == set j | 0 <= j < i && process(ss[j]).Some? :: IntermediateKey(ss[j])
      invariant result == Distinctly(ss[..i], process, IntermediateKey)
    {
      var inter := ComputeNormalizeType(ss[i].intermediateType, ss[i].variables.Keys);
      assert ss[..i + 1][..i] == ss[..i];
      assert forall j | 0 <= j <= i :: ss[..i + 1][j] == ss[j];
      if inter !in distinct {
        var processed := process(ss[i]);
        if processed.Some? {
          assert Kept(ss[..i + 1], process, IntermediateKey, i);
          result := result + [processed.value];
          distinct := distinct + {inter};
        }
      } else {
        assert !Kept(ss[..i + 1], process, IntermediateKey, i);
      }
    }
    assert ss[..|ss|] == ss;
  }

  /** Every processable signature has exactly one kept representative of its class, and it comes first. */
  lemma {:induction false} OneRepresentativePerClass<T, K>(
      ss: seq<AggregateSignature>, process: AggregateSignature -> Option<T>, key: AggregateSignature -> K, i: nat)
    requires i < |ss| && process(ss[i]).Some?
    ensures exists j :: j <= i && Kept(ss, process, key, j) && key(ss[j]) == key(ss[i])
    ensures forall j, k :: Kept(ss, process, key, j) && Kept(ss, process, key, k) && key(ss[j]) == key(ss[k]) ==> j == k
    decreases i
  {
    if Kept(ss, process, key, i) {
    } else {
      var j :| 0 <= j < i && process(ss[j]).Some? && key(ss[j]) == key(ss[i]);
      OneRepresentativePerClass(ss, process, key, j);
    }
  }

  ghost function SomeOf<T>(f: AggregateSignature -> T): AggregateSignature -> Option<T> {
    (s: AggregateSignature) => Some(f(s))
  }

  ghost function MergeSignatures(ss: seq<AggregateSignature>): seq<AggregateSignature> {
    Distinctly(ss, SomeOf(MergeSignature), IntermediateKey)
  }

  ghost predicate SameIntermediate(ss: seq<AggregateSignature>) {
    exists i, j :: 0 <= i < j < |ss| && IntermediateKey(ss[i]) == IntermediateKey(ss[j])
  }

  method HasSameIntermediateTypesAcrossSignatures(ss: seq<AggregateSignature>) returns (same: bool)
    ensures same == SameIntermediate(ss)
  {
    var seen: set<TypeSig> := {};
    for i := 0 to |ss|
      invariant seen == set j | 0 <= j < i :: IntermediateKey(ss[j])
      invariant !exists j, k :: 0 <= j < k < i && IntermediateKey(ss[j]) == IntermediateKey(ss[k])
    {
      var normalized := ComputeNormalizeType(ss[i].intermediateType, ss[i].variables.Keys);
      if normalized in seen {
        return true;
      }
      seen := seen + {normalized};
    }
    same := false;
  }

  /** Among the first n + 1 signatures a key repeats if it does among the first n, or the last one repeats. */
  lemma SameIntermediateSnoc(ss: seq<AggregateSignature>, n: nat)
    requires |ss| == n + 1
    ensures SameIntermediate(ss) <==>
            SameIntermediate(ss[..n]) || exists j :: 0 <= j < n && IntermediateKey(ss[j]) == IntermediateKey(ss[n])
  {
    var init := ss[..n];
    if SameIntermediate(ss) {
      var i, j :| 0 <= i < j < |ss| && IntermediateKey(ss[i]) == IntermediateKey(ss[j]);
      if j < n { assert IntermediateKey(init[i]) == IntermediateKey(init[j]); }
    }
    if SameIntermediate(init) {
      var i, j :| 0 <= i < j < |init| && IntermediateKey(init[i]) == IntermediateKey(init[j]);
      assert IntermediateKey(ss[i]) == IntermediateKey(ss[j]);
    }
  }

  /** hasSameIntermediateTypesAcrossSignatures holds exactly when merging drops a signature. */
  lemma {:induction false} SameIntermediateIffMergeShorter(ss: seq<AggregateSignature>)
    ensures |MergeSignatures(ss)| <= |ss|
    ensures SameIntermediate(ss) <==> |MergeSignatures(ss)| < |ss|
  {
    if ss != [] {
      var n := |ss| - 1;
      SameIntermediateIffMergeShorter(ss[..n]);
      SameIntermediateSnoc(ss, n);
      assert Kept(ss, SomeOf(MergeSignature), IntermediateKey, n) <==>
             !exists j :: 0 <= j < n && IntermediateKey(ss[j]) == IntermediateKey(ss[n]);
    }
  }

  // ----- grouping -----

  /** The signatures with return type `t`, in order. */
  function GroupOf(ss: seq<AggregateSignature>, t: TypeSig): seq<AggregateSignature> {
    if ss == [] then []
    else
      var n := |ss| - 1;
      GroupOf(ss[..n], t) + if ss[n].returnType == t then [ss[n]] else []
  }

  function ReturnTypes(ss: seq<AggregateSignature>): set<TypeSig> {
    set i | 0 <= i < |ss| :: ss[i].returnType
  }

  lemma GroupsSnoc(ss: seq<AggregateSignature>, i: nat)
    requires i < |ss|
    ensures ReturnTypes(ss[..i + 1]) == ReturnTypes(ss[..i]) + {ss[i].returnType}
    ensures forall t :: GroupOf(ss[..i + 1], t) == GroupOf(ss[..i], t) + if ss[i].returnType == t then [ss[i]] else []
  {
    var longer := ss[..i + 1];
    assert longer[..i] == ss[..i] && longer[i] == ss[i];
    forall t | t in ReturnTypes(ss[..i]) + {ss[i].returnType}
      ensures t in ReturnTypes(longer)
    {
      if t in ReturnTypes(ss[..i]) {
        var j :| 0 <= j < i && ss[..i][j].returnType == t;
        assert longer[j].returnType == t;
      } else {
        assert longer[i].returnType == t;
      }
    }
    forall t | t in ReturnTypes(longer)
      ensures t in ReturnTypes(ss[..i]) + {ss[i].returnType}
    {
      var j :| 0 <= j < i + 1 && longer[j].returnType == t;
      if j < i { assert ss[..i][j].returnType == t; }
    }
  }

  lemma {:induction false} GroupOfMissing(ss: seq<AggregateSignature>, t: TypeSig)
    ensures GroupOf(ss, t) == [] <==> t !in ReturnTypes(ss)
  {
    if ss != [] {
      var n := |ss| - 1;
      GroupOfMissing(ss[..n], t);
      GroupsSnoc(ss, n);
      assert ss[..n + 1] == ss;
    }
  }

  method GroupSignaturesByReturnType(ss: seq<AggregateSignature>) returns (groups: map<TypeSig, seq<AggregateSignature>>)
    ensures groups.Keys == ReturnTypes(ss)
    ensures forall t <- groups :: groups[t] == GroupOf(ss, t)
  {
    groups := map[];
    for i := 0 to |ss|
      invariant groups.Keys == ReturnTypes(ss[..i])
      invariant forall t <- groups :: groups[t] == GroupOf(ss[..i], t)
    {
      var t := ss[i].returnType;
      GroupsSnoc(ss, i);
      GroupOfMissing(ss[..i], t);
      groups := groups[t := (if t in groups then groups[t] else []) + [ss[i]]];
    }
    assert ss[..|ss|] == ss;
  }
}
