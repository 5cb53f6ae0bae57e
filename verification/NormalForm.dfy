/** normalizeType is a normal form for renaming: two types normalise alike exactly when a bijection between
    their variables turns one into the other (bolt/exec/AggregateCompanionSignatures.cpp:264-298). */
module NormalForm {
  import opened Types
  import opened Sequences
  import opened TypeSignatures

  /** The variables of `t`. */
  function Variables(t: TypeSig, vars: set<string>): (used: set<string>)
    ensures used <= vars
  {
    if t.baseName in vars then {t.baseName}
    else set i, v | 0 <= i < |t.parameters| && v in Variables(t.parameters[i], vars) :: v
  }

  /** Renaming variables by `rho` turns `t` into `u`. Row field names are kept on concrete leaves only, as
      normalisation keeps them. */
  predicate Matches(t: TypeSig, vars: set<string>, u: TypeSig, wars: set<string>, rho: map<string, string>) {
    if t.baseName in vars || u.baseName in wars then
      t.baseName in vars && u.baseName in wars && t.baseName in rho && rho[t.baseName] == u.baseName
    else
      && t.baseName == u.baseName
      && |t.parameters| == |u.parameters|
      && (t.parameters == [] ==> t.rowFieldName == u.rowFieldName)
      && forall i | 0 <= i < |t.parameters| :: Matches(t.parameters[i], vars, u.parameters[i], wars, rho)
  }

  ghost predicate Injective(rho: map<string, string>) {
    forall v, w :: v in rho && w in rho && rho[v] == rho[w] ==> v == w
  }

  /** `rho` is a bijection between the variables of the two types that turns one into the other. */
  ghost predicate IsRenaming(t: TypeSig, vars: set<string>, u: TypeSig, wars: set<string>, rho: map<string, string>) {
    && Injective(rho)
    && rho.Keys == Variables(t, vars) && rho.Values == Variables(u, wars)
    && Matches(t, vars, u, wars, rho)
  }

  /** No concrete leaf type is called T<k>. */
  ghost predicate NoFreshLeaf(t: TypeSig, vars: set<string>) {
    t.baseName in vars ||
    if t.parameters == [] then t.rowFieldName.None? ==> forall k: nat :: t.baseName != FreshName(k)
    else forall i | 0 <= i < |t.parameters| :: NoFreshLeaf(t.parameters[i], vars)
  }

  /** The two types have variables in the same places. */
  predicate SamePlaces(t: TypeSig, vars: set<string>, u: TypeSig, wars: set<string>) {
    if t.baseName in vars || u.baseName in wars then t.baseName in vars && u.baseName in wars
    else |t.parameters| == |u.parameters| ==>
           forall i | 0 <= i < |t.parameters| :: SamePlaces(t.parameters[i], vars, u.parameters[i], wars)
  }

  // ----- which variables are met -----

  lemma {:induction false} VisitMeetsVariables(t: TypeSig, vars: set<string>, order: seq<string>)
    ensures (set v | v in Visit(t, vars, order)) == (set v | v in order) + Variables(t, vars)
    decreases t
  {
    if t.baseName !in vars {
      VisitAllMeetsVariables(t.parameters, vars, order);
      assert Variables(t, vars) == VariablesOf(t.parameters, vars);
    }
  }

  ghost function VariablesOf(ts: seq<TypeSig>, vars: set<string>): set<string> {
    set i, v | 0 <= i < |ts| && v in Variables(ts[i], vars) :: v
  }

  lemma {:induction false} VisitAllMeetsVariables(ts: seq<TypeSig>, vars: set<string>, order: seq<string>)
    ensures (set v | v in VisitAll(ts, vars, order)) == (set v | v in order) + VariablesOf(ts, vars)
    decreases ts
  {
    if ts != [] {
      VisitMeetsVariables(ts[0], vars, order);
      VisitAllMeetsVariables(ts[1..], vars, Visit(ts[0], vars, order));
      VariablesOfCons(ts, vars);
    }
  }

  lemma VariablesOfCons(ts: seq<TypeSig>, vars: set<string>)
    requires ts != []
    ensures VariablesOf(ts, vars) == Variables(ts[0], vars) + VariablesOf(ts[1..], vars)
  {
    forall v | v in VariablesOf(ts, vars)
      ensures v in Variables(ts[0], vars) + VariablesOf(ts[1..], vars)
    {
      var i :| 0 <= i < |ts| && v in Variables(ts[i], vars);
      if i > 0 { assert v in Variables(ts[1..][i - 1], vars); }
    }
    forall v | v in VariablesOf(ts[1..], vars)
      ensures v in VariablesOf(ts, vars)
    {
      var i :| 0 <= i < |ts[1..]| && v in Variables(ts[1..][i], vars);
      assert v in Variables(ts[i + 1], vars);
    }
  }

  // ----- equal normal forms give a renaming -----

  lemma PrefixIndex(prefix: seq<string>, order: seq<string>, v: string)
    requires prefix <= order && Distinct(order) && v in order
    ensures v in prefix <==> IndexOf(order, v) < |prefix|
  {
    if v in prefix { IndexOfAt(order, IndexOf(prefix, v)); }
  }

  lemma {:induction false} SameNormalFormSameHead(
      t: TypeSig, vars: set<string>, order: seq<string>, u: TypeSig, wars: set<string>, order': seq<string>)
    requires Known(t, vars, order) && Known(u, wars, order')
    requires SamePlaces(t, vars, u, wars)
    requires Renamed(t, vars, order) == Renamed(u, wars, order')
    ensures t.baseName in vars ==> IndexOf(order, t.baseName) == IndexOf(order', u.baseName)
    ensures t.baseName !in vars ==>
              && t.baseName == u.baseName && |t.parameters| == |u.parameters|
              && (t.parameters == [] ==> t.rowFieldName == u.rowFieldName)
              && forall i | 0 <= i < |t.parameters| ::
                   Renamed(t.parameters[i], vars, order) == Renamed(u.parameters[i], wars, order')
  {
    if t.baseName in vars && u.baseName in wars {
      FreshNameInjective(IndexOf(order, t.baseName), IndexOf(order', u.baseName));
    } else if t.baseName !in vars && u.baseName !in wars && t.parameters != [] {
      forall i | 0 <= i < |t.parameters|
        ensures Renamed(t.parameters[i], vars, order) == Renamed(u.parameters[i], wars, order')
      {
        assert Renamed(t, vars, order).parameters[i] == Renamed(u, wars, order').parameters[i];
      }
    }
  }

  lemma {:induction false} SameNormalFormSameCount(
      t: TypeSig, vars: set<string>, order: seq<string>, p: seq<string>,
      u: TypeSig, wars: set<string>, order': seq<string>, q: seq<string>)
    requires Distinct(order) && Distinct(order') && Visit(t, vars, p) <= order && Visit(u, wars, q) <= order'
    requires p <= order && q <= order' && |p| == |q|
    requires SamePlaces(t, vars, u, wars)
    requires Known(t, vars, order) && Known(u, wars, order') && Renamed(t, vars, order) == Renamed(u, wars, order')
    ensures |Visit(t, vars, p)| == |Visit(u, wars, q)|
    decreases t
  {
    SameNormalFormSameHead(t, vars, order, u, wars, order');
    if t.baseName in vars {
      PrefixIndex(p, order, t.baseName);
      PrefixIndex(q, order', u.baseName);
    } else {
      SameNormalFormsSameCount(t.parameters, vars, order, p, u.parameters, wars, order', q);
    }
  }

  lemma {:induction false} SameNormalFormsSameCount(
      ts: seq<TypeSig>, vars: set<string>, order: seq<string>, p: seq<string>,
      us: seq<TypeSig>, wars: set<string>, order': seq<string>, q: seq<string>)
    requires Distinct(order) && Distinct(order') && VisitAll(ts, vars, p) <= order && VisitAll(us, wars, q) <= order'
    requires p <= order && q <= order' && |p| == |q| && |ts| == |us|
    requires forall i | 0 <= i < |ts| ::
      && SamePlaces(ts[i], vars, us[i], wars)
      && Known(ts[i], vars, order) && Known(us[i], wars, order') && Renamed(ts[i], vars, order) == Renamed(us[i], wars, order')
    ensures |VisitAll(ts, vars, p)| == |VisitAll(us, wars, q)|
    decreases ts
  {
    if ts != [] {
      var p', q' := Visit(ts[0], vars, p), Visit(us[0], wars, q);
      VisitAllExtends(ts[1..], vars, p');
      VisitAllExtends(us[1..], wars, q');
      SameNormalFormSameCount(ts[0], vars, order, p, us[0], wars, order', q);
      SameNormalFormsSameCount(ts[1..], vars, order, p', us[1..], wars, order', q');
    }
  }

  /** Pair the variables of two orders by position. */
  ghost function Pairing(order: seq<string>, order': seq<string>): map<string, string>
    requires |order| == |order'|
  {
    map v | v in order :: order'[IndexOf(order, v)]
  }

  lemma {:induction false} SameNormalFormMatches(
      t: TypeSig, vars: set<string>, order: seq<string>, u: TypeSig, wars: set<string>, order': seq<string>)
    requires |order| == |order'|
    requires SamePlaces(t, vars, u, wars)
    requires Known(t, vars, order) && Known(u, wars, order') && Renamed(t, vars, order) == Renamed(u, wars, order')
    ensures Matches(t, vars, u, wars, Pairing(order, order'))
    decreases t
  {
    SameNormalFormSameHead(t, vars, order, u, wars, order');
    if t.baseName !in vars {
      forall i | 0 <= i < |t.parameters| {
        SameNormalFormMatches(t.parameters[i], vars, order, u.parameters[i], wars, order');
      }
    }
  }

  lemma PairingIsBijection(order: seq<string>, order': seq<string>)
    requires Distinct(order) && Distinct(order') && |order| == |order'|
    ensures Injective(Pairing(order, order'))
    ensures Pairing(order, order').Keys == set v | v in order
    ensures Pairing(order, order').Values == set v | v in order'
  {
    var rho := Pairing(order, order');
    forall v | v in order'
      ensures v in rho.Values
    {
      var i := IndexOf(order', v);
      IndexOfAt(order, i);
      assert rho[order[i]] == v;
    }
  }

  // ----- a renaming gives equal normal forms -----

  function MapNames(rho: map<string, string>, order: seq<string>): (r: seq<string>)
    requires forall v <- order :: v in rho
    ensures |r| == |order|
    ensures forall i | 0 <= i < |order| :: order[i] in rho && r[i] == rho[order[i]]
  {
    seq(|order|, i requires 0 <= i < |order| => assert order[i] in order; rho[order[i]])
  }

  lemma MapNamesIndex(rho: map<string, string>, order: seq<string>, v: string)
    requires Injective(rho) && Distinct(order) && (forall w <- order :: w in rho) && v in rho
    ensures v in order <==> rho[v] in MapNames(rho, order)
    ensures v in order ==> IndexOf(MapNames(rho, order), rho[v]) == IndexOf(order, v)
    ensures Distinct(MapNames(rho, order))
  {
    var image := MapNames(rho, order);
    assert Distinct(image);
    if rho[v] in image {
      var i := IndexOf(image, rho[v]);
      assert order[i] == v;
    }
    if v in order {
      var i := IndexOf(order, v);
      assert image[i] == rho[v];
      IndexOfAt(image, i);
    }
  }

  lemma {:induction false} MatchesVisitsAlike(
      t: TypeSig, vars: set<string>, u: TypeSig, wars: set<string>, rho: map<string, string>, order: seq<string>)
    requires Injective(rho) && Distinct(order) && (forall v <- order :: v in rho) && Matches(t, vars, u, wars, rho)
    ensures forall v <- Visit(t, vars, order) :: v in rho
    ensures Visit(u, wars, MapNames(rho, order)) == MapNames(rho, Visit(t, vars, order))
    decreases t
  {
    if t.baseName in vars {
      MapNamesIndex(rho, order, t.baseName);
    } else {
      MatchesVisitAllAlike(t.parameters, vars, u.parameters, wars, rho, order);
    }
  }

  lemma {:induction false} MatchesVisitAllAlike(
      ts: seq<TypeSig>, vars: set<string>, us: seq<TypeSig>, wars: set<string>, rho: map<string, string>, order: seq<string>)
    requires Injective(rho) && Distinct(order) && (forall v <- order :: v in rho) && |ts| == |us|
    requires forall i | 0 <= i < |ts| :: Matches(ts[i], vars, us[i], wars, rho)
    ensures forall v <- VisitAll(ts, vars, order) :: v in rho
    ensures VisitAll(us, wars, MapNames(rho, order)) == MapNames(rho, VisitAll(ts, vars, order))
    decreases ts
  {
    if ts != [] {
      MatchesVisitsAlike(ts[0], vars, us[0], wars, rho, order);
      VisitExtends(ts[0], vars, order);
      MatchesVisitAllAlike(ts[1..], vars, us[1..], wars, rho, Visit(ts[0], vars, order));
    }
  }

  lemma {:induction false} MatchesRenamedAlike(
      t: TypeSig, vars: set<string>, u: TypeSig, wars: set<string>, rho: map<string, string>, order: seq<string>)
    requires Injective(rho) && Distinct(order) && (forall v <- order :: v in rho)
    requires Matches(t, vars, u, wars, rho) && Known(t, vars, order)
    ensures Known(u, wars, MapNames(rho, order))
    ensures Renamed(t, vars, order) == Renamed(u, wars, MapNames(rho, order))
    decreases t
  {
    if t.baseName in vars {
      MapNamesIndex(rho, order, t.baseName);
    } else {
      forall i | 0 <= i < |t.parameters| {
        MatchesRenamedAlike(t.parameters[i], vars, u.parameters[i], wars, rho, order);
      }
    }
  }

  /** An injective renaming of one type into the other makes the normal forms equal. */
  lemma RenamingPreservesNormalForm(t: TypeSig, vars: set<string>, u: TypeSig, wars: set<string>, rho: map<string, string>)
    requires Injective(rho) && Matches(t, vars, u, wars, rho)
    ensures NormalizeType(t, vars) == NormalizeType(u, wars)
  {
    VisitExtends(t, vars, []);
    MatchesVisitsAlike(t, vars, u, wars, rho, []);
    MatchesRenamedAlike(t, vars, u, wars, rho, Visit(t, vars, []));
  }

  /** Types with equal normal forms are renamings of each other, variable by variable in the order met. */
  lemma EqualNormalFormsPairUp(t: TypeSig, vars: set<string>, u: TypeSig, wars: set<string>)
    requires SamePlaces(t, vars, u, wars)
    requires NormalizeType(t, vars) == NormalizeType(u, wars)
    ensures |Visit(t, vars, [])| == |Visit(u, wars, [])|
    ensures IsRenaming(t, vars, u, wars, Pairing(Visit(t, vars, []), Visit(u, wars, [])))
  {
    var order, order' := Visit(t, vars, []), Visit(u, wars, []);
    VisitExtends(t, vars, []);
    VisitExtends(u, wars, []);
    SameNormalFormSameCount(t, vars, order, [], u, wars, order', []);
    SameNormalFormMatches(t, vars, order, u, wars, order');
    PairingIsBijection(order, order');
    MeetsItsVariables(t, vars);
    MeetsItsVariables(u, wars);
  }

  lemma MeetsItsVariables(t: TypeSig, vars: set<string>)
    ensures (set v | v in Visit(t, vars, [])) == Variables(t, vars)
  {
    VisitMeetsVariables(t, vars, []);
  }

  /** Types are renamings of each other exactly when their normal forms are equal and their variables are in the
      same places. */
  lemma RenamingIffEqualNormalForms(t: TypeSig, vars: set<string>, u: TypeSig, wars: set<string>)
    ensures (exists rho :: IsRenaming(t, vars, u, wars, rho)) <==>
            NormalizeType(t, vars) == NormalizeType(u, wars) && SamePlaces(t, vars, u, wars)
  {
    if NormalizeType(t, vars) == NormalizeType(u, wars) && SamePlaces(t, vars, u, wars) {
      EqualNormalFormsPairUp(t, vars, u, wars);
    }
    forall rho | IsRenaming(t, vars, u, wars, rho)
      ensures NormalizeType(t, vars) == NormalizeType(u, wars) && SamePlaces(t, vars, u, wars)
    {
      RenamingPreservesNormalForm(t, vars, u, wars, rho);
      MatchesSamePlaces(t, vars, u, wars, rho);
    }
  }

  lemma {:induction false} MatchesSamePlaces(t: TypeSig, vars: set<string>, u: TypeSig, wars: set<string>, rho: map<string, string>)
    requires Matches(t, vars, u, wars, rho)
    ensures SamePlaces(t, vars, u, wars)
    ensures NoFreshLeaf(t, vars) <==> NoFreshLeaf(u, wars)
    decreases t
  {
    if t.baseName !in vars {
      forall i | 0 <= i < |t.parameters| {
        MatchesSamePlaces(t.parameters[i], vars, u.parameters[i], wars, rho);
      }
    }
  }

  lemma {:induction false} NoFreshLeafSamePlaces(
      t: TypeSig, vars: set<string>, order: seq<string>, u: TypeSig, wars: set<string>, order': seq<string>)
    requires NoFreshLeaf(t, vars) && NoFreshLeaf(u, wars)
    requires Known(t, vars, order) && Known(u, wars, order') && Renamed(t, vars, order) == Renamed(u, wars, order')
    ensures SamePlaces(t, vars, u, wars)
    decreases t
  {
    if t.baseName !in vars && u.baseName !in wars && |t.parameters| == |u.parameters| {
      forall i | 0 <= i < |t.parameters|
        ensures SamePlaces(t.parameters[i], vars, u.parameters[i], wars)
      {
        assert Renamed(t, vars, order).parameters[i] == Renamed(u, wars, order').parameters[i];
        NoFreshLeafSamePlaces(t.parameters[i], vars, order, u.parameters[i], wars, order');
      }
    }
  }

  /** Without concrete leaves called T<k>, normal forms are equal exactly when the types are renamings of each other. */
  lemma NormalFormsEqualIffRenaming(t: TypeSig, vars: set<string>, u: TypeSig, wars: set<string>)
    requires NoFreshLeaf(t, vars) && NoFreshLeaf(u, wars)
    ensures NormalizeType(t, vars) == NormalizeType(u, wars) <==> exists rho :: IsRenaming(t, vars, u, wars, rho)
  {
    RenamingIffEqualNormalForms(t, vars, u, wars);
    VisitExtends(t, vars, []);
    VisitExtends(u, wars, []);
    if NormalizeType(t, vars) == NormalizeType(u, wars) {
      NoFreshLeafSamePlaces(t, vars, Visit(t, vars, []), u, wars, Visit(u, wars, []));
    }
  }

  // ----- normalising twice -----

  /** The fresh names a normalised type uses as its variables. */
  function FreshNames(n: nat): set<string> {
    set k | 0 <= k < n :: FreshName(k)
  }

  lemma RenamingInjective(order: seq<string>)
    ensures Injective(RenamingOf(order))
  {
    forall v, w | v in order && w in order && FreshName(IndexOf(order, v)) == FreshName(IndexOf(order, w))
      ensures v == w
    {
      FreshNameInjective(IndexOf(order, v), IndexOf(order, w));
    }
  }

  /** No concrete type, leaf or not, is called T<k>. */
  ghost predicate NoFreshConcrete(t: TypeSig, vars: set<string>) {
    t.baseName in vars ||
    ( && (forall k: nat :: t.baseName != FreshName(k))
      && forall i | 0 <= i < |t.parameters| :: NoFreshConcrete(t.parameters[i], vars))
  }

  lemma {:induction false} RenamedMatchesOriginal(t: TypeSig, vars: set<string>, order: seq<string>)
    requires Known(t, vars, order) && NoFreshConcrete(t, vars)
    ensures Matches(t, vars, Renamed(t, vars, order), FreshNames(|order|), RenamingOf(order))
    decreases t
  {
    if t.baseName in vars {
      assert FreshName(IndexOf(order, t.baseName)) in FreshNames(|order|);
    } else {
      forall i | 0 <= i < |t.parameters| { RenamedMatchesOriginal(t.parameters[i], vars, order); }
    }
  }

  /** Normalising a normalised type changes nothing. */
  lemma NormalizeIdempotent(t: TypeSig, vars: set<string>)
    requires NoFreshConcrete(t, vars)
    ensures NormalizeType(NormalizeType(t, vars), FreshNames(|Visit(t, vars, [])|)) == NormalizeType(t, vars)
  {
    var order := Visit(t, vars, []);
    VisitExtends(t, vars, []);
    RenamingInjective(order);
    RenamedMatchesOriginal(t, vars, order);
    RenamingPreservesNormalForm(t, vars, NormalizeType(t, vars), FreshNames(|order|), RenamingOf(order));
  }

  /** A concrete type called T0 is taken for a variable: the names T<k> must be free. */
  lemma FreshLeafBreaksNormalForm()
    ensures var concrete, variable := TypeSig("T0", [], None), TypeSig("K", [], None);
            && NormalizeType(concrete, {}) == NormalizeType(variable, {"K"})
            && !exists rho :: IsRenaming(concrete, {}, variable, {"K"}, rho)
  {
    var variable := TypeSig("K", [], None);
    assert Visit(variable, {"K"}, []) == ["K"];
    assert Decimal(0) == "0";
    assert FreshName(0) == "T0";
  }
}
