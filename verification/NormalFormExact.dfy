/** For which types the normal form is a normal form: a concrete leaf called T<k> does harm exactly when the
    leaves called T<k> come in the order of a normal form (bolt/exec/AggregateCompanionSignatures.cpp:264-298). */
module NormalFormExact {
  import opened Types
  import opened Sequences
  import opened TypeSignatures
  import opened NormalForm

  /** A leaf that looks like a renamed variable. */
  ghost predicate FreshLeaf(t: TypeSig) {
    t.parameters == [] && t.rowFieldName.None? && exists k: nat :: t.baseName == FreshName(k)
  }

  /** The names of such leaves in the order first met, after those in `order`. */
  ghost function FreshMet(t: TypeSig, order: seq<string>): seq<string>
    decreases t
  {
    if FreshLeaf(t) then Meet(order, t.baseName) else FreshMetAll(t.parameters, order)
  }

  ghost function FreshMetAll(ts: seq<TypeSig>, order: seq<string>): seq<string>
    decreases ts
  {
    if ts == [] then order else FreshMetAll(ts[1..], FreshMet(ts[0], order))
  }

  /** T0, T1, and so on. */
  ghost function FreshList(n: nat): (s: seq<string>)
    ensures |s| == n && forall k | 0 <= k < n :: s[k] == FreshName(k)
  {
    seq(n, k requires 0 <= k < n => FreshName(k))
  }

  /** The leaves called T<k> are first met in the order T0, T1, and so on. */
  ghost predicate InOrder(t: TypeSig) {
    FreshMet(t, []) == FreshList(|FreshMet(t, [])|)
  }

  // ----- normal forms are in order -----

  lemma FreshListMember(n: nat, k: nat)
    ensures FreshName(k) in FreshList(n) <==> k < n
  {
    if FreshName(k) in FreshList(n) {
      var j :| 0 <= j < n && FreshList(n)[j] == FreshName(k);
      FreshNameInjective(j, k);
    }
    if k < n { assert FreshList(n)[k] == FreshName(k); }
  }

  lemma {:induction false} RenamedInOrder(t: TypeSig, vars: set<string>, order: seq<string>, p: seq<string>)
    requires NoFreshLeaf(t, vars) && Distinct(order) && p <= order && Visit(t, vars, p) <= order && Known(t, vars, order)
    ensures FreshMet(Renamed(t, vars, order), FreshList(|p|)) == FreshList(|Visit(t, vars, p)|)
    decreases t
  {
    var r := Renamed(t, vars, order);
    if t.baseName in vars {
      var k := IndexOf(order, t.baseName);
      assert r.baseName == FreshName(k) && FreshLeaf(r);
      PrefixIndex(p, order, t.baseName);
      FreshListMember(|p|, k);
      if t.baseName !in p {
        assert Visit(t, vars, p) == p + [t.baseName];
        assert order[|p|] == t.baseName;
        IndexOfAt(order, |p|);
        assert FreshList(|p|) + [FreshName(k)] == FreshList(|p| + 1);
      }
    } else if t.parameters != [] {
      RenamedAllInOrder(t.parameters, vars, order, p, r.parameters);
    }
  }

  lemma {:induction false} RenamedAllInOrder(
      ts: seq<TypeSig>, vars: set<string>, order: seq<string>, p: seq<string>, rs: seq<TypeSig>)
    requires Distinct(order) && p <= order && VisitAll(ts, vars, p) <= order && |rs| == |ts|
    requires forall i | 0 <= i < |ts| ::
      NoFreshLeaf(ts[i], vars) && Known(ts[i], vars, order) && rs[i] == Renamed(ts[i], vars, order)
    ensures FreshMetAll(rs, FreshList(|p|)) == FreshList(|VisitAll(ts, vars, p)|)
    decreases ts
  {
    if ts != [] {
      var q := Visit(ts[0], vars, p);
      VisitAllExtends(ts[1..], vars, q);
      RenamedInOrder(ts[0], vars, order, p);
      RenamedAllInOrder(ts[1..], vars, order, q, rs[1..]);
    }
  }

  lemma NormalFormInOrder(t: TypeSig, vars: set<string>)
    requires NoFreshLeaf(t, vars)
    ensures InOrder(NormalizeType(t, vars))
  {
    VisitExtends(t, vars, []);
    assert FreshList(0) == [];
    RenamedInOrder(t, vars, Visit(t, vars, []), []);
  }

  // ----- a type in order is the normal form of a type with variables in those places -----

  /** All names in `t` are shorter than `n`. */
  predicate Shorter(t: TypeSig, n: nat) {
    |t.baseName| < n && forall i | 0 <= i < |t.parameters| :: Shorter(t.parameters[i], n)
  }

  function NameBound(t: TypeSig): nat {
    var below := NameBounds(t.parameters);
    if |t.baseName| + 1 > below then |t.baseName| + 1 else below
  }

  function NameBounds(ts: seq<TypeSig>): nat {
    if ts == [] then 0
    else
      var a, b := NameBound(ts[0]), NameBounds(ts[1..]);
      if a > b then a else b
  }

  lemma {:induction false} ShorterThanBound(t: TypeSig, n: nat)
    requires NameBound(t) <= n
    ensures Shorter(t, n)
    decreases t
  {
    AllShorterThanBound(t.parameters, n);
  }

  lemma {:induction false} AllShorterThanBound(ts: seq<TypeSig>, n: nat)
    requires NameBounds(ts) <= n
    ensures forall i | 0 <= i < |ts| :: Shorter(ts[i], n)
    decreases ts
  {
    if ts != [] {
      ShorterThanBound(ts[0], n);
      AllShorterThanBound(ts[1..], n);
      assert forall i | 0 < i < |ts| :: ts[i] == ts[1..][i - 1];
    }
  }

  /** Variables called `prefix` followed by T<k> in place of the leaves called T<k>. */
  ghost function Relabel(t: TypeSig, prefix: string): TypeSig {
    if FreshLeaf(t) then TypeSig(prefix + t.baseName, [], None)
    else t.(parameters := seq(|t.parameters|, i requires 0 <= i < |t.parameters| => Relabel(t.parameters[i], prefix)))
  }

  ghost function Prefixed(prefix: string, names: seq<string>): (r: seq<string>)
    ensures |r| == |names| && forall i | 0 <= i < |names| :: r[i] == prefix + names[i]
  {
    seq(|names|, i requires 0 <= i < |names| => prefix + names[i])
  }

  lemma PrefixedMember(prefix: string, names: seq<string>, v: string)
    ensures prefix + v in Prefixed(prefix, names) <==> v in names
    ensures v in names ==> Prefixed(prefix, names)[IndexOf(names, v)] == prefix + v
  {
    if prefix + v in Prefixed(prefix, names) {
      var i :| 0 <= i < |names| && Prefixed(prefix, names)[i] == prefix + v;
      assert (prefix + names[i])[|prefix|..] == names[i] && (prefix + v)[|prefix|..] == v;
    }
    if v in names {
      assert Prefixed(prefix, names)[IndexOf(names, v)] == prefix + v;
    }
  }

  /** The leaves called T<k> in `t` are among `names`. */
  ghost predicate LeavesAmong(t: TypeSig, names: seq<string>) {
    if FreshLeaf(t) then t.baseName in names
    else forall i | 0 <= i < |t.parameters| :: LeavesAmong(t.parameters[i], names)
  }

  ghost function Labels(prefix: string, names: seq<string>): set<string> {
    set v | v in Prefixed(prefix, names)
  }

  lemma ShortIsNoLabel(t: TypeSig, prefix: string, names: seq<string>)
    requires Shorter(t, |prefix|)
    ensures t.baseName !in Labels(prefix, names)
  {
    assert forall v <- Prefixed(prefix, names) :: |v| >= |prefix|;
  }

  lemma {:induction false} RelabelNoFresh(t: TypeSig, prefix: string, names: seq<string>)
    requires Shorter(t, |prefix|) && LeavesAmong(t, names)
    ensures NoFreshLeaf(Relabel(t, prefix), Labels(prefix, names))
    decreases t
  {
    if FreshLeaf(t) {
      PrefixedMember(prefix, names, t.baseName);
    } else {
      forall i | 0 <= i < |t.parameters| { RelabelNoFresh(t.parameters[i], prefix, names); }
    }
  }

  lemma {:induction false} RelabelVisits(t: TypeSig, prefix: string, names: seq<string>, order: seq<string>)
    requires Shorter(t, |prefix|) && LeavesAmong(t, names)
    ensures Visit(Relabel(t, prefix), Labels(prefix, names), Prefixed(prefix, order)) == Prefixed(prefix, FreshMet(t, order))
    decreases t
  {
    if FreshLeaf(t) {
      PrefixedMember(prefix, names, t.baseName);
      PrefixedMember(prefix, order, t.baseName);
    } else {
      ShortIsNoLabel(t, prefix, names);
      RelabelVisitsAll(t.parameters, prefix, names, order, Relabel(t, prefix).parameters);
    }
  }

  lemma {:induction false} RelabelVisitsAll(ts: seq<TypeSig>, prefix: string, names: seq<string>, order: seq<string>, rs: seq<TypeSig>)
    requires |rs| == |ts| && forall i | 0 <= i < |ts| ::
      Shorter(ts[i], |prefix|) && LeavesAmong(ts[i], names) && rs[i] == Relabel(ts[i], prefix)
    ensures VisitAll(rs, Labels(prefix, names), Prefixed(prefix, order)) == Prefixed(prefix, FreshMetAll(ts, order))
    decreases ts
  {
    if ts != [] {
      RelabelVisits(ts[0], prefix, names, order);
      RelabelVisitsAll(ts[1..], prefix, names, FreshMet(ts[0], order), rs[1..]);
    }
  }

  lemma {:induction false} FreshMetGrows(t: TypeSig, order: seq<string>)
    ensures order <= FreshMet(t, order) && LeavesAmong(t, FreshMet(t, order))
    decreases t
  {
    if !FreshLeaf(t) { FreshMetAllGrows(t.parameters, order); }
  }

  lemma {:induction false} FreshMetAllGrows(ts: seq<TypeSig>, order: seq<string>)
    ensures order <= FreshMetAll(ts, order) && forall i | 0 <= i < |ts| :: LeavesAmong(ts[i], FreshMetAll(ts, order))
    decreases ts
  {
    if ts != [] {
      var mid := FreshMet(ts[0], order);
      FreshMetGrows(ts[0], order);
      FreshMetAllGrows(ts[1..], mid);
      LeavesAmongMore(ts[0], mid, FreshMetAll(ts, order));
      assert forall i | 0 < i < |ts| :: ts[i] == ts[1..][i - 1];
    }
  }

  lemma {:induction false} LeavesAmongMore(t: TypeSig, names: seq<string>, more: seq<string>)
    requires names <= more && LeavesAmong(t, names)
    ensures LeavesAmong(t, more)
    decreases t
  {
    if !FreshLeaf(t) {
      forall i | 0 <= i < |t.parameters| { LeavesAmongMore(t.parameters[i], names, more); }
    }
  }

  /** No field names on types with parameters, as in a normal form. */
  predicate PlainConstructors(t: TypeSig) {
    t.parameters != [] ==> t.rowFieldName.None? && forall i | 0 <= i < |t.parameters| :: PlainConstructors(t.parameters[i])
  }

  lemma {:induction false} RenamedPlain(t: TypeSig, vars: set<string>, order: seq<string>)
    requires Known(t, vars, order)
    ensures PlainConstructors(Renamed(t, vars, order))
    decreases t
  {
    if t.baseName !in vars && t.parameters != [] {
      forall i | 0 <= i < |t.parameters| { RenamedPlain(t.parameters[i], vars, order); }
    }
  }

  lemma {:induction false} RelabelRenamesBack(t: TypeSig, prefix: string, n: nat)
    requires Shorter(t, |prefix|) && LeavesAmong(t, FreshList(n)) && PlainConstructors(t)
    ensures var order := Prefixed(prefix, FreshList(n));
            && Known(Relabel(t, prefix), Labels(prefix, FreshList(n)), order)
            && Renamed(Relabel(t, prefix), Labels(prefix, FreshList(n)), order) == t
    decreases t
  {
    var names := FreshList(n);
    var order := Prefixed(prefix, names);
    if FreshLeaf(t) {
      PrefixedMember(prefix, names, t.baseName);
      var k := IndexOf(order, prefix + t.baseName);
      assert (prefix + names[k])[|prefix|..] == names[k] && (prefix + t.baseName)[|prefix|..] == t.baseName;
    } else {
      ShortIsNoLabel(t, prefix, names);
      forall i | 0 <= i < |t.parameters| { RelabelRenamesBack(t.parameters[i], prefix, n); }
      assert t.parameters != [] ==>
        Renamed(Relabel(t, prefix), Labels(prefix, names), order).parameters == t.parameters;
    }
  }

  /** Every type in order without field names on constructors is a normal form of a type with variables. */
  lemma InOrderIsNormalForm(t: TypeSig) returns (u: TypeSig, wars: set<string>)
    requires InOrder(t) && PlainConstructors(t)
    ensures NoFreshLeaf(u, wars) && NormalizeType(u, wars) == t
  {
    var n := NameBound(t);
    var prefix := seq(n, _ => 'w');
    var names := FreshMet(t, []);
    ShorterThanBound(t, n);
    FreshMetGrows(t, []);
    u, wars := Relabel(t, prefix), Labels(prefix, names);
    RelabelNoFresh(t, prefix, names);
    assert Prefixed(prefix, []) == [];
    RelabelVisits(t, prefix, names, []);
    RelabelRenamesBack(t, prefix, |names|);
  }

  // ----- the theorem -----

  /** Among all types without leaves called T<k>, equal normal forms mean a renaming of `t`. */
  ghost predicate NormalFormDecides(t: TypeSig, vars: set<string>) {
    forall u, wars | NoFreshLeaf(u, wars) ::
      NormalizeType(t, vars) == NormalizeType(u, wars) <==> exists rho :: IsRenaming(t, vars, u, wars, rho)
  }

  lemma RenamingKeepsNoFreshLeaf(t: TypeSig, vars: set<string>, u: TypeSig, wars: set<string>)
    requires NoFreshLeaf(u, wars) && !NoFreshLeaf(t, vars)
    ensures !exists rho :: IsRenaming(t, vars, u, wars, rho)
  {
    forall rho | IsRenaming(t, vars, u, wars, rho)
      ensures false
    {
      MatchesSamePlaces(t, vars, u, wars, rho);
    }
  }

  /** The normal form decides renaming of `t` exactly when `t` has no concrete leaf called T<k>, or the leaves
      called T<k> of its normal form are not met in the order T0, T1, and so on. */
  lemma NormalFormDecidesIff(t: TypeSig, vars: set<string>)
    ensures NormalFormDecides(t, vars) <==> NoFreshLeaf(t, vars) || !InOrder(NormalizeType(t, vars))
  {
    VisitExtends(t, vars, []);
    var n := NormalizeType(t, vars);
    if NoFreshLeaf(t, vars) {
      forall u, wars | NoFreshLeaf(u, wars)
        ensures n == NormalizeType(u, wars) <==> exists rho :: IsRenaming(t, vars, u, wars, rho)
      {
        NormalFormsEqualIffRenaming(t, vars, u, wars);
      }
    } else if InOrder(n) {
      RenamedPlain(t, vars, Visit(t, vars, []));
      var u, wars := InOrderIsNormalForm(n);
      RenamingKeepsNoFreshLeaf(t, vars, u, wars);
    } else {
      forall u, wars | NoFreshLeaf(u, wars)
        ensures n == NormalizeType(u, wars) <==> exists rho :: IsRenaming(t, vars, u, wars, rho)
      {
        NormalFormInOrder(u, wars);
        RenamingKeepsNoFreshLeaf(t, vars, u, wars);
      }
    }
  }
}
