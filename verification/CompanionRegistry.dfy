/** Registration of companion functions, and what getCompanionFunctionSignatures reports about it
    (bolt/exec/Aggregate.cpp, bolt/exec/AggregateCompanionAdapter.cpp). Factories are left out. */
module CompanionRegistry {
  import opened Types
  import opened TypeSignatures
  import opened SuffixNames
  import opened Companions

  ghost function PartialSignatures(ss: seq<AggregateSignature>): seq<AggregateSignature> {
    seq(|ss|, i requires 0 <= i < |ss| => PartialSignature(ss[i]))
  }

  ghost function MergeExtractSignatures(ss: seq<AggregateSignature>): seq<AggregateSignature> {
    Distinctly(ss, MergeExtractSignature, PairKey)
  }

  ghost function ExtractSignatures(ss: seq<AggregateSignature>): seq<FunctionSignature> {
    Distinctly(ss, ExtractSignature, PairKey)
  }

  method ComputePartialSignatures(ss: seq<AggregateSignature>) returns (r: seq<AggregateSignature>)
    ensures r == PartialSignatures(ss)
  {
    r := [];
    for i := 0 to |ss|
      invariant r == PartialSignatures(ss[..i])
    {
      var used := ComputeUsedTypeVariables(ss[i].argumentTypes + [ss[i].intermediateType], ss[i].variables);
      r := r + [AggregateSignature(used, ss[i].intermediateType, ss[i].intermediateType, ss[i].argumentTypes,
                                   ss[i].constantArguments, ss[i].variableArity)];
    }
    assert ss[..|ss|] == ss;
  }

  // ----- the registries as values -----

  type Registry<S> = map<string, seq<S>>

  /** Insert under the sanitized name; without `overwrite` an existing entry stays. */
  function Put<S>(m: Registry<S>, name: string, ss: seq<S>, overwrite: bool): Registry<S> {
    if overwrite || Lower(name) !in m then m[Lower(name) := ss] else m
  }

  function PutNonEmpty<S>(m: Registry<S>, name: string, ss: seq<S>, overwrite: bool): Registry<S> {
    if ss == [] then m else Put(m, name, ss, overwrite)
  }

  /** `types` lists each return type of `ss` once, in the order a hash map happens to yield them. */
  ghost predicate Enumerates(types: seq<TypeSig>, ss: seq<AggregateSignature>) {
    && (forall t :: t in types <==> t in ReturnTypes(ss))
    && (forall i, j :: 0 <= i < j < |types| ==> types[i] != types[j])
  }

  /** Groups that yield signatures have a suffix, so no name construction throws. */
  ghost predicate Nameable<S>(types: seq<TypeSig>, build: TypeSig -> seq<S>) {
    forall t <- types :: build(t) != [] ==> ToSuffixString(t).Some?
  }

  /** The first group that yields signatures without having a suffix, where name construction throws. */
  ghost predicate StopsAt<S>(types: seq<TypeSig>, build: TypeSig -> seq<S>, k: int) {
    0 <= k < |types| && Nameable(types[..k], build) && build(types[k]) != [] && ToSuffixString(types[k]).None?
  }

  ghost function SuffixedName(base: string, t: TypeSig): string {
    base + if ToSuffixString(t).Some? then ToSuffixString(t).value else ""
  }

  /** One entry per return type whose group yields signatures. */
  ghost function PutGroups<S>(m: Registry<S>, base: string, types: seq<TypeSig>, build: TypeSig -> seq<S>, overwrite: bool): Registry<S> {
    if types == [] then m
    else
      var n := |types| - 1;
      PutNonEmpty(PutGroups(m, base, types[..n], build, overwrite), SuffixedName(base, types[n]), build(types[n]), overwrite)
  }

  /** Registration threw: `now` holds the groups before the one without a suffix. */
  ghost predicate Stopped<S>(
      was: Registry<S>, now: Registry<S>, base: string, types: seq<TypeSig>, build: TypeSig -> seq<S>, overwrite: bool)
  {
    exists k :: StopsAt(types, build, k) && now == PutGroups(was, base, types[..k], build, overwrite)
  }

  ghost function MergeExtractOf(ss: seq<AggregateSignature>): TypeSig -> seq<AggregateSignature> {
    (t: TypeSig) => MergeExtractSignatures(GroupOf(ss, t))
  }

  ghost function ExtractOf(ss: seq<AggregateSignature>): TypeSig -> seq<FunctionSignature> {
    (t: TypeSig) => ExtractSignatures(GroupOf(ss, t))
  }

  ghost function MainPartialAndMerge(
      m: Registry<AggregateSignature>, name: string, ss: seq<AggregateSignature>, overwrite: bool): Registry<AggregateSignature> {
    var main := Put(m, name, ss, overwrite);
    var withPartial := PutNonEmpty(main, name + "_partial", PartialSignatures(ss), overwrite);
    PutNonEmpty(withPartial, name + "_merge", MergeSignatures(ss), overwrite)
  }

  ghost function AggregatesAfter(
      m: Registry<AggregateSignature>, name: string, ss: seq<AggregateSignature>, types: seq<TypeSig>,
      overwrite: bool): Registry<AggregateSignature> {
    WithMergeExtract(MainPartialAndMerge(m, name, ss, overwrite), name, ss, types, overwrite)
  }

  ghost function WithMergeExtract(
      m: Registry<AggregateSignature>, name: string, ss: seq<AggregateSignature>, types: seq<TypeSig>,
      overwrite: bool): Registry<AggregateSignature> {
    var suffixed := if SameIntermediate(ss) then PutGroups(m, name + "_merge_extract_", types, MergeExtractOf(ss), overwrite) else m;
    PutNonEmpty(suffixed, name + "_merge_extract", MergeExtractSignatures(ss), overwrite)
  }

  ghost function FunctionsAfter(
      m: Registry<FunctionSignature>, name: string, ss: seq<AggregateSignature>, types: seq<TypeSig>,
      overwrite: bool): Registry<FunctionSignature> {
    if SameIntermediate(ss) then PutGroups(m, name + "_extract_", types, ExtractOf(ss), overwrite)
    else PutNonEmpty(m, name + "_extract", ExtractSignatures(ss), overwrite)
  }

  /** Whether putting a non-empty list changes the registry. */
  predicate Inserts<S>(m: Registry<S>, name: string, ss: seq<S>, overwrite: bool) {
    ss != [] && (overwrite || Lower(name) !in m)
  }

  /** Whether some group gets its entry. */
  ghost predicate InsertsAny<S>(m: Registry<S>, base: string, types: seq<TypeSig>, build: TypeSig -> seq<S>, overwrite: bool) {
    types != [] &&
    var n := |types| - 1;
    || InsertsAny(m, base, types[..n], build, overwrite)
    || Inserts(PutGroups(m, base, types[..n], build, overwrite), SuffixedName(base, types[n]), build(types[n]), overwrite)
  }

  /** AggregateRegistrationResult. */
  datatype Registered = Registered(
    mainFunction: bool, partialFunction: bool, mergeFunction: bool, extractFunction: bool, mergeExtractFunction: bool)

  ghost predicate InsertsExtract(
      m: Registry<FunctionSignature>, name: string, ss: seq<AggregateSignature>, types: seq<TypeSig>, overwrite: bool) {
    if SameIntermediate(ss) then InsertsAny(m, name + "_extract_", types, ExtractOf(ss), overwrite)
    else Inserts(m, name + "_extract", ExtractSignatures(ss), overwrite)
  }

  ghost predicate InsertsMergeExtract(
      m: Registry<AggregateSignature>, name: string, ss: seq<AggregateSignature>, types: seq<TypeSig>, overwrite: bool) {
    if SameIntermediate(ss) then
      || InsertsAny(m, name + "_merge_extract_", types, MergeExtractOf(ss), overwrite)
      || Inserts(PutGroups(m, name + "_merge_extract_", types, MergeExtractOf(ss), overwrite), name + "_merge_extract",
                 MergeExtractSignatures(ss), overwrite)
    else Inserts(m, name + "_merge_extract", MergeExtractSignatures(ss), overwrite)
  }

  /** What registerAggregateFunction reports to have registered. */
  ghost function RegisteredFlags(aggregates: Registry<AggregateSignature>, functions: Registry<FunctionSignature>,
      name: string, ss: seq<AggregateSignature>, types: seq<TypeSig>, overwrite: bool): Registered
  {
    var main := Put(aggregates, name, ss, overwrite);
    var withPartial := PutNonEmpty(main, name + "_partial", PartialSignatures(ss), overwrite);
    Registered(
      overwrite || Lower(name) !in aggregates,
      Inserts(main, name + "_partial", PartialSignatures(ss), overwrite),
      Inserts(withPartial, name + "_merge", MergeSignatures(ss), overwrite),
      InsertsExtract(functions, name, ss, types, overwrite),
      InsertsMergeExtract(MainPartialAndMerge(aggregates, name, ss, overwrite), name, ss, types, overwrite))
  }

  /** The two global registries. */
  class Registries {
    var aggregates: Registry<AggregateSignature>
    var functions: Registry<FunctionSignature>

    method InsertAggregate(name: string, ss: seq<AggregateSignature>, overwrite: bool) returns (inserted: bool)
      modifies this`aggregates
      ensures aggregates == Put(old(aggregates), name, ss, overwrite)
      ensures inserted <==> overwrite || Lower(name) !in old(aggregates)
    {
      var key := Lower(name);
      if overwrite {
        aggregates := aggregates[key := ss];
        inserted := true;
      } else {
        inserted := key !in aggregates;
        if inserted { aggregates := aggregates[key := ss]; }
      }
    }

    method InsertFunction(name: string, ss: seq<FunctionSignature>, overwrite: bool) returns (inserted: bool)
      modifies this`functions
      ensures functions == Put(old(functions), name, ss, overwrite)
      ensures inserted <==> overwrite || Lower(name) !in old(functions)
    {
      var key := Lower(name);
      inserted := overwrite || key !in functions;
      if inserted { functions := functions[key := ss]; }
    }

    method RegisterPartialFunction(name: string, ss: seq<AggregateSignature>, overwrite: bool) returns (registered: bool)
      modifies this`aggregates
      ensures aggregates == PutNonEmpty(old(aggregates), name + "_partial", PartialSignatures(ss), overwrite)
      ensures registered == Inserts(old(aggregates), name + "_partial", PartialSignatures(ss), overwrite)
    {
      var signatures := ComputePartialSignatures(ss);
      if signatures == [] { return false; }
      registered := InsertAggregate(name + "_partial", signatures, overwrite);
    }

    method RegisterMergeFunction(name: string, ss: seq<AggregateSignature>, overwrite: bool) returns (registered: bool)
      modifies this`aggregates
      ensures aggregates == PutNonEmpty(old(aggregates), name + "_merge", MergeSignatures(ss), overwrite)
      ensures registered == Inserts(old(aggregates), name + "_merge", MergeSignatures(ss), overwrite)
    {
      var wrap := (s: AggregateSignature) => Some(MergeSignature(s));
      var signatures := ProcessSignaturesOfDistinctIntermediateTypes(ss, wrap);
      DistinctlyExtensional(ss, wrap, SomeOf(MergeSignature), IntermediateKey);
      if signatures == [] { return false; }
      registered := InsertAggregate(name + "_merge", signatures, overwrite);
    }

    method RegisterExtractFunctionWithSuffix(name: string, ss: seq<AggregateSignature>, types: seq<TypeSig>, overwrite: bool)
      returns (registered: Result<bool>)
      requires Enumerates(types, ss)
      modifies this`functions
      ensures registered.Success? <==> Nameable(types, ExtractOf(ss))
      ensures registered.Success? ==> functions == PutGroups(old(functions), name + "_extract_", types, ExtractOf(ss), overwrite)
      ensures registered.Success? ==> registered.value == InsertsAny(old(functions), name + "_extract_", types, ExtractOf(ss), overwrite)
      ensures registered.Failure? ==> Stopped(old(functions), functions, name + "_extract_", types, ExtractOf(ss), overwrite)
    {
      var groups := GroupSignaturesByReturnType(ss);
      var any := false;
      for i := 0 to |types|
        invariant Nameable(types[..i], ExtractOf(ss))
        invariant functions == PutGroups(old(functions), name + "_extract_", types[..i], ExtractOf(ss), overwrite)
        invariant any == InsertsAny(old(functions), name + "_extract_", types[..i], ExtractOf(ss), overwrite)
      {
        assert types[..i + 1][..i] == types[..i];
        var signatures := ProcessSignaturesOfDistinctTypes(groups[types[i]], ExtractSignature);
        assert signatures == ExtractOf(ss)(types[i]);
        if signatures != [] {
          var suffix := ToSuffixString(types[i]);
          if suffix.None? {
            assert StopsAt(types, ExtractOf(ss), i);
            return Failure("Unknown type");
          }
          var inserted := InsertFunction(name + "_extract_" + suffix.value, signatures, overwrite);
          any := any || inserted;
        }
      }
      assert types[..|types|] == types;
      registered := Success(any);
    }

    method RegisterMergeExtractFunctionWithSuffix(name: string, ss: seq<AggregateSignature>, types: seq<TypeSig>, overwrite: bool)
      returns (registered: Result<bool>)
      requires Enumerates(types, ss)
      modifies this`aggregates
      ensures registered.Success? <==> Nameable(types, MergeExtractOf(ss))
      ensures registered.Success? ==> aggregates == PutGroups(old(aggregates), name + "_merge_extract_", types, MergeExtractOf(ss), overwrite)
      ensures registered.Success? ==>
                registered.value == InsertsAny(old(aggregates), name + "_merge_extract_", types, MergeExtractOf(ss), overwrite)
      ensures registered.Failure? ==>
                Stopped(old(aggregates), aggregates, name + "_merge_extract_", types, MergeExtractOf(ss), overwrite)
    {
      var groups := GroupSignaturesByReturnType(ss);
      var any := false;
      for i := 0 to |types|
        invariant Nameable(types[..i], MergeExtractOf(ss))
        invariant aggregates == PutGroups(old(aggregates), name + "_merge_extract_", types[..i], MergeExtractOf(ss), overwrite)
        invariant any == InsertsAny(old(aggregates), name + "_merge_extract_", types[..i], MergeExtractOf(ss), overwrite)
      {
        assert types[..i + 1][..i] == types[..i];
        var signatures := ProcessSignaturesOfDistinctTypes(groups[types[i]], MergeExtractSignature);
        assert signatures == MergeExtractOf(ss)(types[i]);
        if signatures != [] {
          var suffix := ToSuffixString(types[i]);
          if suffix.None? {
            assert StopsAt(types, MergeExtractOf(ss), i);
            return Failure("Unknown type");
          }
          var inserted := InsertAggregate(name + "_merge_extract_" + suffix.value, signatures, overwrite);
          any := any || inserted;
        }
      }
      assert types[..|types|] == types;
      registered := Success(any);
    }

    method RegisterExtractFunction(name: string, ss: seq<AggregateSignature>, types: seq<TypeSig>, overwrite: bool)
      returns (registered: Result<bool>)
      requires Enumerates(types, ss)
      modifies this`functions
      ensures registered.Success? <==> (SameIntermediate(ss) ==> Nameable(types, ExtractOf(ss)))
      ensures registered.Success? ==> functions == FunctionsAfter(old(functions), name, ss, types, overwrite)
      ensures registered.Success? ==> registered.value == InsertsExtract(old(functions), name, ss, types, overwrite)
      ensures registered.Failure? ==> Stopped(old(functions), functions, name + "_extract_", types, ExtractOf(ss), overwrite)
    {
      var same := HasSameIntermediateTypesAcrossSignatures(ss);
      if same {
        registered := RegisterExtractFunctionWithSuffix(name, ss, types, overwrite);
        return;
      }
      var signatures := ProcessSignaturesOfDistinctTypes(ss, ExtractSignature);
      var inserted := false;
      if signatures != [] { inserted := InsertFunction(name + "_extract", signatures, overwrite); }
      registered := Success(inserted);
    }

    method RegisterMergeExtractFunction(name: string, ss: seq<AggregateSignature>, types: seq<TypeSig>, overwrite: bool)
      returns (registered: Result<bool>)
      requires Enumerates(types, ss)
      modifies this`aggregates
      ensures registered.Success? <==> (SameIntermediate(ss) ==> Nameable(types, MergeExtractOf(ss)))
      ensures registered.Success? ==> aggregates == WithMergeExtract(old(aggregates), name, ss, types, overwrite)
      ensures registered.Success? ==> registered.value == InsertsMergeExtract(old(aggregates), name, ss, types, overwrite)
      ensures registered.Failure? ==>
                Stopped(old(aggregates), aggregates, name + "_merge_extract_", types, MergeExtractOf(ss), overwrite)
    {
      var any := false;
      var same := HasSameIntermediateTypesAcrossSignatures(ss);
      if same {
        var suffixed := RegisterMergeExtractFunctionWithSuffix(name, ss, types, overwrite);
        if suffixed.Failure? { return suffixed; }
        any := suffixed.value;
      }
      var signatures := ProcessSignaturesOfDistinctTypes(ss, MergeExtractSignature);
      if signatures != [] {
        var inserted := InsertAggregate(name + "_merge_extract", signatures, overwrite);
        any := any || inserted;
      }
      registered := Success(any);
    }

    /** registerAggregateFunction with companions. */
    method RegisterWithCompanions(name: string, ss: seq<AggregateSignature>, types: seq<TypeSig>, overwrite: bool)
      returns (registered: Result<Registered>)
      requires Enumerates(types, ss)
      modifies this
      ensures registered.Success? <==> (SameIntermediate(ss) ==> Nameable(types, ExtractOf(ss)))
      ensures registered.Success? ==> aggregates == AggregatesAfter(old(aggregates), name, ss, types, overwrite)
      ensures registered.Success? ==> functions == FunctionsAfter(old(functions), name, ss, types, overwrite)
      ensures registered.Success? ==> registered.value == RegisteredFlags(old(aggregates), old(functions), name, ss, types, overwrite)
      ensures registered.Failure? ==> aggregates == MainPartialAndMerge(old(aggregates), name, ss, overwrite)
      ensures registered.Failure? ==> Stopped(old(functions), functions, name + "_extract_", types, ExtractOf(ss), overwrite)
    {
      var main := InsertAggregate(name, ss, overwrite);
      var partial := RegisterPartialFunction(name, ss, overwrite);
      var merge := RegisterMergeFunction(name, ss, overwrite);
      var extract := RegisterExtractFunction(name, ss, types, overwrite);
      if extract.Failure? { return Failure(extract.message); }
      NameableTogether(types, ss);
      var mergeExtract := RegisterMergeExtractFunction(name, ss, types, overwrite);
      registered := Success(Registered(main, partial, merge, extract.value, mergeExtract.value));
    }
  }

  lemma {:induction false} DistinctlyExtensional<T, K>(
      ss: seq<AggregateSignature>, f: AggregateSignature -> Option<T>, g: AggregateSignature -> Option<T>, key: AggregateSignature -> K)
    requires forall i | 0 <= i < |ss| :: f(ss[i]) == g(ss[i])
    ensures Distinctly(ss, f, key) == Distinctly(ss, g, key)
  {
    if ss != [] {
      DistinctlyExtensional(ss[..|ss| - 1], f, g, key);
    }
  }

  /** Both builders need suffixes for the same groups. */
  lemma NameableTogether(types: seq<TypeSig>, ss: seq<AggregateSignature>)
    ensures Nameable(types, ExtractOf(ss)) <==> Nameable(types, MergeExtractOf(ss))
  {
    forall t
      ensures ExtractOf(ss)(t) == [] <==> MergeExtractOf(ss)(t) == []
    {
      BuildersAgreeOnEmptiness(GroupOf(ss, t));
    }
  }

  // ----- what is reported -----

  datatype Entry<S> = Entry(name: string, signatures: seq<S>)

  datatype Report = Report(
    partials: seq<Entry<AggregateSignature>>, merges: seq<Entry<AggregateSignature>>,
    extracts: seq<Entry<FunctionSignature>>, mergeExtracts: seq<Entry<AggregateSignature>>)

  ghost function Single<S>(name: string, ss: seq<S>): seq<Entry<S>> {
    if ss == [] then [] else [Entry(name, ss)]
  }

  /** getCompanionSignaturesWithSuffix. */
  ghost function Suffixed<S>(base: string, types: seq<TypeSig>, build: TypeSig -> seq<S>): seq<Entry<S>> {
    if types == [] then []
    else
      var n := |types| - 1;
      Suffixed(base, types[..n], build) + Single(SuffixedName(base, types[n]), build(types[n]))
  }

  /** getCompanionFunctionSignatures for an entry with signatures `ss`. */
  ghost function ReportOf(name: string, ss: seq<AggregateSignature>, types: seq<TypeSig>): Report {
    Report(
      Single(name + "_partial", PartialSignatures(ss)),
      Single(name + "_merge", MergeSignatures(ss)),
      if SameIntermediate(ss) then Suffixed(name + "_extract_", types, ExtractOf(ss))
      else Single(name + "_extract", ExtractSignatures(ss)),
      if SameIntermediate(ss) then Suffixed(name + "_merge_extract_", types, MergeExtractOf(ss))
      else Single(name + "_merge_extract", MergeExtractSignatures(ss)))
  }

  ghost predicate Found<S>(entries: seq<Entry<S>>, m: Registry<S>) {
    forall e <- entries :: Lower(e.name) in m && m[Lower(e.name)] == e.signatures
  }

  ghost predicate AllFound(r: Report, aggregates: Registry<AggregateSignature>, functions: Registry<FunctionSignature>) {
    && Found(r.partials, aggregates) && Found(r.merges, aggregates) && Found(r.mergeExtracts, aggregates)
    && Found(r.extracts, functions)
  }

  lemma {:induction false} SuffixedIffInserted<S>(m: Registry<S>, base: string, types: seq<TypeSig>, build: TypeSig -> seq<S>)
    ensures InsertsAny(m, base, types, build, true) <==> exists i | 0 <= i < |types| :: build(types[i]) != []
    ensures Suffixed(base, types, build) != [] <==> exists i | 0 <= i < |types| :: build(types[i]) != []
  {
    if types != [] {
      var n := |types| - 1;
      SuffixedIffInserted(m, base, types[..n], build);
      assert forall i | 0 <= i < n :: types[..n][i] == types[i];
    }
  }

  lemma {:induction false} DistinctlyNonEmpty<T, K>(
      ss: seq<AggregateSignature>, process: AggregateSignature -> Option<T>, key: AggregateSignature -> K)
    ensures Distinctly(ss, process, key) != [] <==> exists i | 0 <= i < |ss| :: process(ss[i]).Some?
  {
    if ss != [] {
      var n := |ss| - 1;
      DistinctlyNonEmpty(ss[..n], process, key);
      assert forall i | 0 <= i < n :: ss[..n][i] == ss[i];
      if process(ss[n]).Some? && !Kept(ss, process, key, n) {
        var j :| 0 <= j < n && process(ss[j]).Some?;
        assert process(ss[..n][j]).Some?;
      }
    }
  }

  lemma {:induction false} InItsGroup(ss: seq<AggregateSignature>, i: nat)
    requires i < |ss|
    ensures ss[i] in GroupOf(ss, ss[i].returnType)
  {
    var n := |ss| - 1;
    if i < n {
      InItsGroup(ss[..n], i);
    }
  }

  /** Merge-extract signatures exist exactly when the group of some return type has one. */
  lemma MergeExtractInSomeGroup(ss: seq<AggregateSignature>, types: seq<TypeSig>)
    requires Enumerates(types, ss)
    ensures MergeExtractSignatures(ss) != [] <==> exists i | 0 <= i < |types| :: MergeExtractOf(ss)(types[i]) != []
  {
    DistinctlyNonEmpty(ss, MergeExtractSignature, PairKey);
    if k :| 0 <= k < |ss| && MergeExtractSignature(ss[k]).Some? {
      var t := ss[k].returnType;
      InItsGroup(ss, k);
      var j :| 0 <= j < |GroupOf(ss, t)| && GroupOf(ss, t)[j] == ss[k];
      DistinctlyNonEmpty(GroupOf(ss, t), MergeExtractSignature, PairKey);
      assert t in types;
      var i :| 0 <= i < |types| && types[i] == t;
      assert MergeExtractOf(ss)(types[i]) != [];
    }
    if i :| 0 <= i < |types| && MergeExtractOf(ss)(types[i]) != [] {
      var group := GroupOf(ss, types[i]);
      DistinctlyNonEmpty(group, MergeExtractSignature, PairKey);
      var j :| 0 <= j < |group| && MergeExtractSignature(group[j]).Some?;
      GroupWithin(ss, types[i], group[j]);
    }
  }

  lemma {:induction false} GroupWithin(ss: seq<AggregateSignature>, t: TypeSig, s: AggregateSignature)
    requires s in GroupOf(ss, t)
    ensures s in ss
  {
    var n := |ss| - 1;
    if s in GroupOf(ss[..n], t) {
      GroupWithin(ss[..n], t, s);
    }
  }

  /** With overwrite a kind of companion counts as registered exactly when some name of that kind is reported. */
  lemma RegisteredIffReported(aggregates: Registry<AggregateSignature>, functions: Registry<FunctionSignature>,
      name: string, ss: seq<AggregateSignature>, types: seq<TypeSig>)
    requires Enumerates(types, ss)
    ensures var flags, report := RegisteredFlags(aggregates, functions, name, ss, types, true), ReportOf(name, ss, types);
            && flags.mainFunction
            && (flags.partialFunction <==> report.partials != [])
            && (flags.mergeFunction <==> report.merges != [])
            && (flags.extractFunction <==> report.extracts != [])
            && (flags.mergeExtractFunction <==> report.mergeExtracts != [])
  {
    MergeExtractInSomeGroup(ss, types);
    SuffixedIffInserted(functions, name + "_extract_", types, ExtractOf(ss));
    SuffixedIffInserted(MainPartialAndMerge(aggregates, name, ss, true), name + "_merge_extract_", types, MergeExtractOf(ss));
  }

  // ----- names -----

  lemma LowerConcat(s: string, t: string)
    ensures Lower(s + t) == Lower(s) + Lower(t)
  {}

  /** Suffixed names over one base collide exactly when the sanitized suffixes do. */
  lemma SuffixedNamesCollide(base: string, t: TypeSig, u: TypeSig)
    requires ToSuffixString(t).Some? && ToSuffixString(u).Some?
    ensures Lower(SuffixedName(base, t)) == Lower(SuffixedName(base, u)) <==>
            Lower(ToSuffixString(t).value) == Lower(ToSuffixString(u).value)
  {
    var a, b, c := Lower(base), Lower(ToSuffixString(t).value), Lower(ToSuffixString(u).value);
    LowerConcat(base, ToSuffixString(t).value);
    LowerConcat(base, ToSuffixString(u).value);
    assert (a + b)[|a|..] == b && (a + c)[|a|..] == c;
  }

  // ----- the groups, entry by entry -----

  /** Group results belong to their return type, so different types never yield the same non-empty list. */
  ghost predicate Separates<S>(build: TypeSig -> seq<S>, types: seq<TypeSig>) {
    forall i, j | 0 <= i < j < |types| && build(types[i]) != [] :: build(types[i]) != build(types[j])
  }

  ghost predicate NoCollision<S>(base: string, types: seq<TypeSig>, build: TypeSig -> seq<S>) {
    forall i, j | 0 <= i < j < |types| && build(types[i]) != [] && build(types[j]) != [] ::
      Lower(SuffixedName(base, types[i])) != Lower(SuffixedName(base, types[j]))
  }

  /** Without collisions every group keeps its entry. */
  lemma {:induction false} GroupEntryStays<S>(m: Registry<S>, base: string, types: seq<TypeSig>, build: TypeSig -> seq<S>, i: nat)
    requires NoCollision(base, types, build) && i < |types| && build(types[i]) != []
    ensures var after, key := PutGroups(m, base, types, build, true), Lower(SuffixedName(base, types[i]));
            key in after && after[key] == build(types[i])
  {
    var n := |types| - 1;
    var front := types[..n];
    if i < n {
      assert NoCollision(base, front, build) by {
        assert forall k | 0 <= k < n :: front[k] == types[k];
      }
      GroupEntryStays(m, base, front, build, i);
      assert build(types[n]) != [] ==> Lower(SuffixedName(base, types[i])) != Lower(SuffixedName(base, types[n]));
    }
  }

  /** Keys that no group claims are left alone. */
  lemma {:induction false} OtherKeysStay<S>(m: Registry<S>, base: string, types: seq<TypeSig>, build: TypeSig -> seq<S>, key: string)
    requires forall t <- types :: Lower(SuffixedName(base, t)) != key
    ensures var after := PutGroups(m, base, types, build, true);
            (key in after <==> key in m) && (key in m ==> after[key] == m[key])
  {
    if types != [] {
      OtherKeysStay(m, base, types[..|types| - 1], build, key);
    }
  }

  /** The entry reported for return type `t`, if its group yields signatures. */
  lemma {:induction false} EntryReported<S>(base: string, types: seq<TypeSig>, build: TypeSig -> seq<S>, t: TypeSig)
    requires t in types && build(t) != []
    ensures Entry(SuffixedName(base, t), build(t)) in Suffixed(base, types, build)
  {
    var n := |types| - 1;
    if t != types[n] {
      assert t in types[..n];
      EntryReported(base, types[..n], build, t);
    }
  }

  lemma {:induction false} ReportedEntry<S>(base: string, types: seq<TypeSig>, build: TypeSig -> seq<S>, e: Entry<S>) returns (t: TypeSig)
    requires e in Suffixed(base, types, build)
    ensures t in types && build(t) != [] && e == Entry(SuffixedName(base, t), build(t))
  {
    var n := |types| - 1;
    if e in Suffixed(base, types[..n], build) {
      t := ReportedEntry(base, types[..n], build, e);
    } else {
      t := types[n];
    }
  }

  /** Every suffixed entry reported is found exactly when no two suffixed names collide. */
  lemma SuffixedFoundIffNoCollision<S>(m: Registry<S>, base: string, types: seq<TypeSig>, types': seq<TypeSig>, build: TypeSig -> seq<S>)
    requires Separates(build, types)
    requires forall t :: t in types <==> t in types'
    ensures Found(Suffixed(base, types', build), PutGroups(m, base, types, build, true)) <==> NoCollision(base, types, build)
  {
    var after := PutGroups(m, base, types, build, true);
    if NoCollision(base, types, build) {
      forall e | e in Suffixed(base, types', build)
        ensures Lower(e.name) in after && after[Lower(e.name)] == e.signatures
      {
        var t := ReportedEntry(base, types', build, e);
        var i :| 0 <= i < |types| && types[i] == t;
        GroupEntryStays(m, base, types, build, i);
      }
    }
    if Found(Suffixed(base, types', build), after) {
      forall i, j | 0 <= i < j < |types| && build(types[i]) != [] && build(types[j]) != []
        ensures Lower(SuffixedName(base, types[i])) != Lower(SuffixedName(base, types[j]))
      {
        assert types[i] in types' && types[j] in types';
        EntryReported(base, types', build, types[i]);
        EntryReported(base, types', build, types[j]);
      }
    }
  }

  // ----- companion signatures carry their return type -----

  lemma {:induction false} DistinctlyMember<T, K>(
      ss: seq<AggregateSignature>, process: AggregateSignature -> Option<T>, key: AggregateSignature -> K, x: T)
    requires x in Distinctly(ss, process, key)
    ensures exists s :: s in ss && process(s) == Some(x)
  {
    var n := |ss| - 1;
    if x in Distinctly(ss[..n], process, key) {
      DistinctlyMember(ss[..n], process, key, x);
      var s :| s in ss[..n] && process(s) == Some(x);
      assert s in ss;
    } else {
      assert ss[n] in ss && process(ss[n]) == Some(x);
    }
  }

  lemma {:induction false} GroupMembers(ss: seq<AggregateSignature>, t: TypeSig, s: AggregateSignature)
    requires s in GroupOf(ss, t)
    ensures s.returnType == t
  {
    var n := |ss| - 1;
    if s in GroupOf(ss[..n], t) {
      GroupMembers(ss[..n], t, s);
    }
  }

  lemma BuildersSeparate(ss: seq<AggregateSignature>, types: seq<TypeSig>)
    requires Enumerates(types, ss)
    ensures Separates(ExtractOf(ss), types) && Separates(MergeExtractOf(ss), types)
  {
    forall i, j | 0 <= i < j < |types| && ExtractOf(ss)(types[i]) != []
      ensures ExtractOf(ss)(types[i]) != ExtractOf(ss)(types[j])
    {
      var x := ExtractOf(ss)(types[i])[0];
      ExtractReturns(ss, types[i], x);
      if x in ExtractOf(ss)(types[j]) { ExtractReturns(ss, types[j], x); }
    }
    forall i, j | 0 <= i < j < |types| && MergeExtractOf(ss)(types[i]) != []
      ensures MergeExtractOf(ss)(types[i]) != MergeExtractOf(ss)(types[j])
    {
      var x := MergeExtractOf(ss)(types[i])[0];
      MergeExtractReturns(ss, types[i], x);
      if x in MergeExtractOf(ss)(types[j]) { MergeExtractReturns(ss, types[j], x); }
    }
  }

  lemma ExtractReturns(ss: seq<AggregateSignature>, t: TypeSig, x: FunctionSignature)
    requires x in ExtractSignatures(GroupOf(ss, t))
    ensures x.returnType == t
  {
    DistinctlyMember(GroupOf(ss, t), ExtractSignature, PairKey, x);
    var s :| s in GroupOf(ss, t) && ExtractSignature(s) == Some(x);
    GroupMembers(ss, t, s);
  }

  lemma MergeExtractReturns(ss: seq<AggregateSignature>, t: TypeSig, x: AggregateSignature)
    requires x in MergeExtractSignatures(GroupOf(ss, t))
    ensures x.returnType == t
  {
    DistinctlyMember(GroupOf(ss, t), MergeExtractSignature, PairKey, x);
    var s :| s in GroupOf(ss, t) && MergeExtractSignature(s) == Some(x);
    GroupMembers(ss, t, s);
  }

  /** Both builders yield something for the same groups: those with a resolvable signature. */
  lemma {:induction false} BuildersAgreeOnEmptiness(ss: seq<AggregateSignature>)
    ensures |ExtractSignatures(ss)| == |MergeExtractSignatures(ss)|
  {
    if ss != [] {
      var n := |ss| - 1;
      BuildersAgreeOnEmptiness(ss[..n]);
      assert forall j | 0 <= j <= n :: ExtractSignature(ss[j]).Some? <==> MergeExtractSignature(ss[j]).Some?;
      assert Kept(ss, ExtractSignature, PairKey, n) <==> Kept(ss, MergeExtractSignature, PairKey, n);
    }
  }

  // ----- the theorem -----

  /** Two return types whose groups yield signatures have different sanitized suffixes. */
  ghost predicate DistinctSuffixes(ss: seq<AggregateSignature>, types: seq<TypeSig>) {
    forall i, j | 0 <= i < j < |types| && ExtractOf(ss)(types[i]) != [] && ExtractOf(ss)(types[j]) != [] ::
      && ToSuffixString(types[i]).Some? && ToSuffixString(types[j]).Some?
      && Lower(ToSuffixString(types[i]).value) != Lower(ToSuffixString(types[j]).value)
  }

  lemma NoCollisionIffDistinctSuffixes(base: string, ss: seq<AggregateSignature>, types: seq<TypeSig>)
    requires Nameable(types, ExtractOf(ss))
    ensures NoCollision(base, types, ExtractOf(ss)) <==> DistinctSuffixes(ss, types)
    ensures NoCollision(base, types, MergeExtractOf(ss)) <==> DistinctSuffixes(ss, types)
  {
    forall t
      ensures ExtractOf(ss)(t) == [] <==> MergeExtractOf(ss)(t) == []
    {
      BuildersAgreeOnEmptiness(GroupOf(ss, t));
    }
    forall i, j | 0 <= i < j < |types| && ExtractOf(ss)(types[i]) != [] && ExtractOf(ss)(types[j]) != []
      ensures Lower(SuffixedName(base, types[i])) == Lower(SuffixedName(base, types[j])) <==>
              Lower(ToSuffixString(types[i]).value) == Lower(ToSuffixString(types[j]).value)
    {
      assert types[i] in types && types[j] in types;
      SuffixedNamesCollide(base, types[i], types[j]);
    }
  }

  /** The names registered for one aggregate have different lengths, suffixed ones aside. */
  lemma NameLengths(name: string, t: TypeSig)
    ensures |Lower(name + "_partial")| == |name| + 8 && |Lower(name + "_merge")| == |name| + 6
    ensures |Lower(name + "_merge_extract")| == |name| + 14
    ensures |Lower(SuffixedName(name + "_merge_extract_", t))| >= |name| + 15
  {}

  /** What the aggregate registry holds under the fixed names. */
  ghost predicate FixedNamesHeld(after: Registry<AggregateSignature>, name: string, ss: seq<AggregateSignature>) {
    && Lower(name) in after && after[Lower(name)] == ss
    && Found(Single(name + "_partial", PartialSignatures(ss)), after)
    && Found(Single(name + "_merge", MergeSignatures(ss)), after)
  }

  lemma FixedNamesInserted(m: Registry<AggregateSignature>, name: string, ss: seq<AggregateSignature>)
    ensures FixedNamesHeld(MainPartialAndMerge(m, name, ss, true), name, ss)
  {
    NameLengths(name, TypeSig("", [], None));
  }

  lemma FixedNamesSurvive(m: Registry<AggregateSignature>, after: Registry<AggregateSignature>, name: string, ss: seq<AggregateSignature>)
    requires FixedNamesHeld(m, name, ss)
    requires forall key | key in {Lower(name), Lower(name + "_partial"), Lower(name + "_merge")} && key in m ::
               key in after && after[key] == m[key]
    ensures FixedNamesHeld(after, name, ss)
  {}

  lemma FixedNamesAfter(m: Registry<AggregateSignature>, name: string, ss: seq<AggregateSignature>, types: seq<TypeSig>)
    ensures var after := AggregatesAfter(m, name, ss, types, true);
            && FixedNamesHeld(after, name, ss)
            && Found(Single(name + "_merge_extract", MergeExtractSignatures(ss)), after)
  {
    var base := name + "_merge_extract_";
    var merged := MainPartialAndMerge(m, name, ss, true);
    var suffixed := if SameIntermediate(ss) then PutGroups(merged, base, types, MergeExtractOf(ss), true) else merged;
    FixedNamesInserted(m, name, ss);
    forall t { NameLengths(name, t); }
    OtherKeysStay(merged, base, types, MergeExtractOf(ss), Lower(name));
    OtherKeysStay(merged, base, types, MergeExtractOf(ss), Lower(name + "_partial"));
    OtherKeysStay(merged, base, types, MergeExtractOf(ss), Lower(name + "_merge"));
    FixedNamesSurvive(merged, suffixed, name, ss);
    NameLengths(name, TypeSig("", [], None));
    FixedNamesSurvive(suffixed, AggregatesAfter(m, name, ss, types, true), name, ss);
  }

  /** Registering the plain merge-extract name does not disturb the suffixed ones. */
  lemma SuffixedUndisturbed(
      m: Registry<AggregateSignature>, name: string, ss: seq<AggregateSignature>, entries: seq<Entry<AggregateSignature>>)
    requires forall e <- entries :: |e.name| >= |name| + 15
    ensures Found(entries, PutNonEmpty(m, name + "_merge_extract", ss, true)) <==> Found(entries, m)
  {
    NameLengths(name, TypeSig("", [], None));
    var after := PutNonEmpty(m, name + "_merge_extract", ss, true);
    forall e | e in entries
      ensures Lower(e.name) in after <==> Lower(e.name) in m
      ensures Lower(e.name) in m ==> after[Lower(e.name)] == m[Lower(e.name)]
    {}
  }

  /** After registering with overwrite, everything getCompanionFunctionSignatures reports is in the
      registries exactly when, in case suffixes are used, no two of them collide. */
  lemma ReportedFoundIffSuffixesDistinct(
      aggregates: Registry<AggregateSignature>, functions: Registry<FunctionSignature>,
      name: string, ss: seq<AggregateSignature>, types: seq<TypeSig>, types': seq<TypeSig>)
    requires Enumerates(types, ss) && Enumerates(types', ss)
    requires SameIntermediate(ss) ==> Nameable(types, ExtractOf(ss))
    ensures var aggregates', functions' := AggregatesAfter(aggregates, name, ss, types, true), FunctionsAfter(functions, name, ss, types, true);
            && Lower(name) in aggregates' && aggregates'[Lower(name)] == ss
            && (AllFound(ReportOf(name, ss, types'), aggregates', functions') <==>
                (SameIntermediate(ss) ==> DistinctSuffixes(ss, types)))
  {
    FixedNamesAfter(aggregates, name, ss, types);
    if SameIntermediate(ss) {
      BuildersSeparate(ss, types);
      NoCollisionIffDistinctSuffixes(name + "_extract_", ss, types);
      NoCollisionIffDistinctSuffixes(name + "_merge_extract_", ss, types);
      SuffixedFoundIffNoCollision(functions, name + "_extract_", types, types', ExtractOf(ss));
      SuffixedMergeFound(aggregates, name, ss, types, types');
    }
  }

  lemma SuffixedMergeFound(
      aggregates: Registry<AggregateSignature>, name: string, ss: seq<AggregateSignature>, types: seq<TypeSig>, types': seq<TypeSig>)
    requires Enumerates(types, ss) && Enumerates(types', ss) && SameIntermediate(ss)
    ensures Found(Suffixed(name + "_merge_extract_", types', MergeExtractOf(ss)), AggregatesAfter(aggregates, name, ss, types, true)) <==>
            NoCollision(name + "_merge_extract_", types, MergeExtractOf(ss))
  {
    var merged := MainPartialAndMerge(aggregates, name, ss, true);
    var base := name + "_merge_extract_";
    var entries := Suffixed(base, types', MergeExtractOf(ss));
    BuildersSeparate(ss, types);
    SuffixedFoundIffNoCollision(merged, base, types, types', MergeExtractOf(ss));
    forall e | e in entries
      ensures |e.name| >= |name| + 15
    {
      var t := ReportedEntry(base, types', MergeExtractOf(ss), e);
      NameLengths(name, t);
    }
    SuffixedUndisturbed(PutGroups(merged, base, types, MergeExtractOf(ss), true), name, MergeExtractSignatures(ss), entries);
  }

  /** Everything reported is found exactly when, in case suffixes are used, no two return types whose groups yield
      signatures differ only in letter case, row field names and decimal parameters. */
  lemma ReportedFoundIffReturnTypesDiffer(
      aggregates: Registry<AggregateSignature>, functions: Registry<FunctionSignature>,
      name: string, ss: seq<AggregateSignature>, types: seq<TypeSig>, types': seq<TypeSig>)
    requires Enumerates(types, ss) && Enumerates(types', ss)
    requires forall t <- types :: ExtractOf(ss)(t) != [] ==> Registrable(t)
    ensures AllFound(ReportOf(name, ss, types'),
                     AggregatesAfter(aggregates, name, ss, types, true), FunctionsAfter(functions, name, ss, types, true)) <==>
            (SameIntermediate(ss) ==>
               forall i, j | 0 <= i < j < |types| && ExtractOf(ss)(types[i]) != [] && ExtractOf(ss)(types[j]) != [] ::
                 SuffixKey(types[i]) != SuffixKey(types[j]))
  {
    forall t | t in types && ExtractOf(ss)(t) != []
      ensures ToSuffixString(t).Some?
    {
      LowerSuffix(t);
    }
    forall i, j | 0 <= i < j < |types| && ExtractOf(ss)(types[i]) != [] && ExtractOf(ss)(types[j]) != []
      ensures ToSuffixString(types[i]).Some? && ToSuffixString(types[j]).Some?
      ensures Lower(ToSuffixString(types[i]).value) == Lower(ToSuffixString(types[j]).value) <==>
              SuffixKey(types[i]) == SuffixKey(types[j])
    {
      assert types[i] in types && types[j] in types;
      SanitizedSuffixesEqualIffSameType(types[i], types[j]);
    }
    ReportedFoundIffSuffixesDistinct(aggregates, functions, name, ss, types, types');
  }

  /** Two decimal return types whose groups yield signatures share a name, and one of them is lost. */
  lemma DecimalGroupsCollide(
      aggregates: Registry<AggregateSignature>, functions: Registry<FunctionSignature>,
      name: string, ss: seq<AggregateSignature>, types: seq<TypeSig>, i: nat, j: nat)
    requires Enumerates(types, ss) && SameIntermediate(ss) && Nameable(types, ExtractOf(ss))
    requires i < j < |types| && types[i].baseName == types[j].baseName == "DECIMAL"
    requires ExtractOf(ss)(types[i]) != [] && ExtractOf(ss)(types[j]) != []
    ensures !AllFound(ReportOf(name, ss, types),
                      AggregatesAfter(aggregates, name, ss, types, true), FunctionsAfter(functions, name, ss, types, true))
  {
    ReportedFoundIffSuffixesDistinct(aggregates, functions, name, ss, types, types);
    assert Lower(ToSuffixString(types[i]).value) == Lower(ToSuffixString(types[j]).value);
  }

  /** An aggregate over varbinary states that returns decimal(`precision`). */
  function DecimalAggregate(precision: string): AggregateSignature {
    var state := TypeSig("varbinary", [], None);
    AggregateSignature(map[], TypeSig("DECIMAL", [TypeSig(precision, [], None)], None), state, [state], [false], false)
  }

  /** Such a pair of return types: an aggregate that returns decimal(10) or decimal(20) from one kind of state. */
  lemma DecimalPairCollides(aggregates: Registry<AggregateSignature>, functions: Registry<FunctionSignature>, name: string)
    ensures var ss := [DecimalAggregate("10"), DecimalAggregate("20")];
            var types := [ss[0].returnType, ss[1].returnType];
            && Enumerates(types, ss) && SameIntermediate(ss)
            && !AllFound(ReportOf(name, ss, types),
                         AggregatesAfter(aggregates, name, ss, types, true), FunctionsAfter(functions, name, ss, types, true))
  {
    var ss := [DecimalAggregate("10"), DecimalAggregate("20")];
    var types := [ss[0].returnType, ss[1].returnType];
    assert types[0].parameters[0].baseName != types[1].parameters[0].baseName;
    assert IntermediateKey(ss[0]) == IntermediateKey(ss[1]);
    DecimalReturnTypes(ss, types);
    forall i | 0 <= i < 2
      ensures ExtractOf(ss)(types[i]) != []
    {
      InItsGroup(ss, i);
      var group := GroupOf(ss, types[i]);
      var j :| 0 <= j < |group| && group[j] == ss[i];
      assert ExtractSignature(group[j]).Some?;
      DistinctlyNonEmpty(group, ExtractSignature, PairKey);
    }
    DecimalGroupsCollide(aggregates, functions, name, ss, types, 0, 1);
  }

  lemma DecimalReturnTypes(ss: seq<AggregateSignature>, types: seq<TypeSig>)
    requires |ss| == |types| == 2 && types[0] == ss[0].returnType != types[1] == ss[1].returnType
    ensures Enumerates(types, ss)
  {
  }
}
