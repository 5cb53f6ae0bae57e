/** create after serialize rebuilds the plan (bolt/core/PlanNode.cpp). */
module PlanRoundTrip {
  import opened Types
  import opened PlanNodes
  import opened PlanSerde

  // ----- expressions that come back -----

  /** Reading what was written gives an expression of the same type and field name. */
  predicate Kept<E, J>(o: Exprs<E, J>, e: E) {
    var r := o.read(o.write(e));
    r.Success? && o.typeOf(r.value) == o.typeOf(e) && o.fieldName(r.value) == o.fieldName(e)
  }

  predicate KeptBare<E, J>(o: Exprs<E, J>, e: E) {
    var r := o.readBare(o.write(e));
    r.Success? && o.typeOf(r.value) == o.typeOf(e) && o.isCall(r.value) == o.isCall(e)
  }

  predicate AllKept<E, J>(o: Exprs<E, J>, es: seq<E>) {
    forall i | 0 <= i < |es| :: Kept(o, es[i])
  }

  predicate FunctionKept<E, J>(o: Exprs<E, J>, f: WindowFunction<E>) {
    && KeptBare(o, f.call)
    && (f.frame.startValue.Some? ==> KeptBare(o, f.frame.startValue.value))
    && (f.frame.endValue.Some? ==> KeptBare(o, f.frame.endValue.value))
  }

  predicate OptionKept<E, J>(o: Exprs<E, J>, e: Option<E>) {
    e.Some? ==> Kept(o, e.value)
  }

  predicate NodeKept<E, J>(o: Exprs<E, J>, n: Node<E>) {
    match n
    case Leaf(_) => true
    case Filter(f) => Kept(o, f)
    case Project(_, es) => AllKept(o, es)
    case Unnest(reps, vars, _, _) => AllKept(o, reps) && AllKept(o, vars)
    case Window(ps, ss, _, fs, _, _, _) =>
      AllKept(o, ps) && AllKept(o, ss) && forall i | 0 <= i < |fs| :: FunctionKept(o, fs[i])
    case RowNumber(ps, _, _) => AllKept(o, ps)
    case TopNRowNumber(ps, ss, _, _, _) => AllKept(o, ps) && AllKept(o, ss)
    case HashJoin(_, _, lk, rk, f, _, _) => AllKept(o, lk) && AllKept(o, rk) && OptionKept(o, f)
    case MergeJoin(_, lk, rk, f, _) => AllKept(o, lk) && AllKept(o, rk) && OptionKept(o, f)
    case NestedLoopJoin(_, f, _) => OptionKept(o, f)
  }

  /** Every expression of the plan comes back. */
  predicate ExprsKept<E, J>(o: Exprs<E, J>, p: Plan<E>) {
    NodeKept(o, p.node) && forall i | 0 <= i < |p.sources| :: ExprsKept(o, p.sources[i])
  }

  predicate AllNamed<E>(p: Plan<E>) {
    Named(p.node) && forall i | 0 <= i < |p.sources| :: AllNamed(p.sources[i])
  }

  function BackAll<E, J>(o: Exprs<E, J>, es: seq<E>): (rs: seq<E>)
    requires AllKept(o, es)
    ensures |rs| == |es| && forall i | 0 <= i < |es| :: rs[i] == o.read(o.write(es[i])).value
  {
    seq(|es|, i requires 0 <= i < |es| => o.read(o.write(es[i])).value)
  }

  function BackOption<E, J>(o: Exprs<E, J>, e: Option<E>): Option<E>
    requires OptionKept(o, e)
  {
    if e.None? then None else Some(o.read(o.write(e.value)).value)
  }

  function BackBare<E, J>(o: Exprs<E, J>, e: Option<E>): Option<E>
    requires e.Some? ==> KeptBare(o, e.value)
  {
    if e.None? then None else Some(o.readBare(o.write(e.value)).value)
  }

  function BackFunction<E, J>(o: Exprs<E, J>, f: WindowFunction<E>): WindowFunction<E>
    requires FunctionKept(o, f)
  {
    f.(call := o.readBare(o.write(f.call)).value,
       frame := f.frame.(startValue := BackBare(o, f.frame.startValue), endValue := BackBare(o, f.frame.endValue)))
  }

  function BackFunctions<E, J>(o: Exprs<E, J>, fs: seq<WindowFunction<E>>): (gs: seq<WindowFunction<E>>)
    requires forall i | 0 <= i < |fs| :: FunctionKept(o, fs[i])
    ensures |gs| == |fs| && forall i | 0 <= i < |fs| :: gs[i] == BackFunction(o, fs[i])
  {
    seq(|fs|, i requires 0 <= i < |fs| => BackFunction(o, fs[i]))
  }

  /** The node that comes back: read-back expressions, and defaults in the fields serialize leaves out. */
  function BackNode<E, J>(o: Exprs<E, J>, n: Node<E>): Node<E>
    requires NodeKept(o, n)
  {
    match n
    case Leaf(_) => n
    case Filter(f) => Filter(o.read(o.write(f)).value)
    case Project(names, es) => Project(names, BackAll(o, es))
    case Unnest(reps, vars, ord, t) => Unnest(BackAll(o, reps), BackAll(o, vars), ord, t)
    case Window(ps, ss, orders, fs, sorted, _, t) =>
      Window(BackAll(o, ps), BackAll(o, ss), orders, BackFunctions(o, fs), sorted, 0, t)
    case RowNumber(ps, limit, t) => RowNumber(BackAll(o, ps), limit, t)
    case TopNRowNumber(ps, ss, orders, limit, t) => TopNRowNumber(BackAll(o, ps), BackAll(o, ss), orders, limit, t)
    case HashJoin(jt, na, lk, rk, f, out, _) =>
      HashJoin(jt, na, BackAll(o, lk), BackAll(o, rk), BackOption(o, f), out, NO_CACHE)
    case MergeJoin(jt, lk, rk, f, out) => MergeJoin(jt, BackAll(o, lk), BackAll(o, rk), BackOption(o, f), out)
    case NestedLoopJoin(jt, f, out) => NestedLoopJoin(jt, BackOption(o, f), out)
  }

  function Back<E, J>(o: Exprs<E, J>, p: Plan<E>): (r: Plan<E>)
    requires ExprsKept(o, p)
  {
    Plan(p.id, BackNode(o, p.node), BackSources(o, p.sources))
  }

  function BackSources<E, J>(o: Exprs<E, J>, ps: seq<Plan<E>>): (rs: seq<Plan<E>>)
    requires forall i | 0 <= i < |ps| :: ExprsKept(o, ps[i])
    ensures |rs| == |ps| && forall i | 0 <= i < |ps| :: rs[i] == Back(o, ps[i])
  {
    if ps == [] then [] else [Back(o, ps[0])] + BackSources(o, ps[1..])
  }

  // ----- lists of expressions -----

  lemma {:induction false} ReadAllBack<E, J>(o: Exprs<E, J>, es: seq<E>)
    requires AllKept(o, es)
    ensures ReadAll(o.read, WriteAll(o, es)) == Success(BackAll(o, es))
    decreases |es|
  {
    if es != [] {
      ReadAllBack(o, es[1..]);
      assert WriteAll(o, es)[1..] == WriteAll(o, es[1..]);
      assert BackAll(o, es) == [o.read(o.write(es[0])).value] + BackAll(o, es[1..]);
    }
  }

  lemma FieldsBack<E, J>(o: Exprs<E, J>, es: seq<E>)
    requires AllKept(o, es) && AreFields(o, es)
    ensures AreFields(o, BackAll(o, es)) && ReadFields(o, WriteAll(o, es)) == Success(BackAll(o, es))
    ensures FieldNames(o, BackAll(o, es)) == FieldNames(o, es) && TypesOf(o, BackAll(o, es)) == TypesOf(o, es)
  {
    ReadAllBack(o, es);
  }

  lemma {:induction false} FunctionsBack<E, J>(o: Exprs<E, J>, fs: seq<WindowFunction<E>>)
    requires forall i | 0 <= i < |fs| :: FunctionKept(o, fs[i]) && o.isCall(fs[i].call)
    ensures ReadFunctions(o, WriteFunctions(o, fs)) == Success(BackFunctions(o, fs))
    decreases |fs|
  {
    if fs != [] {
      FunctionsBack(o, fs[1..]);
      assert WriteFunctions(o, fs)[1..] == WriteFunctions(o, fs[1..]);
      assert BackFunctions(o, fs) == [BackFunction(o, fs[0])] + BackFunctions(o, fs[1..]);
    }
  }

  lemma {:induction false} UnnestTypesBack<E, J>(o: Exprs<E, J>, vars: seq<E>)
    requires AllKept(o, vars)
    ensures UnnestTypes(o, BackAll(o, vars)) == UnnestTypes(o, vars)
    decreases |vars|
  {
    if vars != [] {
      var n := |vars| - 1;
      UnnestTypesBack(o, vars[..n]);
      assert BackAll(o, vars)[..n] == BackAll(o, vars[..n]);
    }
  }

  lemma NodeOutputBack<E, J>(o: Exprs<E, J>, n: Node<E>, inputs: seq<Type>)
    requires NodeKept(o, n) && |inputs| == Arity(n)
    ensures NodeOutput(o, BackNode(o, n), inputs) == NodeOutput(o, n, inputs)
  {
    if n.Project? {
      assert TypesOf(o, BackAll(o, n.projections)) == TypesOf(o, n.projections);
    }
  }

  // ----- constructor names recovered from the output schema -----

  /** The slice between the replicated and the ordinality columns holds the names that were used. */
  lemma UnnestNamesRecovered<E, J>(o: Exprs<E, J>, reps: seq<E>, vars: seq<E>, names: seq<string>,
      ordinality: Option<string>, t: Type)
    requires AreFields(o, reps) && UnnestType(o, reps, vars, names, ordinality) == Success(t)
    ensures UnnestTypes(o, vars).Some? && |UnnestTypes(o, vars).value| <= |names|
    ensures Slice(t, |reps|, if ordinality.Some? then 1 else 0) == names[..|UnnestTypes(o, vars).value|]
    ensures ordinality.Some? ==> LastName(t) == ordinality.value
  {
  }

  lemma UnnestMadeAgain<E, J>(o: Exprs<E, J>, reps: seq<E>, vars: seq<E>, names: seq<string>, ordinality: Option<string>, t: Type)
    requires AllKept(o, reps) && AllKept(o, vars) && AreFields(o, reps)
    requires UnnestType(o, reps, vars, names, ordinality) == Success(t)
    ensures AreFields(o, BackAll(o, reps))
    ensures UnnestType(o, BackAll(o, reps), BackAll(o, vars), Slice(t, |reps|, if ordinality.Some? then 1 else 0), ordinality)
            == Success(t)
  {
    FieldsBack(o, reps);
    UnnestTypesBack(o, vars);
    UnnestNamesRecovered(o, reps, vars, names, ordinality, t);
    var used := Slice(t, |reps|, if ordinality.Some? then 1 else 0);
    assert used[..|used|] == used;
  }

  lemma UnnestRebuilt<E, J>(o: Exprs<E, J>, numberType: Type, n: Node<E>, inputs: seq<Type>)
    requires n.Unnest? && NodeBuilt(o, numberType, n, inputs) && NodeKept(o, n)
    ensures ReadNode(o, numberType, WriteNode(o, n, inputs), inputs) == Success(BackNode(o, n))
  {
    var reps, vars := n.replicateVariables, n.unnestVariables;
    var names, ordinality :| MakeUnnest(o, reps, vars, names, ordinality) == Success(n);
    FieldsBack(o, reps);
    FieldsBack(o, vars);
    UnnestNamesRecovered(o, reps, vars, names, ordinality, n.outputType);
    UnnestMadeAgain(o, reps, vars, names, ordinality, n.outputType);
  }

  lemma SingleKeyBack<E, J>(o: Exprs<E, J>, fs: seq<WindowFunction<E>>)
    requires forall i | 0 <= i < |fs| :: FunctionKept(o, fs[i])
    ensures CallTypes(o, BackFunctions(o, fs)) == CallTypes(o, fs)
    ensures forall i | 0 <= i < |fs| :: NeedsSingleSortingKey(BackFunctions(o, fs)[i]) <==> NeedsSingleSortingKey(fs[i])
  {
    forall i | 0 <= i < |fs|
      ensures NeedsSingleSortingKey(BackFunctions(o, fs)[i]) <==> NeedsSingleSortingKey(fs[i])
    {
      assert FunctionKept(o, fs[i]);
    }
  }

  /** The columns after the input's hold the window names. */
  lemma WindowMadeAgain<E, J>(o: Exprs<E, J>, n: Node<E>, names: seq<string>, input: Type)
    requires n.Window? && NodeKept(o, n) && AreFields(o, n.partitionKeys) && AreFields(o, n.sortingKeys)
    requires MakeWindow(o, n.partitionKeys, n.sortingKeys, n.sortingOrders, names, n.functions, n.inputsSorted,
                        n.followedTopNum, input) == Success(n)
    ensures AreFields(o, BackAll(o, n.partitionKeys)) && AreFields(o, BackAll(o, n.sortingKeys))
    ensures MakeWindow(o, BackAll(o, n.partitionKeys), BackAll(o, n.sortingKeys), n.sortingOrders,
                       Slice(n.outputType, |Columns(input)|, 0), BackFunctions(o, n.functions), n.inputsSorted, 0, input)
            == Success(BackNode(o, n))
  {
    FieldsBack(o, n.partitionKeys);
    FieldsBack(o, n.sortingKeys);
    SingleKeyBack(o, n.functions);
    assert Slice(n.outputType, |Columns(input)|, 0) == names;
  }

  lemma WindowRebuilt<E, J>(o: Exprs<E, J>, numberType: Type, n: Node<E>, inputs: seq<Type>)
    requires n.Window? && NodeBuilt(o, numberType, n, inputs) && NodeKept(o, n)
    ensures ReadNode(o, numberType, WriteNode(o, n, inputs), inputs) == Success(BackNode(o, n))
  {
    var names :|
      MakeWindow(o, n.partitionKeys, n.sortingKeys, n.sortingOrders, names, n.functions, n.inputsSorted, n.followedTopNum,
                 inputs[0]) == Success(n);
    FieldsBack(o, n.partitionKeys);
    FieldsBack(o, n.sortingKeys);
    FunctionsBack(o, n.functions);
    WindowMadeAgain(o, n, names, inputs[0]);
  }

  /** The last column is a row number exactly when the schema grew, and then it carries the name. */
  lemma RowNumberNameRecovered(input: Type, name: Option<string>, columnType: Type)
    ensures RowNumberName(RowNumberType(input, name, columnType), input) == name
  {
  }

  lemma RowNumberRebuilt<E, J>(o: Exprs<E, J>, numberType: Type, n: Node<E>, inputs: seq<Type>)
    requires n.RowNumber? && NodeBuilt(o, numberType, n, inputs) && NodeKept(o, n)
    ensures ReadNode(o, numberType, WriteNode(o, n, inputs), inputs) == Success(BackNode(o, n))
  {
    FieldsBack(o, n.partitionKeys);
    var name :| MakeRowNumber(numberType, n.partitionKeys, name, n.limit, inputs[0]) == Success(n);
    RowNumberNameRecovered(inputs[0], name, numberType);
  }

  lemma TopNRowNumberRebuilt<E, J>(o: Exprs<E, J>, numberType: Type, n: Node<E>, inputs: seq<Type>)
    requires n.TopNRowNumber? && NodeBuilt(o, numberType, n, inputs) && NodeKept(o, n)
    ensures ReadNode(o, numberType, WriteNode(o, n, inputs), inputs) == Success(BackNode(o, n))
  {
    var ps, ss := n.partitionKeys, n.sortingKeys;
    FieldsBack(o, ps);
    FieldsBack(o, ss);
    var name :| MakeTopNRowNumber(o, numberType, ps, ss, n.sortingOrders, name, n.topLimit, inputs[0]) == Success(n);
    RowNumberNameRecovered(inputs[0], name, numberType);
  }

  lemma JoinChecksBack<E, J>(o: Exprs<E, J>, jt: JoinType, lk: seq<E>, rk: seq<E>, l: Type, r: Type, out: Type)
    requires AllKept(o, lk) && AllKept(o, rk) && AreFields(o, lk) && AreFields(o, rk)
    requires JoinChecks(o, jt, lk, rk, l, r, out)
    ensures AreFields(o, BackAll(o, lk)) && AreFields(o, BackAll(o, rk))
    ensures JoinChecks(o, jt, BackAll(o, lk), BackAll(o, rk), l, r, out)
  {
    FieldsBack(o, lk);
    FieldsBack(o, rk);
  }

  lemma HashJoinRebuilt<E, J>(o: Exprs<E, J>, numberType: Type, n: Node<E>, inputs: seq<Type>)
    requires n.HashJoin? && NodeBuilt(o, numberType, n, inputs) && NodeKept(o, n)
    ensures ReadNode(o, numberType, WriteNode(o, n, inputs), inputs) == Success(BackNode(o, n))
  {
    FieldsBack(o, n.leftKeys);
    FieldsBack(o, n.rightKeys);
    JoinChecksBack(o, n.joinType, n.leftKeys, n.rightKeys, inputs[0], inputs[1], n.outputType);
  }

  lemma MergeJoinRebuilt<E, J>(o: Exprs<E, J>, numberType: Type, n: Node<E>, inputs: seq<Type>)
    requires n.MergeJoin? && NodeBuilt(o, numberType, n, inputs) && NodeKept(o, n)
    ensures ReadNode(o, numberType, WriteNode(o, n, inputs), inputs) == Success(BackNode(o, n))
  {
    FieldsBack(o, n.leftKeys);
    FieldsBack(o, n.rightKeys);
    JoinChecksBack(o, n.joinType, n.leftKeys, n.rightKeys, inputs[0], inputs[1], n.outputType);
  }

  lemma NodeRebuilt<E, J>(o: Exprs<E, J>, numberType: Type, n: Node<E>, inputs: seq<Type>)
    requires NodeBuilt(o, numberType, n, inputs) && NodeKept(o, n)
    ensures ReadNode(o, numberType, WriteNode(o, n, inputs), inputs) == Success(BackNode(o, n))
  {
    match n
    case Leaf(_) =>
    case Filter(_) =>
    case Project(_, es) => ReadAllBack(o, es);
    case Unnest(_, _, _, _) => UnnestRebuilt(o, numberType, n, inputs);
    case Window(_, _, _, _, _, _, _) => WindowRebuilt(o, numberType, n, inputs);
    case RowNumber(_, _, _) => RowNumberRebuilt(o, numberType, n, inputs);
    case TopNRowNumber(_, _, _, _, _) => TopNRowNumberRebuilt(o, numberType, n, inputs);
    case HashJoin(_, _, _, _, _, _, _) => HashJoinRebuilt(o, numberType, n, inputs);
    case MergeJoin(_, _, _, _, _) => MergeJoinRebuilt(o, numberType, n, inputs);
    case NestedLoopJoin(_, _, _) =>
  }

  // ----- whole plans -----

  /** serialize throws exactly on plans with a null-aware anti join of the deprecated kind. */
  lemma {:induction false} SerializesIffNamed<E, J>(o: Exprs<E, J>, p: Plan<E>)
    requires WellSourced(p)
    ensures Serialize(o, p).Success? <==> AllNamed(p)
    decreases p
  {
    AllSerializeIffNamed(o, p.sources);
  }

  lemma {:induction false} AllSerializeIffNamed<E, J>(o: Exprs<E, J>, ps: seq<Plan<E>>)
    requires forall i | 0 <= i < |ps| :: WellSourced(ps[i])
    ensures SerializeAll(o, ps).Success? <==> forall i | 0 <= i < |ps| :: AllNamed(ps[i])
    decreases ps
  {
    if ps != [] {
      SerializesIffNamed(o, ps[0]);
      AllSerializeIffNamed(o, ps[1..]);
      assert forall i | 0 < i < |ps| :: ps[i] == ps[1..][i - 1];
    }
  }

  /** create rebuilds every plan from what serialize wrote, with defaults in the fields it leaves out. */
  lemma {:induction false} CreateAfterSerialize<E, J>(o: Exprs<E, J>, numberType: Type, p: Plan<E>)
    requires Built(o, numberType, p) && ExprsKept(o, p) && AllNamed(p)
    ensures Serialize(o, p).Success? && Create(o, numberType, Serialize(o, p).value) == Success(Back(o, p))
    ensures WellSourced(Back(o, p)) && OutputType(o, Back(o, p)) == OutputType(o, p)
    decreases p
  {
    var inputs := OutputTypes(o, p.sources);
    CreateAllAfterSerialize(o, numberType, p.sources);
    NodeRebuilt(o, numberType, p.node, inputs);
    NodeOutputBack(o, p.node, inputs);
  }

  lemma {:induction false} CreateAllAfterSerialize<E, J>(o: Exprs<E, J>, numberType: Type, ps: seq<Plan<E>>)
    requires forall i | 0 <= i < |ps| :: WellSourced(ps[i])
    requires forall i | 0 <= i < |ps| :: Built(o, numberType, ps[i]) && ExprsKept(o, ps[i]) && AllNamed(ps[i])
    ensures SerializeAll(o, ps).Success?
    ensures CreateAll(o, numberType, SerializeAll(o, ps).value) == Success(BackSources(o, ps))
    ensures forall i | 0 <= i < |ps| :: WellSourced(BackSources(o, ps)[i])
    ensures OutputTypes(o, BackSources(o, ps)) == OutputTypes(o, ps)
    decreases ps
  {
    if ps != [] {
      CreateAfterSerialize(o, numberType, ps[0]);
      CreateAllAfterSerialize(o, numberType, ps[1..]);
      assert BackSources(o, ps)[1..] == BackSources(o, ps[1..]);
    }
  }

  // ----- fields that serialize leaves out -----

  /** followedTopNum and the hash table cache settings hold what create gives them. */
  predicate NodeAtDefaults<E>(n: Node<E>) {
    && (n.Window? ==> n.followedTopNum == 0)
    && (n.HashJoin? ==> n.cache == NO_CACHE)
  }

  predicate AtDefaults<E>(p: Plan<E>) {
    NodeAtDefaults(p.node) && forall i | 0 <= i < |p.sources| :: AtDefaults(p.sources[i])
  }
}
