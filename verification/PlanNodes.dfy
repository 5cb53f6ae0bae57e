/** Plan nodes, their constructors and output schemas (bolt/core/PlanNode.h, bolt/core/PlanNode.cpp). */
module PlanNodes {
  import opened Types
  import opened Sequences

  /** What plan nodes ask of typed expressions, and how these are written and read.
      `readBare` reads without a memory pool, as window functions and frames do. */
  datatype Exprs<!E, !J> = Exprs(
    typeOf: E -> Type,
    fieldName: E -> Option<string>,
    isCall: E -> bool,
    write: E -> J,
    read: J -> Result<E>,
    readBare: J -> Result<E>)

  datatype SortOrder = SortOrder(ascending: bool, nullsFirst: bool)

  datatype WindowType = Range | Rows

  datatype BoundType = UnboundedPreceding | Preceding | CurrentRow | Following | UnboundedFollowing

  datatype Frame<E> = Frame(
    windowType: WindowType, startType: BoundType, startValue: Option<E>, endType: BoundType, endValue: Option<E>)

  datatype WindowFunction<E> = WindowFunction(call: E, frame: Frame<E>, ignoreNulls: bool)

  datatype JoinType =
    | Inner | Left | Right | Full | LeftSemiFilter | LeftSemiProject | RightSemiFilter | RightSemiProject
    | NullAwareAnti | Anti

  /** What a hash join keeps of the hash table cache; a table is known by its identity. */
  datatype HashTableCache = HashTableCache(useHashTableCache: bool, joinHasNullKeys: bool, reusableHashTable: Option<int>)

  const NO_CACHE := HashTableCache(false, false, None)

  /** The stored fields of each class. `Leaf` stands for the sources that are not modelled. */
  datatype Node<E> =
    | Leaf(schema: Type)
    | Filter(filter: E)
    | Project(names: seq<string>, projections: seq<E>)
    | Unnest(replicateVariables: seq<E>, unnestVariables: seq<E>, withOrdinality: bool, outputType: Type)
    | Window(partitionKeys: seq<E>, sortingKeys: seq<E>, sortingOrders: seq<SortOrder>,
        functions: seq<WindowFunction<E>>, inputsSorted: bool, followedTopNum: int, outputType: Type)
    | RowNumber(partitionKeys: seq<E>, limit: Option<int>, outputType: Type)
    | TopNRowNumber(partitionKeys: seq<E>, sortingKeys: seq<E>, sortingOrders: seq<SortOrder>,
        topLimit: int, outputType: Type)
    | HashJoin(joinType: JoinType, nullAware: bool, leftKeys: seq<E>, rightKeys: seq<E>, joinFilter: Option<E>,
        outputType: Type, cache: HashTableCache)
    | MergeJoin(joinType: JoinType, leftKeys: seq<E>, rightKeys: seq<E>, joinFilter: Option<E>, outputType: Type)
    | NestedLoopJoin(joinType: JoinType, joinCondition: Option<E>, outputType: Type)

  datatype Plan<E> = Plan(id: string, node: Node<E>, sources: seq<Plan<E>>)

  const BIGINT_TYPE := Scalar(BIGINT, [])
  const BOOLEAN_TYPE := Scalar(BOOLEAN, [])

  function TypesOf<E, J>(o: Exprs<E, J>, es: seq<E>): seq<Type> {
    seq(|es|, i requires 0 <= i < |es| => o.typeOf(es[i]))
  }

  function Arity<E>(n: Node<E>): nat {
    if n.Leaf? then 0 else if n.HashJoin? || n.MergeJoin? || n.NestedLoopJoin? then 2 else 1
  }

  /** The output schema of a node over sources with output schemas `inputs`. */
  function NodeOutput<E, J>(o: Exprs<E, J>, n: Node<E>, inputs: seq<Type>): Type
    requires |inputs| == Arity(n)
  {
    match n
    case Leaf(t) => t
    case Filter(_) => inputs[0]
    case Project(names, es) => Row(names, TypesOf(o, es))
    case _ => n.outputType
  }

  /** The column names of a row type. */
  function Columns(t: Type): seq<string> {
    if t.Row? then t.names else []
  }

  function ColumnTypes(t: Type): seq<Type> {
    if t.Row? then t.children else []
  }

  predicate AreFields<E, J>(o: Exprs<E, J>, es: seq<E>) {
    forall i | 0 <= i < |es| :: o.fieldName(es[i]).Some?
  }

  function FieldNames<E, J>(o: Exprs<E, J>, es: seq<E>): seq<string>
    requires AreFields(o, es)
  {
    seq(|es|, i requires 0 <= i < |es| => o.fieldName(es[i]).value)
  }

  // ----- constructors -----

  function MakeFilter<E, J>(o: Exprs<E, J>, filter: E): Result<Node<E>> {
    if o.typeOf(filter).Kind() != BOOLEAN then Failure("Filter expression must be of type BOOLEAN")
    else Success(Filter(filter))
  }

  function MakeProject<E>(names: seq<string>, projections: seq<E>): Result<Node<E>> {
    if |names| != |projections| then Failure("as many names as types") else Success(Project(names, projections))
  }

  /** The column types an unnested variable gives. */
  function Unnested(t: Type): Option<seq<Type>> {
    match t
    case Array(e) => Some([e])
    case Map(k, v) => Some([k, v])
    case _ => None
  }

  function UnnestTypes<E, J>(o: Exprs<E, J>, vars: seq<E>): Option<seq<Type>> {
    if vars == [] then Some([])
    else
      var n := |vars| - 1;
      match UnnestTypes(o, vars[..n])
      case None => None
      case Some(front) =>
        match Unnested(o.typeOf(vars[n]))
        case None => None
        case Some(last) => Some(front + last)
  }

  /** Replicated columns, then unnested columns, then the ordinality column. */
  function UnnestType<E, J>(o: Exprs<E, J>, reps: seq<E>, vars: seq<E>, names: seq<string>, ordinality: Option<string>): Result<Type>
    requires AreFields(o, reps)
  {
    match UnnestTypes(o, vars)
    case None => Failure("Expected ARRAY or MAP")
    case Some(types) =>
      if |names| < |types| then Failure("too few names")
      else
        var last := if ordinality.Some? then [ordinality.value] else [];
        Success(Row(FieldNames(o, reps) + names[..|types|] + last,
                    TypesOf(o, reps) + types + if ordinality.Some? then [BIGINT_TYPE] else []))
  }

  lemma {:induction false} UnnestPrefix<E, J>(o: Exprs<E, J>, vars: seq<E>, n: nat)
    requires n <= |vars| && UnnestTypes(o, vars).Some?
    ensures UnnestTypes(o, vars[..n]).Some? && UnnestTypes(o, vars[..n]).value <= UnnestTypes(o, vars).value
    decreases |vars| - n
  {
    if n < |vars| {
      UnnestPrefix(o, vars, n + 1);
      assert vars[..n + 1][..n] == vars[..n];
    } else {
      assert vars[..n] == vars;
    }
  }

  /** One more variable: an array gives its element column, a map its key and its value column, anything else nothing. */
  lemma UnnestStep<E, J>(o: Exprs<E, J>, vars: seq<E>, i: nat)
    requires i < |vars| && UnnestTypes(o, vars[..i]).Some?
    ensures var t, front := o.typeOf(vars[i]), UnnestTypes(o, vars[..i]).value;
            UnnestTypes(o, vars[..i + 1]) ==
              if t.Array? then Some(front + [t.element]) else if t.Map? then Some(front + [t.key] + [t.item]) else None
  {
    assert vars[..i + 1][..i] == vars[..i];
    var t, front := o.typeOf(vars[i]), UnnestTypes(o, vars[..i]).value;
    if t.Map? {
      assert front + [t.key, t.item] == front + [t.key] + [t.item];
    }
  }

  /** The loop of UnnestNode's constructor over the unnest variables, with its running index into the unnest names. */
  method ComputeUnnestType<E, J>(o: Exprs<E, J>, reps: seq<E>, vars: seq<E>, unnestNames: seq<string>, ordinality: Option<string>)
    returns (r: Result<Type>)
    requires AreFields(o, reps)
    ensures r.Success? <==> UnnestType(o, reps, vars, unnestNames, ordinality).Success?
    ensures r.Success? ==> r == UnnestType(o, reps, vars, unnestNames, ordinality)
  {
    var names, types, unnestIndex := FieldNames(o, reps), TypesOf(o, reps), 0;
    for i := 0 to |vars|
      invariant UnnestTypes(o, vars[..i]).Some? && |UnnestTypes(o, vars[..i]).value| == unnestIndex <= |unnestNames|
      invariant names == FieldNames(o, reps) + unnestNames[..unnestIndex]
      invariant types == TypesOf(o, reps) + UnnestTypes(o, vars[..i]).value
    {
      UnnestStep(o, vars, i);
      if UnnestTypes(o, vars).Some? {
        UnnestPrefix(o, vars, i + 1);
      }
      var t := o.typeOf(vars[i]);
      if t.Array? {
        if unnestIndex == |unnestNames| { return Failure("too few names"); }
        names, types := names + [unnestNames[unnestIndex]], types + [t.element];
        unnestIndex := unnestIndex + 1;
      } else if t.Map? {
        if unnestIndex + 1 >= |unnestNames| { return Failure("too few names"); }
        names, types := names + [unnestNames[unnestIndex]], types + [t.key];
        names, types := names + [unnestNames[unnestIndex + 1]], types + [t.item];
        unnestIndex := unnestIndex + 2;
      } else {
        return Failure("Expected ARRAY or MAP");
      }
    }
    assert vars[..|vars|] == vars;
    if ordinality.Some? {
      return Success(Row(names + [ordinality.value], types + [BIGINT_TYPE]));
    }
    assert names + [] == names && types + [] == types;
    return Success(Row(names, types));
  }

  function MakeUnnest<E, J>(o: Exprs<E, J>, reps: seq<E>, vars: seq<E>, names: seq<string>,
      ordinality: Option<string>): Result<Node<E>>
    requires AreFields(o, reps)
  {
    match UnnestType(o, reps, vars, names, ordinality)
    case Failure(msg) => Failure(msg)
    case Success(t) => Success(Unnest(reps, vars, ordinality.Some?, t))
  }

  function CallTypes<E, J>(o: Exprs<E, J>, fs: seq<WindowFunction<E>>): seq<Type> {
    seq(|fs|, i requires 0 <= i < |fs| => o.typeOf(fs[i].call))
  }

  predicate NeedsSingleSortingKey<E>(f: WindowFunction<E>) {
    f.frame.windowType.Range? && (f.frame.startValue.Some? || f.frame.endValue.Some?)
  }

  function MakeWindow<E, J>(o: Exprs<E, J>, partitionKeys: seq<E>, sortingKeys: seq<E>, orders: seq<SortOrder>,
      names: seq<string>, fs: seq<WindowFunction<E>>, sorted: bool, topNum: int, input: Type): Result<Node<E>>
    requires AreFields(o, partitionKeys) && AreFields(o, sortingKeys)
  {
    if |names| != |fs| then Failure("as many names as functions")
    else if fs == [] then Failure("at least one window function")
    else if |sortingKeys| != |orders| then Failure("as many sorting keys as orders")
    else if !Distinct(FieldNames(o, partitionKeys) + FieldNames(o, sortingKeys)) then Failure("keys must be unique")
    else if |sortingKeys| != 1 && exists i | 0 <= i < |fs| :: NeedsSingleSortingKey(fs[i]) then Failure("single sorting key")
    else Success(Window(partitionKeys, sortingKeys, orders, fs, sorted, topNum,
                        Row(Columns(input) + names, ColumnTypes(input) + CallTypes(o, fs))))
  }

  /** The input schema with an optional row-number column of the given type at the end. */
  function RowNumberType(input: Type, name: Option<string>, columnType: Type): Type {
    if name.Some? then Row(Columns(input) + [name.value], ColumnTypes(input) + [columnType]) else input
  }

  function MakeRowNumber<E>(numberType: Type, partitionKeys: seq<E>, name: Option<string>, limit: Option<int>,
      input: Type): Result<Node<E>>
  {
    Success(RowNumber(partitionKeys, limit, RowNumberType(input, name, numberType)))
  }

  function MakeTopNRowNumber<E, J>(o: Exprs<E, J>, numberType: Type, partitionKeys: seq<E>, sortingKeys: seq<E>,
      orders: seq<SortOrder>, name: Option<string>, limit: int, input: Type): Result<Node<E>>
    requires AreFields(o, partitionKeys) && AreFields(o, sortingKeys)
  {
    if |sortingKeys| != |orders| then Failure("as many sorting keys as orders")
    else if limit <= 0 then Failure("Limit must be greater than zero")
    else if !Distinct(FieldNames(o, partitionKeys) + FieldNames(o, sortingKeys)) then Failure("keys must be unique")
    else Success(TopNRowNumber(partitionKeys, sortingKeys, orders, limit, RowNumberType(input, name, numberType)))
  }

  /** The checks of AbstractJoinNode's constructor. */
  predicate JoinChecks<E, J>(o: Exprs<E, J>, jt: JoinType, leftKeys: seq<E>, rightKeys: seq<E>, l: Type, r: Type, out: Type)
    requires AreFields(o, leftKeys) && AreFields(o, rightKeys)
  {
    && 0 < |leftKeys| == |rightKeys|
    && KeyChecks(o, leftKeys, rightKeys, l, r)
    && OutputChecks(jt.LeftSemiProject? || jt.RightSemiProject?,
                    !(jt.RightSemiFilter? || jt.RightSemiProject?),
                    !(jt.LeftSemiFilter? || jt.LeftSemiProject? || jt.Anti?), l, r, out)
  }

  predicate KeyChecks<E, J>(o: Exprs<E, J>, leftKeys: seq<E>, rightKeys: seq<E>, l: Type, r: Type)
    requires AreFields(o, leftKeys) && AreFields(o, rightKeys) && |leftKeys| == |rightKeys|
  {
    && (forall i | 0 <= i < |leftKeys| :: FieldNames(o, leftKeys)[i] in Columns(l))
    && (forall i | 0 <= i < |rightKeys| :: FieldNames(o, rightKeys)[i] in Columns(r))
    && (forall i | 0 <= i < |leftKeys| :: o.typeOf(leftKeys[i]).Kind() == o.typeOf(rightKeys[i]).Kind())
  }

  /** Output columns come from exactly one side, apart from a final match column. */
  predicate OutputChecks(hasMatch: bool, mayLeft: bool, mayRight: bool, l: Type, r: Type, out: Type) {
    var cols := Columns(out);
    var n := |cols| - if hasMatch then 1 else 0;
    && (hasMatch ==>
          && n >= 0 && n < |ColumnTypes(out)| && ColumnTypes(out)[n] == BOOLEAN_TYPE
          && cols[n] !in Columns(l) && cols[n] !in Columns(r))
    && forall i | 0 <= i < n :: ColumnChecks(cols[i], mayLeft, mayRight, l, r)
  }

  predicate ColumnChecks(column: string, mayLeft: bool, mayRight: bool, l: Type, r: Type) {
    if mayLeft && column in Columns(l) then column !in Columns(r)
    else mayRight && column in Columns(r) && column !in Columns(l)
  }

  function MakeHashJoin<E, J>(o: Exprs<E, J>, jt: JoinType, nullAware: bool, leftKeys: seq<E>, rightKeys: seq<E>,
      filter: Option<E>, l: Type, r: Type, out: Type, cache: HashTableCache): Result<Node<E>>
    requires AreFields(o, leftKeys) && AreFields(o, rightKeys)
  {
    if !JoinChecks(o, jt, leftKeys, rightKeys, l, r, out) then Failure("join")
    else if nullAware && !(jt.Anti? || jt.LeftSemiProject? || jt.RightSemiProject?) then Failure("Null-aware flag")
    else if nullAware && |leftKeys| != 1 then Failure("Null-aware joins allow only one join key")
    else if nullAware && filter.Some? && jt.RightSemiProject? then Failure("Null-aware right semi project join")
    else Success(HashJoin(jt, nullAware, leftKeys, rightKeys, filter, out, cache))
  }

  function MakeMergeJoin<E, J>(o: Exprs<E, J>, jt: JoinType, leftKeys: seq<E>, rightKeys: seq<E>,
      filter: Option<E>, l: Type, r: Type, out: Type): Result<Node<E>>
    requires AreFields(o, leftKeys) && AreFields(o, rightKeys)
  {
    if !JoinChecks(o, jt, leftKeys, rightKeys, l, r, out) then Failure("join")
    else if jt.LeftSemiProject? || jt.RightSemiProject? || jt.NullAwareAnti? then Failure("not supported by merge join")
    else Success(MergeJoin(jt, leftKeys, rightKeys, filter, out))
  }

  function MakeNestedLoopJoin<E>(jt: JoinType, condition: Option<E>, l: Type, r: Type, out: Type): Result<Node<E>> {
    if !(jt.Inner? || jt.Left? || jt.Right? || jt.Full? || jt.LeftSemiProject?) then Failure("not supported by nested loop join")
    else if !OutputChecks(jt.LeftSemiProject?, true, true, l, r, out) then Failure("join")
    else Success(NestedLoopJoin(jt, condition, out))
  }

  /** The node came out of its class's constructor, over sources with output schemas `inputs`. */
  ghost predicate NodeBuilt<E, J>(o: Exprs<E, J>, numberType: Type, n: Node<E>, inputs: seq<Type>) {
    |inputs| == Arity(n) &&
    match n
    case Leaf(schema) => schema.Row?
    case Filter(f) => MakeFilter(o, f) == Success(n)
    case Project(names, es) => MakeProject(names, es) == Success(n)
    case Unnest(reps, vars, _, _) =>
      && AreFields(o, reps) && AreFields(o, vars)
      && exists names, ordinality :: MakeUnnest(o, reps, vars, names, ordinality) == Success(n)
    case Window(ps, ss, orders, fs, sorted, top, _) =>
      && AreFields(o, ps) && AreFields(o, ss) && (forall i | 0 <= i < |fs| :: o.isCall(fs[i].call))
      && exists names :: MakeWindow(o, ps, ss, orders, names, fs, sorted, top, inputs[0]) == Success(n)
    case RowNumber(ps, limit, _) =>
      AreFields(o, ps) && exists name :: MakeRowNumber(numberType, ps, name, limit, inputs[0]) == Success(n)
    case TopNRowNumber(ps, ss, orders, limit, _) =>
      && AreFields(o, ps) && AreFields(o, ss)
      && exists name :: MakeTopNRowNumber(o, numberType, ps, ss, orders, name, limit, inputs[0]) == Success(n)
    case HashJoin(jt, na, lk, rk, f, out, cache) =>
      && out.Row? && AreFields(o, lk) && AreFields(o, rk)
      && MakeHashJoin(o, jt, na, lk, rk, f, inputs[0], inputs[1], out, cache) == Success(n)
    case MergeJoin(jt, lk, rk, f, out) =>
      && out.Row? && AreFields(o, lk) && AreFields(o, rk)
      && MakeMergeJoin(o, jt, lk, rk, f, inputs[0], inputs[1], out) == Success(n)
    case NestedLoopJoin(jt, cond, out) =>
      out.Row? && MakeNestedLoopJoin(jt, cond, inputs[0], inputs[1], out) == Success(n)
  }

  function OutputType<E, J>(o: Exprs<E, J>, p: Plan<E>): Type
    requires WellSourced(p)
  {
    NodeOutput(o, p.node, OutputTypes(o, p.sources))
  }

  function OutputTypes<E, J>(o: Exprs<E, J>, ps: seq<Plan<E>>): (ts: seq<Type>)
    requires forall i | 0 <= i < |ps| :: WellSourced(ps[i])
    ensures |ts| == |ps|
  {
    if ps == [] then [] else [OutputType(o, ps[0])] + OutputTypes(o, ps[1..])
  }

  /** Every node has as many sources as its class takes. */
  predicate WellSourced<E>(p: Plan<E>) {
    |p.sources| == Arity(p.node) && forall i | 0 <= i < |p.sources| :: WellSourced(p.sources[i])
  }

  /** Every node of the plan came out of its constructor. */
  ghost predicate Built<E, J>(o: Exprs<E, J>, numberType: Type, p: Plan<E>) {
    && WellSourced(p)
    && NodeBuilt(o, numberType, p.node, OutputTypes(o, p.sources))
    && forall i | 0 <= i < |p.sources| :: Built(o, numberType, p.sources[i])
  }
}
