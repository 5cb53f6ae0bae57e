/** serialize and create of plan nodes (bolt/core/PlanNode.cpp). */
module PlanSerde {
  import opened Types
  import opened PlanNodes

  datatype FrameObject<J> = FrameObject(
    windowType: WindowType, startType: BoundType, startValue: Option<J>, endType: BoundType, endValue: Option<J>)

  datatype FunctionObject<J> = FunctionObject(functionCall: J, frame: FrameObject<J>, ignoreNulls: bool)

  /** The keys that serialize writes for each class beside the id and the sources, an optional key as an Option. */
  datatype NodeObject<J> =
    | LeafObject(schema: Type)
    | FilterObject(filter: J)
    | ProjectObject(names: seq<string>, projections: seq<J>)
    | UnnestObject(replicateVariables: seq<J>, unnestVariables: seq<J>, unnestNames: seq<string>,
        ordinalityName: Option<string>)
    | WindowObject(partitionKeys: seq<J>, sortingKeys: seq<J>, sortingOrders: seq<SortOrder>,
        functions: seq<FunctionObject<J>>, windowNames: seq<string>, inputsSorted: bool)
    | RowNumberObject(partitionKeys: seq<J>, rowNumberColumnName: Option<string>, limit: Option<int>)
    | TopNRowNumberObject(partitionKeys: seq<J>, sortingKeys: seq<J>, sortingOrders: seq<SortOrder>,
        rowNumberColumnName: Option<string>, topLimit: int)
    | HashJoinObject(joinType: JoinType, leftKeys: seq<J>, rightKeys: seq<J>, joinFilter: Option<J>,
        outputType: Type, nullAware: bool)
    | MergeJoinObject(joinType: JoinType, leftKeys: seq<J>, rightKeys: seq<J>, joinFilter: Option<J>, outputType: Type)
    | NestedLoopJoinObject(joinType: JoinType, joinCondition: Option<J>, outputType: Type)

  datatype Object<J> = Object(id: string, node: NodeObject<J>, sources: seq<Object<J>>)

  // ----- serialize -----

  function WriteAll<E, J>(o: Exprs<E, J>, es: seq<E>): (js: seq<J>)
    ensures |js| == |es| && forall i | 0 <= i < |es| :: js[i] == o.write(es[i])
  {
    seq(|es|, i requires 0 <= i < |es| => o.write(es[i]))
  }

  function WriteOption<E, J>(o: Exprs<E, J>, e: Option<E>): Option<J> {
    if e.None? then None else Some(o.write(e.value))
  }

  function WriteFunction<E, J>(o: Exprs<E, J>, f: WindowFunction<E>): FunctionObject<J> {
    var g := f.frame;
    FunctionObject(
      o.write(f.call),
      FrameObject(g.windowType, g.startType, WriteOption(o, g.startValue), g.endType, WriteOption(o, g.endValue)),
      f.ignoreNulls)
  }

  function WriteFunctions<E, J>(o: Exprs<E, J>, fs: seq<WindowFunction<E>>): (js: seq<FunctionObject<J>>)
    ensures |js| == |fs| && forall i | 0 <= i < |fs| :: js[i] == WriteFunction(o, fs[i])
  {
    seq(|fs|, i requires 0 <= i < |fs| => WriteFunction(o, fs[i]))
  }

  /** The loops of UnnestNode::serialize and WindowNode::serialize that copy names out of the output schema. */
  method CopyNames(names: seq<string>, from: nat, to: nat) returns (r: seq<string>)
    requires from <= to <= |names|
    ensures r == names[from..to]
  {
    r := [];
    for i := from to to
      invariant r == names[from..i]
    {
      r := r + [names[i]];
    }
  }

  /** Names of the columns of `t` from `from` on, without the last `drop`. */
  function Slice(t: Type, from: nat, drop: nat): seq<string> {
    if from + drop <= |Columns(t)| then Columns(t)[from..|Columns(t)| - drop] else []
  }

  function LastName(t: Type): string {
    if Columns(t) == [] then "" else Columns(t)[|Columns(t)| - 1]
  }

  /** generateRowNumber decides whether the last column is the row number. */
  function RowNumberName(t: Type, input: Type): Option<string> {
    if |Columns(t)| > |Columns(input)| then Some(LastName(t)) else None
  }

  /** joinTypeName has no entry for the deprecated null-aware anti join, so serialize throws. */
  predicate Named<E>(n: Node<E>) {
    n.HashJoin? || n.MergeJoin? || n.NestedLoopJoin? ==> !n.joinType.NullAwareAnti?
  }

  function WriteNode<E, J>(o: Exprs<E, J>, n: Node<E>, inputs: seq<Type>): NodeObject<J>
    requires |inputs| == Arity(n)
  {
    match n
    case Leaf(t) => LeafObject(t)
    case Filter(f) => FilterObject(o.write(f))
    case Project(names, es) => ProjectObject(names, WriteAll(o, es))
    case Unnest(reps, vars, ord, t) =>
      UnnestObject(WriteAll(o, reps), WriteAll(o, vars), Slice(t, |reps|, if ord then 1 else 0),
                   if ord then Some(LastName(t)) else None)
    case Window(ps, ss, orders, fs, sorted, _, t) =>
      WindowObject(WriteAll(o, ps), WriteAll(o, ss), orders, WriteFunctions(o, fs), Slice(t, |Columns(inputs[0])|, 0), sorted)
    case RowNumber(ps, limit, t) => RowNumberObject(WriteAll(o, ps), RowNumberName(t, inputs[0]), limit)
    case TopNRowNumber(ps, ss, orders, limit, t) =>
      TopNRowNumberObject(WriteAll(o, ps), WriteAll(o, ss), orders, RowNumberName(t, inputs[0]), limit)
    case HashJoin(jt, na, lk, rk, f, out, _) =>
      HashJoinObject(jt, WriteAll(o, lk), WriteAll(o, rk), WriteOption(o, f), out, na)
    case MergeJoin(jt, lk, rk, f, out) => MergeJoinObject(jt, WriteAll(o, lk), WriteAll(o, rk), WriteOption(o, f), out)
    case NestedLoopJoin(jt, cond, out) => NestedLoopJoinObject(jt, WriteOption(o, cond), out)
  }

  function Serialize<E, J>(o: Exprs<E, J>, p: Plan<E>): Result<Object<J>>
    requires WellSourced(p)
  {
    match SerializeAll(o, p.sources)
    case Failure(msg) => Failure(msg)
    case Success(xs) =>
      if !Named(p.node) then Failure("no such join type")
      else Success(Object(p.id, WriteNode(o, p.node, OutputTypes(o, p.sources)), xs))
  }

  function SerializeAll<E, J>(o: Exprs<E, J>, ps: seq<Plan<E>>): Result<seq<Object<J>>>
    requires forall i | 0 <= i < |ps| :: WellSourced(ps[i])
  {
    if ps == [] then Success([])
    else
      match (Serialize(o, ps[0]), SerializeAll(o, ps[1..]))
      case (Success(x), Success(xs)) => Success([x] + xs)
      case _ => Failure("source")
  }

  // ----- create -----

  function ReadAll<E, J>(read: J -> Result<E>, js: seq<J>): Result<seq<E>> {
    if js == [] then Success([])
    else
      match (read(js[0]), ReadAll(read, js[1..]))
      case (Success(e), Success(es)) => Success([e] + es)
      case _ => Failure("expression")
  }

  /** deserializeFields: every element must be a field access. */
  function ReadFields<E, J>(o: Exprs<E, J>, js: seq<J>): (r: Result<seq<E>>)
    ensures r.Success? ==> AreFields(o, r.value)
  {
    match ReadAll(o.read, js)
    case Failure(msg) => Failure(msg)
    case Success(es) => if AreFields(o, es) then Success(es) else Failure("expected fields")
  }

  function ReadOption<E, J>(read: J -> Result<E>, j: Option<J>): Result<Option<E>> {
    if j.None? then Success(None)
    else
      match read(j.value)
      case Failure(msg) => Failure(msg)
      case Success(e) => Success(Some(e))
  }

  function ReadFunction<E, J>(o: Exprs<E, J>, j: FunctionObject<J>): Result<WindowFunction<E>> {
    var g := j.frame;
    match (o.readBare(j.functionCall), ReadOption(o.readBare, g.startValue), ReadOption(o.readBare, g.endValue))
    case (Success(call), Success(a), Success(b)) =>
      if !o.isCall(call) then Failure("expected a call")
      else Success(WindowFunction(call, Frame(g.windowType, g.startType, a, g.endType, b), j.ignoreNulls))
    case _ => Failure("expression")
  }

  function ReadFunctions<E, J>(o: Exprs<E, J>, js: seq<FunctionObject<J>>): Result<seq<WindowFunction<E>>> {
    if js == [] then Success([])
    else
      match (ReadFunction(o, js[0]), ReadFunctions(o, js[1..]))
      case (Success(f), Success(fs)) => Success([f] + fs)
      case _ => Failure("function")
  }

  /** The part of create that reads the node's keys and calls its constructor. */
  function ReadNode<E, J>(o: Exprs<E, J>, numberType: Type, x: NodeObject<J>, inputs: seq<Type>): Result<Node<E>> {
    match x
    case LeafObject(t) => Success(Leaf(t))
    case FilterObject(f) =>
      (match o.read(f)
       case Failure(msg) => Failure(msg)
       case Success(e) => MakeFilter(o, e))
    case ProjectObject(names, es) =>
      (match ReadAll(o.read, es)
       case Failure(msg) => Failure(msg)
       case Success(es') => MakeProject(names, es'))
    case UnnestObject(reps, vars, names, ord) =>
      (match (ReadFields(o, reps), ReadFields(o, vars))
       case (Success(rs), Success(vs)) => MakeUnnest(o, rs, vs, names, ord)
       case _ => Failure("field"))
    case WindowObject(ps, ss, orders, fs, names, sorted) =>
      if |inputs| != 1 then Failure("one source")
      else
        (match (ReadFields(o, ps), ReadFields(o, ss), ReadFunctions(o, fs))
         case (Success(ps'), Success(ss'), Success(fs')) => MakeWindow(o, ps', ss', orders, names, fs', sorted, 0, inputs[0])
         case _ => Failure("field"))
    case RowNumberObject(ps, name, limit) =>
      if |inputs| != 1 then Failure("one source")
      else
        (match ReadFields(o, ps)
         case Failure(msg) => Failure(msg)
         case Success(ps') => MakeRowNumber(numberType, ps', name, limit, inputs[0]))
    case TopNRowNumberObject(ps, ss, orders, name, limit) =>
      if |inputs| != 1 then Failure("one source")
      else
        (match (ReadFields(o, ps), ReadFields(o, ss))
         case (Success(ps'), Success(ss')) => MakeTopNRowNumber(o, numberType, ps', ss', orders, name, limit, inputs[0])
         case _ => Failure("field"))
    case HashJoinObject(jt, lk, rk, f, out, na) =>
      if |inputs| != 2 then Failure("two sources")
      else
        (match (ReadFields(o, lk), ReadFields(o, rk), ReadOption(o.read, f))
         case (Success(lk'), Success(rk'), Success(f')) =>
           MakeHashJoin(o, jt, na, lk', rk', f', inputs[0], inputs[1], out, NO_CACHE)
         case _ => Failure("field"))
    case MergeJoinObject(jt, lk, rk, f, out) =>
      if |inputs| != 2 then Failure("two sources")
      else
        (match (ReadFields(o, lk), ReadFields(o, rk), ReadOption(o.read, f))
         case (Success(lk'), Success(rk'), Success(f')) => MakeMergeJoin(o, jt, lk', rk', f', inputs[0], inputs[1], out)
         case _ => Failure("field"))
    case NestedLoopJoinObject(jt, cond, out) =>
      if |inputs| != 2 then Failure("two sources")
      else
        (match ReadOption(o.read, cond)
         case Failure(msg) => Failure(msg)
         case Success(cond') => MakeNestedLoopJoin(jt, cond', inputs[0], inputs[1], out))
  }

  function Create<E, J>(o: Exprs<E, J>, numberType: Type, x: Object<J>): (r: Result<Plan<E>>)
    ensures r.Success? ==> WellSourced(r.value)
  {
    match CreateAll(o, numberType, x.sources)
    case Failure(msg) => Failure(msg)
    case Success(ps) =>
      match ReadNode(o, numberType, x.node, OutputTypes(o, ps))
      case Failure(msg) => Failure(msg)
      case Success(n) => if |ps| != Arity(n) then Failure("number of sources") else Success(Plan(x.id, n, ps))
  }

  function CreateAll<E, J>(o: Exprs<E, J>, numberType: Type, xs: seq<Object<J>>): (r: Result<seq<Plan<E>>>)
    ensures r.Success? ==> |r.value| == |xs| && forall i | 0 <= i < |xs| :: WellSourced(r.value[i])
  {
    if xs == [] then Success([])
    else
      match (Create(o, numberType, xs[0]), CreateAll(o, numberType, xs[1..]))
      case (Success(p), Success(ps)) => Success([p] + ps)
      case _ => Failure("source")
  }
}
