/** What the constructors of plan nodes check, and the schemas they compute, column by column
    (bolt/core/PlanNode.cpp:878-926, 974-1059, 1452-1560, 1780-1800, 1870-1912). */
module PlanSchemas {
  import opened Types
  import opened Sequences
  import opened PlanNodes

  /** Column `k` of a row type. */
  ghost predicate ColumnIs(t: Type, k: int, name: string, typ: Type) {
    t.Row? && 0 <= k < |t.names| && k < |t.children| && t.names[k] == name && t.children[k] == typ
  }

  // ----- unnest -----

  /** How many columns a variable unnests into. */
  function Width(t: Type): nat {
    if t.Array? then 1 else if t.Map? then 2 else 0
  }

  /** Where the columns of variable `i` start among the unnested ones. */
  function Offset<E, J>(o: Exprs<E, J>, vars: seq<E>, i: nat): nat
    requires i <= |vars|
  {
    if i == 0 then 0 else Offset(o, vars, i - 1) + Width(o.typeOf(vars[i - 1]))
  }

  lemma {:induction false} OffsetInPrefix<E, J>(o: Exprs<E, J>, vars: seq<E>, n: nat, i: nat)
    requires i <= n <= |vars|
    ensures Offset(o, vars[..n], i) == Offset(o, vars, i)
  {
    if i > 0 { OffsetInPrefix(o, vars, n, i - 1); }
  }

  predicate Unnestable(t: Type) {
    t.Array? || t.Map?
  }

  lemma {:induction false} UnnestExistsIff<E, J>(o: Exprs<E, J>, vars: seq<E>)
    ensures UnnestTypes(o, vars).Some? <==> forall i | 0 <= i < |vars| :: Unnestable(o.typeOf(vars[i]))
    ensures UnnestTypes(o, vars).Some? ==> |UnnestTypes(o, vars).value| == Offset(o, vars, |vars|)
  {
    if vars != [] {
      var n := |vars| - 1;
      UnnestExistsIff(o, vars[..n]);
      OffsetInPrefix(o, vars, n, n);
      assert forall i | 0 <= i < n :: vars[..n][i] == vars[i];
    }
  }

  /** The element of an array at place `k`, or the key and the value of a map from there on. */
  predicate ColumnsOf(t: Type, types: seq<Type>, k: nat) {
    && k + Width(t) <= |types|
    && (t.Array? ==> types[k] == t.element)
    && (t.Map? ==> types[k] == t.key && types[k + 1] == t.item)
  }

  lemma {:induction false} UnnestedColumn<E, J>(o: Exprs<E, J>, vars: seq<E>, i: nat)
    requires UnnestTypes(o, vars).Some? && i < |vars|
    ensures ColumnsOf(o.typeOf(vars[i]), UnnestTypes(o, vars).value, Offset(o, vars, i))
    decreases |vars|
  {
    var n := |vars| - 1;
    OffsetInPrefix(o, vars, n, i);
    if i < n {
      UnnestedColumn(o, vars[..n], i);
      var front, all := UnnestTypes(o, vars[..n]).value, UnnestTypes(o, vars).value;
      assert front <= all;
    } else {
      UnnestExistsIff(o, vars[..n]);
    }
  }

  /** The columns of a variable of type `v`, from place `k` of the unnested columns and of their names on; these come after
      `r` others. */
  ghost predicate VariableColumns(t: Type, r: nat, names: seq<string>, k: nat, v: Type) {
    && k + Width(v) <= |names|
    && (v.Array? ==> ColumnIs(t, r + k, names[k], v.element))
    && (v.Map? ==> ColumnIs(t, r + k, names[k], v.key) && ColumnIs(t, r + k + 1, names[k + 1], v.item))
  }

  lemma {:induction false} UnnestSchemaAt<E, J>(o: Exprs<E, J>, reps: seq<E>, vars: seq<E>, names: seq<string>,
      ordinality: Option<string>, i: nat)
    requires AreFields(o, reps) && i < |vars| && UnnestType(o, reps, vars, names, ordinality).Success?
    ensures VariableColumns(UnnestType(o, reps, vars, names, ordinality).value, |reps|, names, Offset(o, vars, i),
                            o.typeOf(vars[i]))
  {
    var types, k := UnnestTypes(o, vars).value, Offset(o, vars, i);
    UnnestedColumn(o, vars, i);
    var t := UnnestType(o, reps, vars, names, ordinality).value;
    assert forall j | 0 <= j < |types| :: ColumnIs(t, |reps| + j, names[j], types[j]);
  }

  /** The schema of an unnest node exists exactly when all variables are arrays or maps and there are names enough. It has
      the replicated columns with their own types, then per array its element column and per map its key and its value
      column under the next names, then a BIGINT column for the ordinality. */
  lemma {:induction false} UnnestSchema<E, J>(o: Exprs<E, J>, reps: seq<E>, vars: seq<E>, names: seq<string>,
      ordinality: Option<string>)
    requires AreFields(o, reps)
    ensures UnnestType(o, reps, vars, names, ordinality).Success? <==>
            (forall i | 0 <= i < |vars| :: Unnestable(o.typeOf(vars[i]))) && Offset(o, vars, |vars|) <= |names|
    ensures UnnestType(o, reps, vars, names, ordinality).Success? ==>
              var t, n := UnnestType(o, reps, vars, names, ordinality).value, |reps| + Offset(o, vars, |vars|);
              && t.Row? && |t.names| == |t.children| == n + (if ordinality.Some? then 1 else 0)
              && (forall i | 0 <= i < |reps| :: ColumnIs(t, i, o.fieldName(reps[i]).value, o.typeOf(reps[i])))
              && (forall i | 0 <= i < |vars| :: VariableColumns(t, |reps|, names, Offset(o, vars, i), o.typeOf(vars[i])))
              && (ordinality.Some? ==> ColumnIs(t, n, ordinality.value, BIGINT_TYPE))
  {
    UnnestExistsIff(o, vars);
    if UnnestType(o, reps, vars, names, ordinality).Success? {
      forall i | 0 <= i < |vars| { UnnestSchemaAt(o, reps, vars, names, ordinality, i); }
    }
  }

  // ----- keys -----

  /** The two loops over partitioning and sorting keys, with the set of names seen. */
  method CheckUniqueKeys(partitionKeys: seq<string>, sortingKeys: seq<string>) returns (unique: bool)
    ensures unique <==> Distinct(partitionKeys + sortingKeys)
  {
    var all := partitionKeys + sortingKeys;
    var keyNames: set<string> := {};
    for i := 0 to |partitionKeys|
      invariant keyNames == set k | 0 <= k < i :: all[k]
      invariant Distinct(all[..i])
    {
      if partitionKeys[i] in keyNames {
        var k :| 0 <= k < i && all[k] == partitionKeys[i];
        assert all[k] == all[i];
        return false;
      }
      keyNames := keyNames + {partitionKeys[i]};
      assert (set k | 0 <= k < i + 1 :: all[k]) == (set k | 0 <= k < i :: all[k]) + {all[i]};
    }
    for i := 0 to |sortingKeys|
      invariant keyNames == set k | 0 <= k < |partitionKeys| + i :: all[k]
      invariant Distinct(all[..|partitionKeys| + i])
    {
      if sortingKeys[i] in keyNames {
        var k :| 0 <= k < |partitionKeys| + i && all[k] == sortingKeys[i];
        assert all[k] == all[|partitionKeys| + i];
        return false;
      }
      keyNames := keyNames + {sortingKeys[i]};
      ghost var n := |partitionKeys| + i;
      assert (set k | 0 <= k < n + 1 :: all[k]) == (set k | 0 <= k < n :: all[k]) + {all[n]};
    }
    assert all[..|all|] == all;
    unique := true;
  }

  // ----- window and row number -----

  method BuildWindowType<E, J>(o: Exprs<E, J>, names: seq<string>, fs: seq<WindowFunction<E>>, input: Type) returns (t: Type)
    requires |names| == |fs|
    ensures t == Row(Columns(input) + names, ColumnTypes(input) + CallTypes(o, fs))
  {
    var columns, types := Columns(input), ColumnTypes(input);
    for i := 0 to |fs|
      invariant columns == Columns(input) + names[..i]
      invariant types == ColumnTypes(input) + CallTypes(o, fs)[..i]
    {
      columns, types := columns + [names[i]], types + [o.typeOf(fs[i].call)];
    }
    assert names[..|fs|] == names && CallTypes(o, fs)[..|fs|] == CallTypes(o, fs);
    t := Row(columns, types);
  }

  /** WindowNode's constructor: its checks in order, then the schema. */
  method BuildWindow<E, J>(o: Exprs<E, J>, partitionKeys: seq<E>, sortingKeys: seq<E>, orders: seq<SortOrder>,
      names: seq<string>, fs: seq<WindowFunction<E>>, sorted: bool, topNum: int, input: Type) returns (r: Result<Node<E>>)
    requires AreFields(o, partitionKeys) && AreFields(o, sortingKeys)
    ensures r.Success? <==> MakeWindow(o, partitionKeys, sortingKeys, orders, names, fs, sorted, topNum, input).Success?
    ensures r.Success? ==> r == MakeWindow(o, partitionKeys, sortingKeys, orders, names, fs, sorted, topNum, input)
  {
    if |names| != |fs| { return Failure("as many names as functions"); }
    var t := BuildWindowType(o, names, fs, input);
    if |fs| == 0 { return Failure("at least one window function"); }
    if |sortingKeys| != |orders| { return Failure("as many sorting keys as orders"); }
    var unique := CheckUniqueKeys(FieldNames(o, partitionKeys), FieldNames(o, sortingKeys));
    if !unique { return Failure("keys must be unique"); }
    for i := 0 to |fs|
      invariant |sortingKeys| == 1 || forall k | 0 <= k < i :: !NeedsSingleSortingKey(fs[k])
    {
      var frame := fs[i].frame;
      if frame.windowType == Range && (frame.startValue != None || frame.endValue != None) && |sortingKeys| != 1 {
        return Failure("single sorting key");
      }
    }
    r := Success(Window(partitionKeys, sortingKeys, orders, fs, sorted, topNum, t));
  }

  /** The window schema is the input's, then a column per function with its name and the type of its call. */
  lemma {:induction false} WindowSchema<E, J>(o: Exprs<E, J>, partitionKeys: seq<E>, sortingKeys: seq<E>,
      orders: seq<SortOrder>,
      names: seq<string>, fs: seq<WindowFunction<E>>, sorted: bool, topNum: int, input: Type)
    requires AreFields(o, partitionKeys) && AreFields(o, sortingKeys) && input.Row? && |input.names| == |input.children|
    requires MakeWindow(o, partitionKeys, sortingKeys, orders, names, fs, sorted, topNum, input).Success?
    ensures var n := MakeWindow(o, partitionKeys, sortingKeys, orders, names, fs, sorted, topNum, input).value;
            && n.Window? && n.partitionKeys == partitionKeys && n.sortingKeys == sortingKeys && n.sortingOrders == orders
            && n.functions == fs && n.inputsSorted == sorted && n.followedTopNum == topNum
            && |n.outputType.names| == |n.outputType.children| == |input.names| + |fs|
            && (forall i | 0 <= i < |input.names| :: ColumnIs(n.outputType, i, input.names[i], input.children[i]))
            && (forall i | 0 <= i < |fs| :: ColumnIs(n.outputType, |input.names| + i, names[i], o.typeOf(fs[i].call)))
  {
  }

  /** TopNRowNumberNode's constructor. */
  method BuildTopNRowNumber<E, J>(o: Exprs<E, J>, numberType: Type, partitionKeys: seq<E>, sortingKeys: seq<E>,
      orders: seq<SortOrder>, name: Option<string>, limit: int, input: Type) returns (r: Result<Node<E>>)
    requires AreFields(o, partitionKeys) && AreFields(o, sortingKeys)
    ensures r.Success? <==> MakeTopNRowNumber(o, numberType, partitionKeys, sortingKeys, orders, name, limit, input).Success?
    ensures r.Success? ==> r == MakeTopNRowNumber(o, numberType, partitionKeys, sortingKeys, orders, name, limit, input)
  {
    if |sortingKeys| != |orders| { return Failure("as many sorting keys as orders"); }
    if !(limit > 0) { return Failure("Limit must be greater than zero"); }
    var unique := CheckUniqueKeys(FieldNames(o, partitionKeys), FieldNames(o, sortingKeys));
    if !unique { return Failure("keys must be unique"); }
    r := Success(TopNRowNumber(partitionKeys, sortingKeys, orders, limit, RowNumberType(input, name, numberType)));
  }

  /** With a name the row-number schema has one more column than the input, of the number type; without, it is the
      input's. */
  lemma {:induction false} RowNumberSchema(input: Type, name: Option<string>, numberType: Type)
    requires input.Row? && |input.names| == |input.children|
    ensures name.None? ==> RowNumberType(input, name, numberType) == input
    ensures name.Some? ==>
              var t := RowNumberType(input, name, numberType);
              && |t.names| == |t.children| == |input.names| + 1 && ColumnIs(t, |input.names|, name.value, numberType)
              && forall i | 0 <= i < |input.names| :: ColumnIs(t, i, input.names[i], input.children[i])
  {
  }

  // ----- joins -----

  /** The join kinds whose output may have columns of the left or of the right side. */
  predicate ShowsLeft(jt: JoinType) {
    jt in {Inner, Left, Right, Full, LeftSemiFilter, LeftSemiProject, Anti, NullAwareAnti}
  }

  predicate ShowsRight(jt: JoinType) {
    jt in {Inner, Left, Right, Full, RightSemiFilter, RightSemiProject, NullAwareAnti}
  }

  predicate HasMatchColumn(jt: JoinType) {
    jt in {LeftSemiProject, RightSemiProject}
  }

  /** A column of exactly one side, and of a side that the join kind shows. */
  predicate FromOneSide(column: string, showsLeft: bool, showsRight: bool, l: Type, r: Type) {
    || (showsLeft && column in Columns(l) && column !in Columns(r))
    || (showsRight && column in Columns(r) && column !in Columns(l))
  }

  /** Keys `k` of both sides are columns there, and of one kind. */
  predicate KeysMatch<E, J>(o: Exprs<E, J>, left: E, right: E, l: Type, r: Type)
    requires o.fieldName(left).Some? && o.fieldName(right).Some?
  {
    && o.fieldName(left).value in Columns(l) && o.fieldName(right).value in Columns(r)
    && o.typeOf(left).Kind() == o.typeOf(right).Kind()
  }

  lemma {:induction false} KeysAcceptedIff<E, J>(o: Exprs<E, J>, leftKeys: seq<E>, rightKeys: seq<E>, l: Type, r: Type)
    requires AreFields(o, leftKeys) && AreFields(o, rightKeys) && |leftKeys| == |rightKeys|
    ensures KeyChecks(o, leftKeys, rightKeys, l, r) <==>
            forall k | 0 <= k < |leftKeys| :: KeysMatch(o, leftKeys[k], rightKeys[k], l, r)
  {
    var ls, rs := FieldNames(o, leftKeys), FieldNames(o, rightKeys);
    forall k | 0 <= k < |leftKeys|
      ensures KeysMatch(o, leftKeys[k], rightKeys[k], l, r) <==>
              ls[k] in Columns(l) && rs[k] in Columns(r) && o.typeOf(leftKeys[k]).Kind() == o.typeOf(rightKeys[k]).Kind()
    {
    }
  }

  /** A join is accepted exactly when there are as many keys on both sides, at least one, that match, and every output column
      is from one side, but for a last boolean match column that is in neither. */
  lemma {:induction false} JoinAcceptedIff<E, J>(o: Exprs<E, J>, jt: JoinType, leftKeys: seq<E>, rightKeys: seq<E>,
      l: Type, r: Type, out: Type)
    requires AreFields(o, leftKeys) && AreFields(o, rightKeys) && out.Row? && |out.names| == |out.children|
    ensures JoinChecks(o, jt, leftKeys, rightKeys, l, r, out) <==>
            && |leftKeys| >= 1 && |rightKeys| == |leftKeys|
            && (forall k | 0 <= k < |leftKeys| :: KeysMatch(o, leftKeys[k], rightKeys[k], l, r))
            && SchemaFromSides(HasMatchColumn(jt), ShowsLeft(jt), ShowsRight(jt), l, r, out)
  {
    OutputAcceptedIff(HasMatchColumn(jt), ShowsLeft(jt), ShowsRight(jt), l, r, out);
    if |leftKeys| == |rightKeys| { KeysAcceptedIff(o, leftKeys, rightKeys, l, r); }
  }

  predicate SchemaFromSides(hasMatch: bool, showsLeft: bool, showsRight: bool, l: Type, r: Type, out: Type)
    requires out.Row? && |out.names| == |out.children|
  {
    var n := |out.names|;
    if hasMatch then
      && n > 0 && out.children[n - 1] == BOOLEAN_TYPE && out.names[n - 1] !in Columns(l) && out.names[n - 1] !in Columns(r)
      && forall i | 0 <= i < n - 1 :: FromOneSide(out.names[i], showsLeft, showsRight, l, r)
    else forall i | 0 <= i < n :: FromOneSide(out.names[i], showsLeft, showsRight, l, r)
  }

  lemma {:induction false} OutputAcceptedIff(hasMatch: bool, showsLeft: bool, showsRight: bool, l: Type, r: Type, out: Type)
    requires out.Row? && |out.names| == |out.children|
    ensures OutputChecks(hasMatch, showsLeft, showsRight, l, r, out) <==>
            SchemaFromSides(hasMatch, showsLeft, showsRight, l, r, out)
  {
    if OutputChecks(hasMatch, showsLeft, showsRight, l, r, out) {
      var n := if hasMatch then |out.names| - 1 else |out.names|;
      forall i | 0 <= i < n ensures FromOneSide(out.names[i], showsLeft, showsRight, l, r) {
        assert ColumnChecks(Columns(out)[i], showsLeft, showsRight, l, r);
      }
    }
  }

  /** The further conditions of the three join classes. */
  lemma {:induction false} JoinClassesAccept<E, J>(o: Exprs<E, J>, jt: JoinType, nullAware: bool, leftKeys: seq<E>,
      rightKeys: seq<E>, filter: Option<E>, l: Type, r: Type, out: Type, cache: HashTableCache)
    requires AreFields(o, leftKeys) && AreFields(o, rightKeys) && out.Row? && |out.names| == |out.children|
    ensures MakeHashJoin(o, jt, nullAware, leftKeys, rightKeys, filter, l, r, out, cache).Success? <==>
            && JoinChecks(o, jt, leftKeys, rightKeys, l, r, out)
            && (nullAware ==> jt in {Anti, LeftSemiProject, RightSemiProject} && |leftKeys| == 1)
            && (nullAware && jt == RightSemiProject ==> filter == None)
    ensures MakeMergeJoin(o, jt, leftKeys, rightKeys, filter, l, r, out).Success? <==>
            && JoinChecks(o, jt, leftKeys, rightKeys, l, r, out)
            && jt in {Inner, Left, Right, Full, LeftSemiFilter, RightSemiFilter, Anti}
    ensures MakeNestedLoopJoin(jt, filter, l, r, out).Success? <==>
            && jt in {Inner, Left, Right, Full, LeftSemiProject}
            && SchemaFromSides(jt == LeftSemiProject, true, true, l, r, out)
  {
    OutputAcceptedIff(jt == LeftSemiProject, true, true, l, r, out);
  }

  /** An accepted join holds what it was given. */
  lemma {:induction false} JoinsHoldArguments<E, J>(o: Exprs<E, J>, jt: JoinType, nullAware: bool, leftKeys: seq<E>,
      rightKeys: seq<E>, filter: Option<E>, l: Type, r: Type, out: Type, cache: HashTableCache, n: Node<E>)
    requires AreFields(o, leftKeys) && AreFields(o, rightKeys)
    requires || MakeHashJoin(o, jt, nullAware, leftKeys, rightKeys, filter, l, r, out, cache) == Success(n)
             || MakeMergeJoin(o, jt, leftKeys, rightKeys, filter, l, r, out) == Success(n)
             || MakeNestedLoopJoin(jt, filter, l, r, out) == Success(n)
    ensures n.HashJoin? || n.MergeJoin? || n.NestedLoopJoin?
    ensures n.joinType == jt && NodeOutput(o, n, [l, r]) == out
    ensures n.HashJoin? || n.MergeJoin? ==> n.leftKeys == leftKeys && n.rightKeys == rightKeys && n.joinFilter == filter
    ensures n.HashJoin? ==> n.nullAware == nullAware && n.cache == cache
    ensures n.NestedLoopJoin? ==> n.joinCondition == filter
  {
  }

  // ----- filter and project -----

  /** A filter must be boolean and passes its input's columns on; a project gives one column per name and expression. */
  lemma {:induction false} FilterAndProjectAccept<E, J>(o: Exprs<E, J>, filter: E, names: seq<string>, es: seq<E>,
      input: Type)
    ensures MakeFilter(o, filter).Success? <==> o.typeOf(filter).Kind() == BOOLEAN
    ensures MakeFilter(o, filter).Success? ==>
              var n := MakeFilter(o, filter).value;
              n.Filter? && n.filter == filter && NodeOutput(o, n, [input]) == input
    ensures MakeProject(names, es).Success? <==> |names| == |es|
    ensures MakeProject(names, es).Success? ==>
              var n := MakeProject(names, es).value;
              && n.Project? && n.projections == es
              && var t := NodeOutput(o, n, [input]);
                 && t.Row? && |t.names| == |t.children| == |es|
                 && forall i | 0 <= i < |es| :: ColumnIs(t, i, names[i], o.typeOf(es[i]))
  {
  }
}
