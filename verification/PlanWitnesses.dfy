/** Plans that do not come back as they were, or cannot be written at all (bolt/core/PlanNode.cpp). */
module PlanWitnesses {
  import opened Types
  import opened PlanNodes
  import opened PlanSerde
  import opened PlanRoundTrip

  function Source<E>(id: string, column: string): Plan<E> {
    Plan(id, Leaf(Row([column], [BIGINT_TYPE])), [])
  }

  /** `call` over all rows, known to be followed by a top-n of `topNum` rows. */
  function WindowOver<E>(call: E, topNum: int): Plan<E> {
    var f := WindowFunction(call, Frame(Rows, UnboundedPreceding, None, CurrentRow, None), false);
    Plan("2", Window([], [], [], [f], false, topNum, Row(["a", "r"], [BIGINT_TYPE, BIGINT_TYPE])), [Source("1", "a")])
  }

  /** A join of columns a and b on the keys `l` and `r`. */
  function Join<E>(jt: JoinType, l: E, r: E, cache: HashTableCache): Plan<E> {
    Plan("3", HashJoin(jt, false, [l], [r], None, Row(["a", "b"], [BIGINT_TYPE, BIGINT_TYPE]), cache),
         [Source("1", "a"), Source("2", "b")])
  }

  const INPUT_A := Row(["a"], [BIGINT_TYPE])
  const INPUT_B := Row(["b"], [BIGINT_TYPE])

  lemma WindowNodeBuilt<E, J>(o: Exprs<E, J>, numberType: Type, call: E, topNum: int)
    requires o.isCall(call) && o.typeOf(call) == BIGINT_TYPE
    ensures NodeBuilt(o, numberType, WindowOver(call, topNum).node, [INPUT_A])
  {
    var n, inputs := WindowOver(call, topNum).node, [INPUT_A];
    assert FieldNames(o, []) + FieldNames(o, []) == [];
    assert !NeedsSingleSortingKey(n.functions[0]);
    assert Columns(INPUT_A) + ["r"] == ["a", "r"];
    assert ColumnTypes(INPUT_A) + CallTypes(o, n.functions) == [BIGINT_TYPE, BIGINT_TYPE];
    assert MakeWindow(o, n.partitionKeys, n.sortingKeys, n.sortingOrders, ["r"], n.functions, n.inputsSorted, n.followedTopNum,
                      inputs[0]) == Success(n);
  }

  lemma JoinNodeBuilt<E, J>(o: Exprs<E, J>, numberType: Type, jt: JoinType, l: E, r: E, cache: HashTableCache)
    requires jt.Inner? || jt.NullAwareAnti?
    requires o.fieldName(l) == Some("a") && o.fieldName(r) == Some("b") && o.typeOf(l) == o.typeOf(r) == BIGINT_TYPE
    ensures NodeBuilt(o, numberType, Join(jt, l, r, cache).node, [INPUT_A, INPUT_B])
  {
    assert FieldNames(o, [l]) == ["a"] && FieldNames(o, [r]) == ["b"];
    assert "a" in Columns(INPUT_A) && "b" in Columns(INPUT_B) && "a" !in Columns(INPUT_B) && "b" !in Columns(INPUT_A);
  }

  lemma WindowOverBuilt<E, J>(o: Exprs<E, J>, numberType: Type, call: E, topNum: int)
    requires o.isCall(call) && o.typeOf(call) == BIGINT_TYPE
    ensures Built(o, numberType, WindowOver(call, topNum))
  {
    assert OutputTypes(o, WindowOver(call, topNum).sources) == [INPUT_A];
    WindowNodeBuilt(o, numberType, call, topNum);
  }

  lemma JoinBuilt<E, J>(o: Exprs<E, J>, numberType: Type, jt: JoinType, l: E, r: E, cache: HashTableCache)
    requires jt.Inner? || jt.NullAwareAnti?
    requires o.fieldName(l) == Some("a") && o.fieldName(r) == Some("b") && o.typeOf(l) == o.typeOf(r) == BIGINT_TYPE
    ensures Built(o, numberType, Join(jt, l, r, cache))
  {
    var sources := Join(jt, l, r, cache).sources;
    assert OutputTypes(o, sources[1..]) == [INPUT_B];
    assert OutputTypes(o, sources) == [INPUT_A, INPUT_B];
    JoinNodeBuilt(o, numberType, jt, l, r, cache);
  }

  /** The number of the top-n that follows a window is lost. */
  lemma TopNumIsLost<E, J>(o: Exprs<E, J>, numberType: Type, call: E, topNum: int)
    requires o.isCall(call) && o.typeOf(call) == BIGINT_TYPE && o.readBare(o.write(call)) == Success(call)
    ensures Built(o, numberType, WindowOver(call, topNum)) && Serialize(o, WindowOver(call, topNum)).Success?
    ensures Create(o, numberType, Serialize(o, WindowOver(call, topNum)).value) == Success(WindowOver(call, 0))
  {
    var p := WindowOver(call, topNum);
    WindowOverBuilt(o, numberType, call, topNum);
    assert FunctionKept(o, p.node.functions[0]);
    CreateAfterSerialize(o, numberType, p);
    assert BackAll(o, []) == [];
    assert BackFunctions(o, p.node.functions) == p.node.functions;
    assert BackSources(o, p.sources) == p.sources;
  }

  lemma JoinBack<E, J>(o: Exprs<E, J>, l: E, r: E, cache: HashTableCache)
    requires o.read(o.write(l)) == Success(l) && o.read(o.write(r)) == Success(r)
    ensures ExprsKept(o, Join(Inner, l, r, cache))
    ensures Back(o, Join(Inner, l, r, cache)) == Join(Inner, l, r, NO_CACHE)
  {
    var p := Join(Inner, l, r, cache);
    assert BackAll(o, [l]) == [l] && BackAll(o, [r]) == [r];
    assert BackSources(o, p.sources) == p.sources;
  }

  /** The settings of the hash table cache and the reusable table are lost. */
  lemma CacheIsLost<E, J>(o: Exprs<E, J>, numberType: Type, l: E, r: E, cache: HashTableCache)
    requires o.fieldName(l) == Some("a") && o.fieldName(r) == Some("b") && o.typeOf(l) == o.typeOf(r) == BIGINT_TYPE
    requires o.read(o.write(l)) == Success(l) && o.read(o.write(r)) == Success(r)
    ensures Built(o, numberType, Join(Inner, l, r, cache)) && Serialize(o, Join(Inner, l, r, cache)).Success?
    ensures Create(o, numberType, Serialize(o, Join(Inner, l, r, cache)).value) == Success(Join(Inner, l, r, NO_CACHE))
  {
    JoinBuilt(o, numberType, Inner, l, r, cache);
    JoinBack(o, l, r, cache);
    CreateAfterSerialize(o, numberType, Join(Inner, l, r, cache));
  }

  /** The deprecated null-aware anti join can be built but not serialised. */
  lemma NullAwareAntiCannotBeWritten<E, J>(o: Exprs<E, J>, numberType: Type, l: E, r: E)
    requires o.fieldName(l) == Some("a") && o.fieldName(r) == Some("b") && o.typeOf(l) == o.typeOf(r) == BIGINT_TYPE
    ensures Built(o, numberType, Join(NullAwareAnti, l, r, NO_CACHE))
    ensures Serialize(o, Join(NullAwareAnti, l, r, NO_CACHE)).Failure?
  {
    JoinBuilt(o, numberType, NullAwareAnti, l, r, NO_CACHE);
    SerializesIffNamed(o, Join(NullAwareAnti, l, r, NO_CACHE));
  }
}
