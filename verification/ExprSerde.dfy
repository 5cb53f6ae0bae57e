/** serialize and create of expressions (bolt/core/Expressions.cpp:39-52, 248-476). */
module ExprSerde {
  import opened Types
  import opened Expressions
  import CV = ConstantValues

  /** The keys of the objects written by serialize. */
  datatype Key =
    | NameKey | TypeKey | InputsKey | FunctionNameKey | FieldNameKey | FieldIndexKey
    | SignatureKey | BodyKey | NullOnFailureKey | ValueKey | ValueVectorKey

  /** The class names the deserialization registry knows, and the others. */
  datatype ClassName =
    | InputTypedExpr | ConstantTypedExpr | CallTypedExpr | FieldAccessTypedExpr
    | DereferenceTypedExpr | ConcatTypedExpr | LambdaTypedExpr | CastTypedExpr
    | Unregistered(text: string)

  /** folly::dynamic. The encodings of types and of literals are leaves. */
  datatype Json =
    | JBool(flag: bool)
    | JInt(number: int)
    | JString(str: string)
    | JClass(name: ClassName)
    | JType(typ: Type)
    | JVariant(variant: Variant)
    | JArray(items: seq<Json>)
    | JObject(fields: map<Key, Json>)

  /** saveVector and restoreVector around Base64. */
  datatype Codec = Codec(save: CV.Vec -> string, restore: string -> Option<CV.Vec>)

  /** The vector comes back, with the type it had. */
  predicate ComesBack(c: Codec, v: CV.Vec) {
    var w := c.restore(c.save(v));
    w.Some? && CV.TypeOf(w.value) == CV.TypeOf(v)
  }

  // ----- literals -----

  const TWO63 := 0x8000_0000_0000_0000
  const TWO64 := 0x1_0000_0000_0000_0000

  /** The int64_t that a folly::dynamic keeps of an integer. */
  function ToInt64(x: int): (r: int)
    ensures r == x <==> -TWO63 <= x < TWO63
  {
    (x + TWO63) % TWO64 - TWO63
  }

  /** The literal that variant::create reads back from variant::serialize. */
  function StoredVariant(v: Variant): Variant {
    if v.OtherVariant? && v.otherKind == HUGEINT then v.(payload := ToInt64(v.payload)) else v
  }

  /** A 128-bit literal survives only inside the 64-bit range. */
  predicate LiteralFits(v: Variant) {
    v.OtherVariant? && v.otherKind == HUGEINT ==> -TWO63 <= v.payload < TWO63
  }

  // ----- serialize -----

  function SerializeBase(name: ClassName, t: Type, inputs: seq<Json>): map<Key, Json> {
    var base := map[NameKey := JClass(name), TypeKey := JType(t)];
    if inputs == [] then base else base[InputsKey := JArray(inputs)]
  }

  function SerializeAll(c: Codec, es: seq<Expr>): (js: seq<Json>)
    ensures |js| == |es|
    ensures forall i | 0 <= i < |es| :: js[i] == Serialize(c, es[i])
    decreases es
  {
    if es == [] then [] else [Serialize(c, es[0])] + SerializeAll(c, es[1..])
  }

  function Serialize(c: Codec, e: Expr): Json
    decreases e
  {
    match e
    case Input(t) => JObject(SerializeBase(InputTypedExpr, t, []))
    case Constant(t, ScalarPayload(v)) =>
      JObject(SerializeBase(ConstantTypedExpr, t, [])[ValueKey := JVariant(StoredVariant(v))])
    case Constant(t, VectorPayload(v)) =>
      JObject(SerializeBase(ConstantTypedExpr, t, [])[ValueVectorKey := JString(c.save(v))])
    case Call(t, n, es) =>
      JObject(SerializeBase(CallTypedExpr, t, SerializeAll(c, es))[FunctionNameKey := JString(n)])
    case Column(t, n) => JObject(SerializeBase(FieldAccessTypedExpr, t, [])[FieldNameKey := JString(n)])
    case FieldAccess(t, x, n) =>
      JObject(SerializeBase(FieldAccessTypedExpr, t, [Serialize(c, x)])[FieldNameKey := JString(n)])
    case Dereference(t, x, i) =>
      JObject(SerializeBase(DereferenceTypedExpr, t, [Serialize(c, x)])[FieldIndexKey := JInt(i)])
    case Concat(t, es) => JObject(SerializeBase(ConcatTypedExpr, t, SerializeAll(c, es)))
    case Lambda(ps, b) =>
      JObject(SerializeBase(LambdaTypedExpr, ExprType(e), [])[SignatureKey := JType(ps)][BodyKey := Serialize(c, b)])
    case Cast(t, x, f) => JObject(SerializeBase(CastTypedExpr, t, [Serialize(c, x)])[NullOnFailureKey := JBool(f)])
  }

  /** The loop of serializeBase over the inputs. */
  method SerializeInputs(c: Codec, es: seq<Expr>) returns (js: seq<Json>)
    ensures js == SerializeAll(c, es)
  {
    js := [];
    for i := 0 to |es|
      invariant |js| == i && forall k | 0 <= k < i :: js[k] == Serialize(c, es[k])
    {
      js := js + [Serialize(c, es[i])];
    }
  }

  // ----- create -----

  function AsClass(m: map<Key, Json>): Result<ClassName> {
    if NameKey in m && m[NameKey].JClass? then Success(m[NameKey].name) else Failure("expected a class name")
  }

  function AsString(m: map<Key, Json>, key: Key): Result<string> {
    if key in m && m[key].JString? then Success(m[key].str) else Failure("expected a string")
  }

  function AsType(m: map<Key, Json>, key: Key): Result<Type> {
    if key in m && m[key].JType? then Success(m[key].typ) else Failure("expected a type")
  }

  function DeserializeInputs(c: Codec, j: Json): Result<seq<Expr>>
    requires j.JObject?
    decreases j, 0
  {
    if InputsKey !in j.fields then Success([])
    else if !j.fields[InputsKey].JArray? then Failure("expected an array")
    else CreateAll(c, j.fields[InputsKey].items)
  }

  function CreateAll(c: Codec, js: seq<Json>): Result<seq<Expr>>
    decreases js
  {
    if js == [] then Success([])
    else
      match Create(c, js[0])
      case Failure(msg) => Failure(msg)
      case Success(e) =>
        match CreateAll(c, js[1..])
        case Failure(msg) => Failure(msg)
        case Success(es) => Success([e] + es)
  }

  /** ISerializable::deserialize: the registry sends the name to the class's create. */
  function Create(c: Codec, j: Json): Result<Expr>
    decreases j, 1
  {
    if !j.JObject? then Failure("expected an object")
    else
      match AsClass(j.fields)
      case Failure(msg) => Failure(msg)
      case Success(name) =>
        if name == LambdaTypedExpr then CreateLambda(c, j)
        else
          match AsType(j.fields, TypeKey)
          case Failure(msg) => Failure(msg)
          case Success(t) =>
            if name == InputTypedExpr then Success(Input(t))
            else if name == ConstantTypedExpr then CreateConstant(c, j.fields, t)
            else
              match DeserializeInputs(c, j)
              case Failure(msg) => Failure(msg)
              case Success(es) => CreateOver(name, j.fields, t, es)
  }

  function CreateLambda(c: Codec, j: Json): Result<Expr>
    requires j.JObject?
    decreases j, 0
  {
    match AsType(j.fields, SignatureKey)
    case Failure(msg) => Failure(msg)
    case Success(ps) =>
      if BodyKey !in j.fields then Failure("couldn't find key")
      else if !ps.Row? then Failure("expected a row type")
      else
        match Create(c, j.fields[BodyKey])
        case Failure(msg) => Failure(msg)
        case Success(b) => Success(Lambda(ps, b))
  }

  function CreateConstant(c: Codec, m: map<Key, Json>, t: Type): Result<Expr> {
    if ValueKey in m then
      if m[ValueKey].JVariant? then Success(Constant(t, ScalarPayload(m[ValueKey].variant))) else Failure("expected a variant")
    else
      match AsString(m, ValueVectorKey)
      case Failure(msg) => Failure(msg)
      case Success(s) =>
        match c.restore(s)
        case None => Failure("cannot restore the vector")
        case Some(v) => Success(Constant(CV.TypeOf(v), VectorPayload(v)))
  }

  /** create of the classes with inputs, once these are read. */
  function CreateOver(name: ClassName, m: map<Key, Json>, t: Type, es: seq<Expr>): Result<Expr> {
    if name == CallTypedExpr then
      match AsString(m, FunctionNameKey)
      case Failure(msg) => Failure(msg)
      case Success(n) => Success(Call(t, n, es))
    else if name == FieldAccessTypedExpr then
      match AsString(m, FieldNameKey)
      case Failure(msg) => Failure(msg)
      case Success(n) =>
        if |es| > 1 then Failure("at most one input")
        else Success(if es == [] then Column(t, n) else FieldAccess(t, es[0], n))
    else if name == DereferenceTypedExpr then
      if |es| != 1 then Failure("exactly one input")
      else if FieldIndexKey !in m || !m[FieldIndexKey].JInt? || m[FieldIndexKey].number < 0 then Failure("expected an index")
      else if es[0].Input? then Failure("dereference of a top level column")
      else Success(Dereference(t, es[0], m[FieldIndexKey].number))
    else if name == ConcatTypedExpr then
      if !t.Row? || |t.names| > |es| then Failure("expected a row type") else Success(Concat(ConcatType(t.names, es), es))
    else if name == CastTypedExpr then
      if |es| != 1 then Failure("exactly one input")
      else Success(Cast(t, es[0], NullOnFailureKey in m && m[NullOnFailureKey] == JBool(true)))
    else Failure("unknown class")
  }

  // ----- round trip -----

  /** A well-formed tree whose vector constants all come back. */
  predicate Restorable(c: Codec, e: Expr) {
    match e
    case Input(_) => true
    case Column(_, _) => true
    case Constant(t, ScalarPayload(_)) => true
    case Constant(t, VectorPayload(v)) => t == CV.TypeOf(v) && ComesBack(c, v)
    case Call(_, _, es) => forall i | 0 <= i < |es| :: Restorable(c, es[i])
    case FieldAccess(_, x, _) => Restorable(c, x)
    case Dereference(_, x, _) => Restorable(c, x) && !x.Input?
    case Concat(t, es) =>
      && (forall i | 0 <= i < |es| :: Restorable(c, es[i]))
      && t.Row? && |t.names| <= |es| && t == ConcatType(t.names, es)
    case Lambda(ps, b) => ps.Row? && Restorable(c, b)
    case Cast(_, x, _) => Restorable(c, x)
  }

  /** The tree that comes back: the same nodes over restored vectors and stored literals. */
  function Restored(c: Codec, e: Expr): (r: Expr)
    requires Restorable(c, e)
    ensures ExprType(r) == ExprType(e) && (r.Input? <==> e.Input?)
    decreases e
  {
    match e
    case Input(_) => e
    case Column(_, _) => e
    case Constant(t, ScalarPayload(v)) => Constant(t, ScalarPayload(StoredVariant(v)))
    case Constant(t, VectorPayload(v)) => Constant(t, VectorPayload(c.restore(c.save(v)).value))
    case Call(t, n, es) => Call(t, n, RestoredAll(c, es))
    case FieldAccess(t, x, n) => FieldAccess(t, Restored(c, x), n)
    case Dereference(t, x, i) => Dereference(t, Restored(c, x), i)
    case Concat(t, es) => Concat(t, RestoredAll(c, es))
    case Lambda(ps, b) => Lambda(ps, Restored(c, b))
    case Cast(t, x, f) => Cast(t, Restored(c, x), f)
  }

  function RestoredAll(c: Codec, es: seq<Expr>): (rs: seq<Expr>)
    requires forall i | 0 <= i < |es| :: Restorable(c, es[i])
    ensures |rs| == |es| && forall i | 0 <= i < |es| :: rs[i] == Restored(c, es[i])
    ensures forall i | 0 <= i < |es| :: ExprType(rs[i]) == ExprType(es[i])
    decreases es
  {
    if es == [] then [] else [Restored(c, es[0])] + RestoredAll(c, es[1..])
  }

  /** create of a node whose object extends serializeBase, once its inputs are known. */
  lemma CreateFromBase(c: Codec, name: ClassName, t: Type, js: seq<Json>, es: seq<Expr>, m: map<Key, Json>)
    requires name !in {LambdaTypedExpr, InputTypedExpr, ConstantTypedExpr}
    requires forall k | k in {NameKey, TypeKey, InputsKey} ::
               (k in m <==> k in SerializeBase(name, t, js)) && (k in m ==> m[k] == SerializeBase(name, t, js)[k])
    requires CreateAll(c, js) == Success(es)
    ensures Create(c, JObject(m)) == CreateOver(name, m, t, es)
  {
    assert NameKey in m && TypeKey in m && (InputsKey in m <==> js != []);
  }

  lemma CreateOne(c: Codec, j: Json, e: Expr)
    requires Create(c, j) == Success(e)
    ensures CreateAll(c, [j]) == Success([e])
  {
    var js := [j];
    assert js[1..] == [];
    assert CreateAll(c, js[1..]) == Success([]);
    assert [e] + [] == [e];
  }

  /** create undoes serialize on every well-formed tree, up to what the leaf encodings keep. */
  lemma {:induction false} CreateAfterSerialize(c: Codec, e: Expr)
    requires Restorable(c, e)
    ensures Create(c, Serialize(c, e)) == Success(Restored(c, e))
    decreases e
  {
    match e
    case Input(_) =>
    case Column(_, _) => CreateColumn(c, e);
    case Constant(_, _) =>
    case Call(_, _, es) => CreateAllAfterSerialize(c, es); CreateCall(c, e);
    case Concat(_, es) => CreateAllAfterSerialize(c, es); CreateConcat(c, e);
    case FieldAccess(_, x, _) => CreateAfterSerialize(c, x); CreateUnary(c, e, FieldAccessTypedExpr);
    case Dereference(_, x, _) => CreateAfterSerialize(c, x); CreateUnary(c, e, DereferenceTypedExpr);
    case Lambda(_, b) => CreateAfterSerialize(c, b);
    case Cast(_, x, _) => CreateAfterSerialize(c, x); CreateUnary(c, e, CastTypedExpr);
  }

  lemma CreateColumn(c: Codec, e: Expr)
    requires e.Column?
    ensures Create(c, Serialize(c, e)) == Success(e)
  {
    CreateFromBase(c, FieldAccessTypedExpr, e.typ, [], [], Serialize(c, e).fields);
  }

  lemma CreateCall(c: Codec, e: Expr)
    requires e.Call? && Restorable(c, e)
    requires CreateAll(c, SerializeAll(c, e.inputs)) == Success(RestoredAll(c, e.inputs))
    ensures Create(c, Serialize(c, e)) == Success(Restored(c, e))
  {
    CreateFromBase(c, CallTypedExpr, e.typ, SerializeAll(c, e.inputs), RestoredAll(c, e.inputs), Serialize(c, e).fields);
  }

  lemma CreateConcat(c: Codec, e: Expr)
    requires e.Concat? && Restorable(c, e)
    requires CreateAll(c, SerializeAll(c, e.inputs)) == Success(RestoredAll(c, e.inputs))
    ensures Create(c, Serialize(c, e)) == Success(Restored(c, e))
  {
    CreateFromBase(c, ConcatTypedExpr, e.typ, SerializeAll(c, e.inputs), RestoredAll(c, e.inputs), Serialize(c, e).fields);
    assert ConcatType(e.typ.names, RestoredAll(c, e.inputs)) == ConcatType(e.typ.names, e.inputs);
  }

  lemma CreateUnary(c: Codec, e: Expr, name: ClassName)
    requires (e.FieldAccess? && name == FieldAccessTypedExpr) || (e.Dereference? && name == DereferenceTypedExpr)
          || (e.Cast? && name == CastTypedExpr)
    requires Restorable(c, e) && Create(c, Serialize(c, e.input)) == Success(Restored(c, e.input))
    ensures Create(c, Serialize(c, e)) == Success(Restored(c, e))
  {
    CreateOne(c, Serialize(c, e.input), Restored(c, e.input));
    CreateFromBase(c, name, e.typ, [Serialize(c, e.input)], [Restored(c, e.input)], Serialize(c, e).fields);
  }

  lemma {:induction false} CreateAllAfterSerialize(c: Codec, es: seq<Expr>)
    requires forall i | 0 <= i < |es| :: Restorable(c, es[i])
    ensures CreateAll(c, SerializeAll(c, es)) == Success(RestoredAll(c, es))
    decreases es
  {
    if es != [] {
      CreateAfterSerialize(c, es[0]);
      CreateAllAfterSerialize(c, es[1..]);
    }
  }

  // ----- whatever object is read -----

  function NumInputs(e: Expr): nat {
    match e
    case Call(_, _, es) => |es|
    case Concat(_, es) => |es|
    case FieldAccess(_, _, _) => 1
    case Dereference(_, _, _) => 1
    case Cast(_, _, _) => 1
    case _ => 0
  }

  /** What create accepts, written by serialize or not, obeys the constructors' checks, and of the classes with inputs
      none of the inputs in the object is dropped. */
  lemma {:induction false} CreateObeysConstructors(c: Codec, j: Json)
    requires Create(c, j).Success?
    ensures WellFormed(Create(c, j).value)
    ensures var e := Create(c, j).value;
            !e.Input? && !e.Constant? && !e.Lambda? ==> NumInputs(e) == ItemCount(j)
    decreases j, 1
  {
    var name := AsClass(j.fields).value;
    if name == LambdaTypedExpr {
      CreateObeysConstructors(c, j.fields[BodyKey]);
    } else if name != InputTypedExpr && name != ConstantTypedExpr && InputsKey in j.fields {
      CreateAllObeysConstructors(c, j.fields[InputsKey].items);
    }
  }

  /** How many inputs an object lists. */
  function ItemCount(j: Json): nat {
    if j.JObject? && InputsKey in j.fields && j.fields[InputsKey].JArray? then |j.fields[InputsKey].items| else 0
  }

  lemma {:induction false} CreateAllObeysConstructors(c: Codec, js: seq<Json>)
    requires CreateAll(c, js).Success?
    ensures |CreateAll(c, js).value| == |js| && forall i | 0 <= i < |js| :: WellFormed(CreateAll(c, js).value[i])
    decreases js
  {
    if js != [] {
      CreateObeysConstructors(c, js[0]);
      CreateAllObeysConstructors(c, js[1..]);
    }
  }
}
