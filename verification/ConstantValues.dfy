/** Constant vectors in any encoding, the plain values they decode to, and the bit-exact equality and
    hash that expression deduplication uses (bolt/core/Expressions.cpp, anonymous namespace). */
module ConstantValues {
  import opened Types

  /** One position of a leaf vector. `Word` carries the exact bits of the stored value. */
  datatype Cell = NullCell | Word(bits: nat)

  /** A vector; `addr` is the object's address, so pointer comparison is comparison of `addr`.
      A `None` child is a null `VectorPtr`. */
  datatype Vec =
    | Flat(addr: nat, typ: Type, cells: seq<Cell>)
    | ConstantScalar(addr: nat, typ: Type, cell: Cell)
    | ConstantOf(addr: nat, index: nat, base: Vec)
    | Dictionary(addr: nat, nulls: seq<bool>, indices: seq<nat>, base: Vec)
    | RowVec(addr: nat, typ: Type, nulls: seq<bool>, children: seq<Option<Vec>>)
    | ArrayVec(addr: nat, typ: Type, nulls: seq<bool>, offsets: seq<nat>, sizes: seq<nat>, elements: Option<Vec>)
    | MapVec(addr: nat, typ: Type, nulls: seq<bool>, offsets: seq<nat>, sizes: seq<nat>,
             keys: Option<Vec>, values: Option<Vec>)

  function TypeOf(v: Vec): Type {
    match v
    case Flat(_, t, _) => t
    case ConstantScalar(_, t, _) => t
    case ConstantOf(_, _, b) => TypeOf(b)
    case Dictionary(_, _, _, b) => TypeOf(b)
    case RowVec(_, t, _, _) => t
    case ArrayVec(_, t, _, _, _, _) => t
    case MapVec(_, t, _, _, _, _, _) => t
  }

  /** Position `i` and every position reachable from it exist. */
  predicate InRange(v: Vec, i: nat) {
    match v
    case Flat(_, _, cells) => i < |cells|
    case ConstantScalar(_, _, _) => true
    case ConstantOf(_, index, b) => InRange(b, index)
    case Dictionary(_, nulls, indices, b) =>
      i < |nulls| == |indices| && (!nulls[i] ==> InRange(b, indices[i]))
    case RowVec(_, _, nulls, cs) =>
      && i < |nulls|
      && (!nulls[i] ==> forall k | 0 <= k < |cs| && cs[k].Some? :: InRange(cs[k].value, i))
    case ArrayVec(_, _, nulls, offsets, sizes, e) =>
      && i < |nulls| == |offsets| == |sizes|
      && (!nulls[i] && e.Some? ==>
            forall k | offsets[i] <= k < offsets[i] + sizes[i] :: InRange(e.value, k))
    case MapVec(_, _, nulls, offsets, sizes, ks, vs) =>
      && i < |nulls| == |offsets| == |sizes|
      && (!nulls[i] && ks.Some? ==>
            forall k | offsets[i] <= k < offsets[i] + sizes[i] :: InRange(ks.value, k))
      && (!nulls[i] && vs.Some? ==>
            forall k | offsets[i] <= k < offsets[i] + sizes[i] :: InRange(vs.value, k))
  }

  predicate Leaf(t: Type) {
    !t.Array? && !t.Map? && !t.Row?
  }

  /** The vector tree is built for values of type `t`. Only arrays that are compared
      as leaves must have an elements vector. */
  predicate HasType(v: Vec, t: Type) {
    && Equivalent(TypeOf(v), t)
    && match v
       case Flat(_, _, _) => Leaf(t)
       case ConstantScalar(_, _, _) => Leaf(t)
       case ConstantOf(_, _, b) => HasType(b, t)
       case Dictionary(_, _, _, b) => HasType(b, t)
       case RowVec(_, _, _, cs) =>
         && t.Row? && |cs| == |t.children|
         && forall k | 0 <= k < |cs| && cs[k].Some? :: HasType(cs[k].value, t.children[k])
       case ArrayVec(_, _, _, _, _, e) =>
         && t.Array?
         && (t.element.Scalar? && !NeedsConstantValueHash(t.element) ==> e.Some?)
         && (e.Some? ==> HasType(e.value, t.element))
       case MapVec(_, _, _, _, _, ks, vs) =>
         && t.Map?
         && (ks.Some? ==> HasType(ks.value, t.key))
         && (vs.Some? ==> HasType(vs.value, t.item))
  }

  /** `v` can be read at `i` as a value of type `t`; a null pointer always can. */
  predicate Readable(v: Option<Vec>, i: nat, t: Type) {
    v.Some? ==> InRange(v.value, i) && HasType(v.value, t)
  }

  lemma {:induction false} HasTypeUpToEquivalence(v: Vec, t: Type, u: Type)
    requires HasType(v, t) && Equivalent(t, u)
    ensures HasType(v, u)
    decreases v
  {
    EquivalentTransitive(TypeOf(v), t, u);
    match v
    case ConstantOf(_, _, b) => HasTypeUpToEquivalence(b, t, u);
    case Dictionary(_, _, _, b) => HasTypeUpToEquivalence(b, t, u);
    case RowVec(_, _, _, cs) =>
      forall k | 0 <= k < |cs| && cs[k].Some? { HasTypeUpToEquivalence(cs[k].value, t.children[k], u.children[k]); }
    case ArrayVec(_, _, _, _, _, e) =>
      if e.Some? { HasTypeUpToEquivalence(e.value, t.element, u.element); }
    case MapVec(_, _, _, _, _, ks, vs) =>
      if ks.Some? { HasTypeUpToEquivalence(ks.value, t.key, u.key); }
      if vs.Some? { HasTypeUpToEquivalence(vs.value, t.item, u.item); }
    case _ =>
  }

  // ----- the reference: plain values -----

  datatype Value =
    | Missing
    | Null
    | Bits(bits: nat)
    | Record(fields: seq<Value>)
    | List(items: seq<Value>)
    | Entries(entryKeys: seq<Value>, entryValues: seq<Value>)

  function CellValue(c: Cell): Value {
    if c.NullCell? then Null else Bits(c.bits)
  }

  function Decode(v: Vec, i: nat): Value
    requires InRange(v, i)
  {
    match v
    case Flat(_, _, cells) => CellValue(cells[i])
    case ConstantScalar(_, _, c) => CellValue(c)
    case ConstantOf(_, index, b) => Decode(b, index)
    case Dictionary(_, nulls, indices, b) => if nulls[i] then Null else Decode(b, indices[i])
    case RowVec(_, _, nulls, cs) =>
      if nulls[i] then Null
      else Record(seq(|cs|, k requires 0 <= k < |cs| =>
                    if cs[k].None? then Missing else Decode(cs[k].value, i)))
    case ArrayVec(_, _, nulls, offsets, sizes, e) =>
      if nulls[i] then Null
      else List(seq(sizes[i], k requires 0 <= k < sizes[i] =>
                  if e.None? then Missing else Decode(e.value, offsets[i] + k)))
    case MapVec(_, _, nulls, offsets, sizes, ks, vs) =>
      if nulls[i] then Null
      else Entries(
             seq(sizes[i], k requires 0 <= k < sizes[i] =>
               if ks.None? then Missing else Decode(ks.value, offsets[i] + k)),
             seq(sizes[i], k requires 0 <= k < sizes[i] =>
               if vs.None? then Missing else Decode(vs.value, offsets[i] + k)))
  }

  function DecodePtr(v: Option<Vec>, i: nat): Value
    requires v.Some? ==> InRange(v.value, i)
  {
    if v.None? then Missing else Decode(v.value, i)
  }

  /** The values of `size` consecutive positions. */
  function DecodeRange(v: Option<Vec>, offset: nat, size: nat): (vs: seq<Value>)
    requires v.Some? ==> forall k | offset <= k < offset + size :: InRange(v.value, k)
    ensures |vs| == size
    ensures forall k | 0 <= k < size :: vs[k] == DecodePtr(v, offset + k)
  {
    seq(size, k requires 0 <= k < size => DecodePtr(v, offset + k))
  }

  // ----- the accessors of the vector classes -----

  predicate IsNullAt(v: Vec, i: nat)
    requires InRange(v, i)
  {
    match v
    case Flat(_, _, cells) => cells[i].NullCell?
    case ConstantScalar(_, _, c) => c.NullCell?
    case ConstantOf(_, index, b) => IsNullAt(b, index)
    case Dictionary(_, nulls, indices, b) => nulls[i] || IsNullAt(b, indices[i])
    case RowVec(_, _, nulls, _) => nulls[i]
    case ArrayVec(_, _, nulls, _, _, _) => nulls[i]
    case MapVec(_, _, nulls, _, _, _, _) => nulls[i]
  }

  function WrappedVector(v: Vec): (w: Vec)
    ensures !w.ConstantOf? && !w.Dictionary?
    ensures w == v || w < v
    ensures forall t :: HasType(v, t) ==> HasType(w, t)
  {
    match v
    case ConstantOf(_, _, b) => WrappedVector(b)
    case Dictionary(_, _, _, b) => WrappedVector(b)
    case _ => v
  }

  function WrappedIndex(v: Vec, i: nat): (j: nat)
    requires InRange(v, i) && !IsNullAt(v, i)
    ensures InRange(WrappedVector(v), j) && !IsNullAt(WrappedVector(v), j)
    ensures Decode(WrappedVector(v), j) == Decode(v, i)
  {
    match v
    case ConstantOf(_, index, b) => WrappedIndex(b, index)
    case Dictionary(_, _, indices, b) => WrappedIndex(b, indices[i])
    case ConstantScalar(_, _, _) => 0
    case _ => i
  }

  /** The stored word at a non-null leaf position. */
  function WordAt(v: Vec, i: nat): nat
    requires v.Flat? || v.ConstantScalar?
    requires InRange(v, i) && !IsNullAt(v, i)
  {
    if v.Flat? then v.cells[i].bits else v.cell.bits
  }

  // ----- SQL equality, as BaseVector::equalValueAt has it -----

  const REAL_SIGN := 0x8000_0000
  const REAL_INFINITY := 0x7f80_0000
  const DOUBLE_SIGN := 0x8000_0000_0000_0000
  const DOUBLE_INFINITY := 0x7ff0_0000_0000_0000

  predicate SqlEqualFloat(a: nat, b: nat, sign: nat, infinity: nat)
    requires sign > 0
  {
    || a == b
    || (a % sign > infinity && b % sign > infinity)   // both NaN
    || (a % sign == 0 && b % sign == 0)               // zeros of either sign
  }

  predicate SqlEqualWords(k: TypeKind, a: nat, b: nat) {
    match k
    case REAL => SqlEqualFloat(a, b, REAL_SIGN, REAL_INFINITY)
    case DOUBLE => SqlEqualFloat(a, b, DOUBLE_SIGN, DOUBLE_INFINITY)
    case _ => a == b
  }

  /** equalValueAt with nulls as values, on vectors of leaf type. */
  predicate EqualLeafAt(l: Vec, li: nat, r: Vec, ri: nat, t: Type)
    requires Leaf(t) && HasType(l, t) && HasType(r, t) && InRange(l, li) && InRange(r, ri)
  {
    if IsNullAt(l, li) || IsNullAt(r, ri) then IsNullAt(l, li) == IsNullAt(r, ri)
    else SqlEqualWords(t.Kind(), WordAt(WrappedVector(l), WrappedIndex(l, li)), WordAt(WrappedVector(r), WrappedIndex(r, ri)))
  }

  /** `size` positions of `v` starting at `offset` can be read as values of type `t`. */
  predicate ReadableRange(v: Option<Vec>, offset: nat, size: nat, t: Type) {
    v.Some? ==>
      && HasType(v.value, t)
      && forall k | offset <= k < offset + size :: InRange(v.value, k)
  }

  /** The element loop of ArrayVector::compare, for leaf elements. */
  predicate EqualLeafRange(l: Vec, lo: nat, r: Vec, ro: nat, size: nat, t: Type)
    requires Leaf(t) && ReadableRange(Some(l), lo, size, t) && ReadableRange(Some(r), ro, size, t)
    decreases size
  {
    size == 0 || (EqualLeafAt(l, lo, r, ro, t) && EqualLeafRange(l, lo + 1, r, ro + 1, size - 1, t))
  }

  // ----- the functions of Expressions.cpp -----

  predicate NeedsConstantValueHash(t: Type) {
    match t
    case Scalar(k, _) => k == REAL || k == DOUBLE
    case Map(_, _) => true
    case Array(e) => NeedsConstantValueHash(e)
    case Row(_, cs) => exists i | 0 <= i < |cs| :: NeedsConstantValueHash(cs[i])
    case _ => false
  }

  /** The type and all types inside it that are reached through arrays and rows. */
  function Parts(t: Type): set<Type> {
    match t
    case Array(e) => {t} + Parts(e)
    case Row(_, cs) => {t} + set i, p | 0 <= i < |cs| && p in Parts(cs[i]) :: p
    case _ => {t}
  }

  predicate IsFloatOrMap(t: Type) {
    t.Map? || t.Kind() == REAL || t.Kind() == DOUBLE
  }

  /** The constant hash is needed exactly where a floating-point number or a map is inside. */
  lemma {:induction false} NeedsHashIffFloatOrMapInside(t: Type)
    ensures NeedsConstantValueHash(t) <==> exists p <- Parts(t) :: IsFloatOrMap(p)
  {
    match t
    case Array(e) =>
      NeedsHashIffFloatOrMapInside(e);
      assert !IsFloatOrMap(t);
    case Row(_, cs) =>
      assert !IsFloatOrMap(t);
      forall i | 0 <= i < |cs| { NeedsHashIffFloatOrMapInside(cs[i]); }
      if NeedsConstantValueHash(t) {
        var i :| 0 <= i < |cs| && NeedsConstantValueHash(cs[i]);
        var p :| p in Parts(cs[i]) && IsFloatOrMap(p);
        assert p in Parts(t);
      }
      if p :| p in Parts(t) && IsFloatOrMap(p) {
        var i :| 0 <= i < |cs| && p in Parts(cs[i]);
        assert NeedsConstantValueHash(cs[i]);
      }
    case Map(_, _) => assert t in Parts(t) && IsFloatOrMap(t);
    case _ =>
      assert t in Parts(t) && (NeedsConstantValueHash(t) <==> IsFloatOrMap(t));
      assert forall p <- Parts(t) :: p == t;
  }

  predicate SamePointer(l: Option<Vec>, r: Option<Vec>) {
    match (l, r)
    case (None, None) => true
    case (Some(a), Some(b)) => a.addr == b.addr
    case _ => false
  }

  /** equalConstantValues; `t` is the common type of both sides. */
  predicate EqualConstantValues(l: Option<Vec>, li: nat, r: Option<Vec>, ri: nat, t: Type)
    requires Readable(l, li, t) && Readable(r, ri, t)
    decreases l, 0
  {
    if SamePointer(l, r) && li == ri then true
    else if l.None? || r.None? then SamePointer(l, r)
    else if IsNullAt(l.value, li) || IsNullAt(r.value, ri) then
      IsNullAt(l.value, li) == IsNullAt(r.value, ri)
    else
      EqualWrapped(WrappedVector(l.value), WrappedIndex(l.value, li),
                   WrappedVector(r.value), WrappedIndex(r.value, ri), t)
  }

  /** The switch of equalConstantValues over two innermost, non-null positions. */
  predicate EqualWrapped(a: Vec, i: nat, b: Vec, j: nat, t: Type)
    requires !a.ConstantOf? && !a.Dictionary? && !b.ConstantOf? && !b.Dictionary?
    requires HasType(a, t) && InRange(a, i) && !IsNullAt(a, i)
    requires HasType(b, t) && InRange(b, j) && !IsNullAt(b, j)
    decreases a, 2
  {
    match t
    case Row(_, ts) =>
      && |a.children| == |b.children|
      && forall k | 0 <= k < |a.children| :: EqualConstantValues(a.children[k], i, b.children[k], j, ts[k])
    case Array(e) => a.sizes[i] == b.sizes[j] && EqualItems(a.elements, a.offsets[i], b.elements, b.offsets[j], a.sizes[i], e)
    case Map(kt, vt) =>
      && a.sizes[i] == b.sizes[j]
      && EqualElements(a.keys, a.offsets[i], b.keys, b.offsets[j], a.sizes[i], kt)
      && EqualElements(a.values, a.offsets[i], b.values, b.offsets[j], a.sizes[i], vt)
    case Scalar(kind, _) =>
      if kind == REAL || kind == DOUBLE then WordAt(a, i) == WordAt(b, j)
      else EqualLeafAt(a, i, b, j, t)
    case _ => EqualLeafAt(a, i, b, j, t)
  }

  /** The items of two arrays, with the shortcut for leaf elements. */
  predicate EqualItems(l: Option<Vec>, lo: nat, r: Option<Vec>, ro: nat, size: nat, t: Type)
    requires ReadableRange(l, lo, size, t) && ReadableRange(r, ro, size, t)
    requires t.Scalar? && !NeedsConstantValueHash(t) ==> l.Some? && r.Some?
    decreases l, 2
  {
    if t.Scalar? && !NeedsConstantValueHash(t) then EqualLeafRange(l.value, lo, r.value, ro, size, t)
    else EqualElements(l, lo, r, ro, size, t)
  }

  predicate EqualElements(l: Option<Vec>, lo: nat, r: Option<Vec>, ro: nat, size: nat, t: Type)
    requires ReadableRange(l, lo, size, t) && ReadableRange(r, ro, size, t)
    decreases l, 1, size
  {
    size == 0 || (EqualConstantValues(l, lo, r, ro, t) && EqualElements(l, lo + 1, r, ro + 1, size - 1, t))
  }

  /** `x` is `v` or one of the vectors below it. */
  predicate Contains(v: Vec, x: Vec) {
    || v == x
    || match v
       case ConstantOf(_, _, b) => Contains(b, x)
       case Dictionary(_, _, _, b) => Contains(b, x)
       case RowVec(_, _, _, cs) => exists k | 0 <= k < |cs| :: cs[k].Some? && Contains(cs[k].value, x)
       case ArrayVec(_, _, _, _, _, e) => e.Some? && Contains(e.value, x)
       case MapVec(_, _, _, _, _, ks, vs) =>
         (ks.Some? && Contains(ks.value, x)) || (vs.Some? && Contains(vs.value, x))
       case _ => false
  }

  predicate Reaches(l: Option<Vec>, r: Option<Vec>, x: Vec) {
    (l.Some? && Contains(l.value, x)) || (r.Some? && Contains(r.value, x))
  }

  /** Two vectors at one address are one vector. */
  ghost predicate Coherent(l: Option<Vec>, r: Option<Vec>) {
    forall x, y :: Reaches(l, r, x) && Reaches(l, r, y) && x.addr == y.addr ==> x == y
  }

  lemma WrappedContained(v: Vec, x: Vec)
    ensures Contains(WrappedVector(v), x) ==> Contains(v, x)
  {
    match v
    case ConstantOf(_, _, b) => WrappedContained(b, x);
    case Dictionary(_, _, _, b) => WrappedContained(b, x);
    case _ =>
  }

  lemma {:induction false} EqualLeafIsIdentity(l: Vec, li: nat, r: Vec, ri: nat, t: Type)
    requires Leaf(t) && !NeedsConstantValueHash(t)
    requires HasType(l, t) && HasType(r, t) && InRange(l, li) && InRange(r, ri)
    ensures EqualLeafAt(l, li, r, ri, t) <==> Decode(l, li) == Decode(r, ri)
  {
    NullDecodes(l, li);
    NullDecodes(r, ri);
  }

  /** The number that a float word stands for: zeros of either sign are one number, and so are all NaNs. */
  datatype Number = NotANumber | Signed(negative: bool, magnitude: nat)

  function NumberOf(word: nat, sign: nat, infinity: nat): Number
    requires word < 2 * sign
  {
    var magnitude := if word < sign then word else word - sign;
    if magnitude > infinity then NotANumber else Signed(word >= sign && magnitude > 0, magnitude)
  }

  lemma MagnitudeOf(word: nat, sign: nat)
    requires word < 2 * sign
    ensures word % sign == if word < sign then word else word - sign
  {
    if word >= sign {
      assert word == sign * 1 + (word - sign);
    }
  }

  /** SQL equality of floats is identity of the numbers. */
  lemma SqlEqualIffSameNumber(a: nat, b: nat)
    ensures a < 2 * REAL_SIGN && b < 2 * REAL_SIGN ==>
              (SqlEqualWords(REAL, a, b) <==> NumberOf(a, REAL_SIGN, REAL_INFINITY) == NumberOf(b, REAL_SIGN, REAL_INFINITY))
    ensures a < 2 * DOUBLE_SIGN && b < 2 * DOUBLE_SIGN ==>
              (SqlEqualWords(DOUBLE, a, b) <==> NumberOf(a, DOUBLE_SIGN, DOUBLE_INFINITY) == NumberOf(b, DOUBLE_SIGN, DOUBLE_INFINITY))
  {
    if a < 2 * REAL_SIGN && b < 2 * REAL_SIGN {
      MagnitudeOf(a, REAL_SIGN);
      MagnitudeOf(b, REAL_SIGN);
    }
    if a < 2 * DOUBLE_SIGN && b < 2 * DOUBLE_SIGN {
      MagnitudeOf(a, DOUBLE_SIGN);
      MagnitudeOf(b, DOUBLE_SIGN);
    }
  }

  /** SQL equality is not identity on floating point: zeros of either sign are equal, and so are all NaNs. */
  lemma SqlEqualityIgnoresBits(a: nat, b: nat)
    requires a % REAL_SIGN == b % REAL_SIGN == 0 || (a % REAL_SIGN > REAL_INFINITY && b % REAL_SIGN > REAL_INFINITY)
    ensures var t := Scalar(REAL, []);
            var l, r := Flat(0, t, [Word(a)]), Flat(1, t, [Word(b)]);
            EqualLeafAt(l, 0, r, 0, t) && (Decode(l, 0) == Decode(r, 0) <==> a == b)
  {}

  lemma NullDecodes(v: Vec, i: nat)
    requires InRange(v, i)
    ensures IsNullAt(v, i) <==> Decode(v, i) == Null
  {}

  lemma {:induction false} EqualLeafRangeIsIdentity(l: Vec, lo: nat, r: Vec, ro: nat, size: nat, t: Type)
    requires Leaf(t) && !NeedsConstantValueHash(t)
    requires ReadableRange(Some(l), lo, size, t) && ReadableRange(Some(r), ro, size, t)
    ensures EqualLeafRange(l, lo, r, ro, size, t) <==>
            DecodeRange(Some(l), lo, size) == DecodeRange(Some(r), ro, size)
    decreases size
  {
    if size > 0 {
      EqualLeafIsIdentity(l, lo, r, ro, t);
      EqualLeafRangeIsIdentity(l, lo + 1, r, ro + 1, size - 1, t);
      RangesEqualStep(Some(l), lo, Some(r), ro, size);
    }
  }

  lemma RangeStep(v: Option<Vec>, offset: nat, size: nat)
    requires size > 0 && (v.Some? ==> forall k | offset <= k < offset + size :: InRange(v.value, k))
    ensures DecodeRange(v, offset, size) == [DecodePtr(v, offset)] + DecodeRange(v, offset + 1, size - 1)
  {
    var rest := DecodeRange(v, offset + 1, size - 1);
    forall k | 0 < k < size
      ensures DecodeRange(v, offset, size)[k] == rest[k - 1]
    {
      assert rest[k - 1] == DecodePtr(v, offset + 1 + (k - 1));
    }
  }

  lemma RangesEqualStep(l: Option<Vec>, lo: nat, r: Option<Vec>, ro: nat, size: nat)
    requires size > 0
    requires l.Some? ==> forall k | lo <= k < lo + size :: InRange(l.value, k)
    requires r.Some? ==> forall k | ro <= k < ro + size :: InRange(r.value, k)
    ensures DecodeRange(l, lo, size) == DecodeRange(r, ro, size) <==>
            && DecodePtr(l, lo) == DecodePtr(r, ro)
            && DecodeRange(l, lo + 1, size - 1) == DecodeRange(r, ro + 1, size - 1)
  {
    RangeStep(l, lo, size);
    RangeStep(r, ro, size);
    assert DecodeRange(l, lo, size)[1..] == DecodeRange(l, lo + 1, size - 1);
    assert DecodeRange(r, ro, size)[1..] == DecodeRange(r, ro + 1, size - 1);
  }

  lemma CoherentBelow(l: Option<Vec>, r: Option<Vec>, l': Option<Vec>, r': Option<Vec>)
    requires Coherent(l, r)
    requires forall x :: l'.Some? && Contains(l'.value, x) ==> l.Some? && Contains(l.value, x)
    requires forall x :: r'.Some? && Contains(r'.value, x) ==> r.Some? && Contains(r.value, x)
    ensures Coherent(l', r')
  {
    forall x, y | Reaches(l', r', x) && Reaches(l', r', y) && x.addr == y.addr
      ensures x == y
    {
      assert Reaches(l, r, x) && Reaches(l, r, y);
    }
  }

  /** Bit-exact equality of constants is identity of the decoded values, in every encoding. */
  lemma {:induction false} EqualConstantValuesIffSameValue(l: Option<Vec>, li: nat, r: Option<Vec>, ri: nat, t: Type)
    requires Readable(l, li, t) && Readable(r, ri, t) && Coherent(l, r)
    ensures EqualConstantValues(l, li, r, ri, t) <==> DecodePtr(l, li) == DecodePtr(r, ri)
    decreases l, 0
  {
    if l.Some? && r.Some? {
      assert Reaches(l, r, l.value) && Reaches(l, r, r.value);
      NullDecodes(l.value, li);
      NullDecodes(r.value, ri);
      if !IsNullAt(l.value, li) && !IsNullAt(r.value, ri) {
        var a, b := WrappedVector(l.value), WrappedVector(r.value);
        forall x ensures Contains(a, x) ==> Contains(l.value, x) { WrappedContained(l.value, x); }
        forall x ensures Contains(b, x) ==> Contains(r.value, x) { WrappedContained(r.value, x); }
        CoherentBelow(l, r, Some(a), Some(b));
        EqualWrappedIffSameValue(a, WrappedIndex(l.value, li), b, WrappedIndex(r.value, ri), t);
      }
    } else if l.Some? {
      DecodedNeverMissing(l.value, li);
    } else if r.Some? {
      DecodedNeverMissing(r.value, ri);
    }
  }

  lemma DecodedNeverMissing(v: Vec, i: nat)
    requires InRange(v, i)
    ensures Decode(v, i) != Missing
  {}

  lemma {:induction false} EqualWrappedIffSameValue(a: Vec, i: nat, b: Vec, j: nat, t: Type)
    requires !a.ConstantOf? && !a.Dictionary? && !b.ConstantOf? && !b.Dictionary?
    requires HasType(a, t) && InRange(a, i) && !IsNullAt(a, i)
    requires HasType(b, t) && InRange(b, j) && !IsNullAt(b, j)
    requires Coherent(Some(a), Some(b))
    ensures EqualWrapped(a, i, b, j, t) <==> Decode(a, i) == Decode(b, j)
    decreases a, 3
  {
    match t
    case Row(_, ts) => EqualRowsIffSameValue(a, i, b, j, t);
    case Array(e) => EqualArraysIffSameValue(a, i, b, j, t);
    case Map(kt, vt) => EqualMapsIffSameValue(a, i, b, j, t);
    case _ =>
      if !NeedsConstantValueHash(t) {
        EqualLeafIsIdentity(a, i, b, j, t);
      }
  }

  lemma {:induction false} EqualRowsIffSameValue(a: Vec, i: nat, b: Vec, j: nat, t: Type)
    requires a.RowVec? && b.RowVec? && t.Row?
    requires HasType(a, t) && InRange(a, i) && !a.nulls[i]
    requires HasType(b, t) && InRange(b, j) && !b.nulls[j]
    requires Coherent(Some(a), Some(b))
    ensures EqualWrapped(a, i, b, j, t) <==> Decode(a, i) == Decode(b, j)
    decreases a, 2
  {
    var xs, ys := Decode(a, i).fields, Decode(b, j).fields;
    forall k | 0 <= k < |t.children|
      ensures EqualConstantValues(a.children[k], i, b.children[k], j, t.children[k]) <==> xs[k] == ys[k]
    {
      CoherentBelow(Some(a), Some(b), a.children[k], b.children[k]);
      EqualConstantValuesIffSameValue(a.children[k], i, b.children[k], j, t.children[k]);
    }
    assert xs == ys <==> forall k | 0 <= k < |xs| :: xs[k] == ys[k];
  }

  lemma {:induction false} EqualArraysIffSameValue(a: Vec, i: nat, b: Vec, j: nat, t: Type)
    requires a.ArrayVec? && b.ArrayVec? && t.Array?
    requires HasType(a, t) && InRange(a, i) && !a.nulls[i]
    requires HasType(b, t) && InRange(b, j) && !b.nulls[j]
    requires Coherent(Some(a), Some(b))
    ensures EqualWrapped(a, i, b, j, t) <==> Decode(a, i) == Decode(b, j)
    decreases a, 2
  {
    assert Decode(a, i).items == DecodeRange(a.elements, a.offsets[i], a.sizes[i]);
    assert Decode(b, j).items == DecodeRange(b.elements, b.offsets[j], b.sizes[j]);
    if a.sizes[i] == b.sizes[j] {
      if t.element.Scalar? && !NeedsConstantValueHash(t.element) {
        EqualLeafRangeIsIdentity(a.elements.value, a.offsets[i], b.elements.value, b.offsets[j], a.sizes[i], t.element);
      } else {
        CoherentBelow(Some(a), Some(b), a.elements, b.elements);
        EqualElementsIffSameValues(a.elements, a.offsets[i], b.elements, b.offsets[j], a.sizes[i], t.element);
      }
    }
  }

  lemma {:induction false} EqualMapsIffSameValue(a: Vec, i: nat, b: Vec, j: nat, t: Type)
    requires a.MapVec? && b.MapVec? && t.Map?
    requires HasType(a, t) && InRange(a, i) && !a.nulls[i]
    requires HasType(b, t) && InRange(b, j) && !b.nulls[j]
    requires Coherent(Some(a), Some(b))
    ensures EqualWrapped(a, i, b, j, t) <==> Decode(a, i) == Decode(b, j)
    decreases a, 2
  {
    assert Decode(a, i).entryKeys == DecodeRange(a.keys, a.offsets[i], a.sizes[i]);
    assert Decode(b, j).entryKeys == DecodeRange(b.keys, b.offsets[j], b.sizes[j]);
    assert Decode(a, i).entryValues == DecodeRange(a.values, a.offsets[i], a.sizes[i]);
    assert Decode(b, j).entryValues == DecodeRange(b.values, b.offsets[j], b.sizes[j]);
    if a.sizes[i] == b.sizes[j] {
      CoherentBelow(Some(a), Some(b), a.keys, b.keys);
      EqualElementsIffSameValues(a.keys, a.offsets[i], b.keys, b.offsets[j], a.sizes[i], t.key);
      CoherentBelow(Some(a), Some(b), a.values, b.values);
      EqualElementsIffSameValues(a.values, a.offsets[i], b.values, b.offsets[j], a.sizes[i], t.item);
    }
  }

  lemma {:induction false} EqualElementsIffSameValues(l: Option<Vec>, lo: nat, r: Option<Vec>, ro: nat, size: nat, t: Type)
    requires ReadableRange(l, lo, size, t) && ReadableRange(r, ro, size, t) && Coherent(l, r)
    ensures EqualElements(l, lo, r, ro, size, t) <==> DecodeRange(l, lo, size) == DecodeRange(r, ro, size)
    decreases l, 1, size
  {
    if size > 0 {
      assert DecodePtr(l, lo) == DecodePtr(r, ro) <==> EqualConstantValues(l, lo, r, ro, t) by {
        EqualConstantValuesIffSameValue(l, lo, r, ro, t);
      }
      EqualElementsIffSameValues(l, lo + 1, r, ro + 1, size - 1, t);
      RangesEqualStep(l, lo, r, ro, size);
    }
  }
}
