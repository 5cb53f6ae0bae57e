/** hashConstantValue (bolt/core/Expressions.cpp) depends only on the decoded value. */
module ConstantHash {
  import opened Types
  import opened ConstantValues

  /** The hash primitives: the null hash, bits::hashMix, folly::Hash on a word, and BaseVector::hashValueAt. */
  datatype Hashing = Hashing(
    nullHash: nat,
    mix: (nat, nat) -> nat,
    word: nat -> nat,
    valueAt: (Vec, nat) -> nat)

  /** Two readable positions of one type that decode to one value, none of it float or map. */
  ghost predicate SameValueHashInput(v: Vec, i: nat, w: Vec, j: nat, t: Type) {
    && !NeedsConstantValueHash(t)
    && HasType(v, t) && HasType(w, t) && InRange(v, i) && InRange(w, j)
    && Decode(v, i) == Decode(w, j)
  }

  /** What is taken from the vector library: hashValueAt does not see the encoding. */
  ghost predicate ValueHashContract(h: Hashing) {
    forall v, i, w, j, t :: SameValueHashInput(v, i, w, j, t) ==> h.valueAt(v, i) == h.valueAt(w, j)
  }

  function HashConstantValue(h: Hashing, v: Option<Vec>, i: nat, t: Type): nat
    requires Readable(v, i, t)
    decreases v, 0
  {
    if v.None? || IsNullAt(v.value, i) then h.nullHash
    else HashWrapped(h, WrappedVector(v.value), WrappedIndex(v.value, i), t)
  }

  /** The switch of hashConstantValue over an innermost, non-null position. */
  function HashWrapped(h: Hashing, a: Vec, i: nat, t: Type): nat
    requires !a.ConstantOf? && !a.Dictionary?
    requires HasType(a, t) && InRange(a, i) && !IsNullAt(a, i)
    decreases a, 3
  {
    match t
    case Row(_, ts) => HashFields(h, a, i, t, 0, h.mix(h.nullHash, |a.children|))
    case Array(e) => HashElements(h, a.elements, a.offsets[i], a.sizes[i], e, h.mix(h.nullHash, a.sizes[i]))
    case Map(kt, vt) =>
      var keyed := HashElements(h, a.keys, a.offsets[i], a.sizes[i], kt, h.mix(h.nullHash, a.sizes[i]));
      HashElements(h, a.values, a.offsets[i], a.sizes[i], vt, keyed)
    case Scalar(kind, _) => if kind == REAL || kind == DOUBLE then h.word(WordAt(a, i)) else h.valueAt(a, i)
    case _ => h.valueAt(a, i)
  }

  /** The hash of one field or element: hashValueAt where the type allows it. */
  function HashPart(h: Hashing, v: Option<Vec>, i: nat, t: Type): nat
    requires Readable(v, i, t)
    decreases v, 1
  {
    if v.Some? && !NeedsConstantValueHash(TypeOf(v.value)) then h.valueAt(v.value, i)
    else HashConstantValue(h, v, i, t)
  }

  /** The field loop from child `k` on, with running value `hash`. */
  function HashFields(h: Hashing, a: Vec, i: nat, t: Type, k: nat, hash: nat): nat
    requires a.RowVec? && t.Row? && HasType(a, t) && InRange(a, i) && !a.nulls[i] && k <= |a.children|
    decreases a, 2, |a.children| - k
  {
    if k == |a.children| then hash
    else HashFields(h, a, i, t, k + 1, h.mix(hash, HashPart(h, a.children[k], i, t.children[k])))
  }

  /** hashElements with running value `hash`. */
  function HashElements(h: Hashing, v: Option<Vec>, offset: nat, size: nat, t: Type, hash: nat): nat
    requires ReadableRange(v, offset, size, t)
    decreases v, 2, size
  {
    if size == 0 then hash
    else HashElements(h, v, offset + 1, size - 1, t, h.mix(hash, HashPart(h, v, offset, t)))
  }

  lemma {:induction false} NeedsHashUpToEquivalence(a: Type, b: Type)
    requires Equivalent(a, b)
    ensures NeedsConstantValueHash(a) <==> NeedsConstantValueHash(b)
  {
    match (a, b)
    case (Array(x), Array(y)) => NeedsHashUpToEquivalence(x, y);
    case (Row(_, cs), Row(_, ds)) =>
      forall i | 0 <= i < |cs| { NeedsHashUpToEquivalence(cs[i], ds[i]); }
    case _ =>
  }

  /** Equal decoded values have equal hashes, whatever the two encodings and field names are. */
  lemma {:induction false} HashDependsOnlyOnValue(
      h: Hashing, l: Option<Vec>, li: nat, t: Type, r: Option<Vec>, ri: nat, u: Type)
    requires ValueHashContract(h) && Equivalent(t, u)
    requires Readable(l, li, t) && Readable(r, ri, u) && DecodePtr(l, li) == DecodePtr(r, ri)
    ensures HashConstantValue(h, l, li, t) == HashConstantValue(h, r, ri, u)
    decreases l, 0
  {
    if l.Some? { DecodedNeverMissing(l.value, li); NullDecodes(l.value, li); }
    if r.Some? { DecodedNeverMissing(r.value, ri); NullDecodes(r.value, ri); }
    if l.Some? && !IsNullAt(l.value, li) {
      WrappedHashDependsOnlyOnValue(h, WrappedVector(l.value), WrappedIndex(l.value, li), t,
                                    WrappedVector(r.value), WrappedIndex(r.value, ri), u);
    }
  }

  lemma {:induction false} WrappedHashDependsOnlyOnValue(h: Hashing, a: Vec, i: nat, t: Type, b: Vec, j: nat, u: Type)
    requires ValueHashContract(h) && Equivalent(t, u)
    requires !a.ConstantOf? && !a.Dictionary? && !b.ConstantOf? && !b.Dictionary?
    requires HasType(a, t) && InRange(a, i) && !IsNullAt(a, i)
    requires HasType(b, u) && InRange(b, j) && !IsNullAt(b, j)
    requires Decode(a, i) == Decode(b, j)
    ensures HashWrapped(h, a, i, t) == HashWrapped(h, b, j, u)
    decreases a, 3
  {
    match t
    case Row(_, ts) =>
      FieldsHashDependsOnlyOnValue(h, a, i, t, b, j, u, 0, h.mix(h.nullHash, |a.children|));
    case Array(e) => ArrayHashDependsOnlyOnValue(h, a, i, t, b, j, u);
    case Map(kt, vt) => MapHashDependsOnlyOnValue(h, a, i, t, b, j, u);
    case _ =>
      if !NeedsConstantValueHash(t) {
        SameInput(a, i, t, b, j, u);
      }
  }

  lemma SameInput(v: Vec, i: nat, t: Type, w: Vec, j: nat, u: Type)
    requires Equivalent(t, u) && !NeedsConstantValueHash(t)
    requires HasType(v, t) && HasType(w, u) && InRange(v, i) && InRange(w, j) && Decode(v, i) == Decode(w, j)
    ensures SameValueHashInput(v, i, w, j, t)
  {
    EquivalentSymmetric(t, u);
    HasTypeUpToEquivalence(w, u, t);
  }

  lemma {:induction false} ArrayHashDependsOnlyOnValue(h: Hashing, a: Vec, i: nat, t: Type, b: Vec, j: nat, u: Type)
    requires ValueHashContract(h) && Equivalent(t, u)
    requires a.ArrayVec? && b.ArrayVec? && t.Array? && u.Array?
    requires HasType(a, t) && InRange(a, i) && !a.nulls[i]
    requires HasType(b, u) && InRange(b, j) && !b.nulls[j]
    requires Decode(a, i) == Decode(b, j)
    ensures HashWrapped(h, a, i, t) == HashWrapped(h, b, j, u)
    decreases a, 2
  {
    assert Decode(a, i).items == DecodeRange(a.elements, a.offsets[i], a.sizes[i]);
    assert Decode(b, j).items == DecodeRange(b.elements, b.offsets[j], b.sizes[j]);
    ElementsHashDependsOnlyOnValues(h, a.elements, a.offsets[i], t.element, b.elements, b.offsets[j], u.element,
                                    a.sizes[i], h.mix(h.nullHash, a.sizes[i]));
  }

  lemma {:induction false} MapHashDependsOnlyOnValue(h: Hashing, a: Vec, i: nat, t: Type, b: Vec, j: nat, u: Type)
    requires ValueHashContract(h) && Equivalent(t, u)
    requires a.MapVec? && b.MapVec? && t.Map? && u.Map?
    requires HasType(a, t) && InRange(a, i) && !a.nulls[i]
    requires HasType(b, u) && InRange(b, j) && !b.nulls[j]
    requires Decode(a, i) == Decode(b, j)
    ensures HashWrapped(h, a, i, t) == HashWrapped(h, b, j, u)
    decreases a, 2
  {
    assert Decode(a, i).entryKeys == DecodeRange(a.keys, a.offsets[i], a.sizes[i]);
    assert Decode(b, j).entryKeys == DecodeRange(b.keys, b.offsets[j], b.sizes[j]);
    assert Decode(a, i).entryValues == DecodeRange(a.values, a.offsets[i], a.sizes[i]);
    assert Decode(b, j).entryValues == DecodeRange(b.values, b.offsets[j], b.sizes[j]);
    var start := h.mix(h.nullHash, a.sizes[i]);
    ElementsHashDependsOnlyOnValues(h, a.keys, a.offsets[i], t.key, b.keys, b.offsets[j], u.key, a.sizes[i], start);
    var keyed := HashElements(h, a.keys, a.offsets[i], a.sizes[i], t.key, start);
    ElementsHashDependsOnlyOnValues(h, a.values, a.offsets[i], t.item, b.values, b.offsets[j], u.item, a.sizes[i], keyed);
  }

  lemma {:induction false} PartHashDependsOnlyOnValue(
      h: Hashing, l: Option<Vec>, li: nat, t: Type, r: Option<Vec>, ri: nat, u: Type)
    requires ValueHashContract(h) && Equivalent(t, u)
    requires Readable(l, li, t) && Readable(r, ri, u) && DecodePtr(l, li) == DecodePtr(r, ri)
    ensures HashPart(h, l, li, t) == HashPart(h, r, ri, u)
    decreases l, 1
  {
    NeedsHashUpToEquivalence(t, u);
    if l.Some? { DecodedNeverMissing(l.value, li); NeedsHashUpToEquivalence(TypeOf(l.value), t); }
    if r.Some? { DecodedNeverMissing(r.value, ri); NeedsHashUpToEquivalence(TypeOf(r.value), u); }
    if l.Some? && !NeedsConstantValueHash(t) {
      SameInput(l.value, li, t, r.value, ri, u);
    } else {
      HashDependsOnlyOnValue(h, l, li, t, r, ri, u);
    }
  }

  lemma {:induction false} FieldsHashDependsOnlyOnValue(
      h: Hashing, a: Vec, i: nat, t: Type, b: Vec, j: nat, u: Type, k: nat, hash: nat)
    requires ValueHashContract(h) && Equivalent(t, u)
    requires a.RowVec? && t.Row? && HasType(a, t) && InRange(a, i) && !a.nulls[i] && k <= |a.children|
    requires b.RowVec? && u.Row? && HasType(b, u) && InRange(b, j) && !b.nulls[j]
    requires Decode(a, i) == Decode(b, j)
    ensures HashFields(h, a, i, t, k, hash) == HashFields(h, b, j, u, k, hash)
    decreases a, 2, |a.children| - k
  {
    if k < |a.children| {
      assert Decode(a, i).fields[k] == Decode(b, j).fields[k];
      PartHashDependsOnlyOnValue(h, a.children[k], i, t.children[k], b.children[k], j, u.children[k]);
      FieldsHashDependsOnlyOnValue(h, a, i, t, b, j, u, k + 1, h.mix(hash, HashPart(h, a.children[k], i, t.children[k])));
    }
  }

  lemma {:induction false} ElementsHashDependsOnlyOnValues(
      h: Hashing, l: Option<Vec>, lo: nat, t: Type, r: Option<Vec>, ro: nat, u: Type, size: nat, hash: nat)
    requires ValueHashContract(h) && Equivalent(t, u)
    requires ReadableRange(l, lo, size, t) && ReadableRange(r, ro, size, u)
    requires DecodeRange(l, lo, size) == DecodeRange(r, ro, size)
    ensures HashElements(h, l, lo, size, t, hash) == HashElements(h, r, ro, size, u, hash)
    decreases l, 2, size
  {
    if size > 0 {
      RangesEqualStep(l, lo, r, ro, size);
      PartHashDependsOnlyOnValue(h, l, lo, t, r, ro, u);
      ElementsHashDependsOnlyOnValues(h, l, lo + 1, t, r, ro + 1, u, size - 1, h.mix(hash, HashPart(h, l, lo, t)));
    }
  }

  /** The element loop as it runs, with its choice of hash made once. */
  method ComputeHashElements(h: Hashing, v: Option<Vec>, offset: nat, size: nat, t: Type, start: nat) returns (hash: nat)
    requires ReadableRange(v, offset, size, t)
    ensures hash == HashElements(h, v, offset, size, t, start)
  {
    var useValueHash := v.Some? && !NeedsConstantValueHash(TypeOf(v.value));
    hash := start;
    for i := 0 to size
      invariant HashElements(h, v, offset + i, size - i, t, hash) == HashElements(h, v, offset, size, t, start)
    {
      hash := h.mix(hash, if useValueHash then h.valueAt(v.value, offset + i) else HashConstantValue(h, v, offset + i, t));
    }
  }

  /** The field loop as it runs. */
  method ComputeHashFields(h: Hashing, a: Vec, index: nat, t: Type) returns (hash: nat)
    requires a.RowVec? && t.Row? && HasType(a, t) && InRange(a, index) && !a.nulls[index]
    ensures hash == HashWrapped(h, a, index, t)
  {
    hash := h.mix(h.nullHash, |a.children|);
    for k := 0 to |a.children|
      invariant HashFields(h, a, index, t, k, hash) == HashWrapped(h, a, index, t)
    {
      hash := h.mix(hash, HashPart(h, a.children[k], index, t.children[k]));
    }
  }

  /** hashConstantValue with its switch over the innermost vector. */
  method ComputeHashConstantValue(h: Hashing, v: Option<Vec>, i: nat, t: Type) returns (hash: nat)
    requires Readable(v, i, t)
    ensures hash == HashConstantValue(h, v, i, t)
  {
    if v.None? || IsNullAt(v.value, i) { return h.nullHash; }
    var index, vector := WrappedIndex(v.value, i), WrappedVector(v.value);
    match t {
      case Scalar(_, _) =>
        hash := if t.Kind() in {REAL, DOUBLE} then h.word(WordAt(vector, index)) else h.valueAt(vector, index);
      case Row(_, _) =>
        hash := ComputeHashFields(h, vector, index, t);
      case Array(e) =>
        var size, offset := vector.sizes[index], vector.offsets[index];
        hash := ComputeHashElements(h, vector.elements, offset, size, e, h.mix(h.nullHash, size));
      case Map(k, item) =>
        var size, offset := vector.sizes[index], vector.offsets[index];
        hash := h.mix(h.nullHash, size);
        hash := ComputeHashElements(h, vector.keys, offset, size, k, hash);
        hash := ComputeHashElements(h, vector.values, offset, size, item, hash);
      case _ =>
        hash := h.valueAt(vector, index);
    }
  }
}
