/** Laws of the conversion engine: what `fromDynamic` reads back from what
    `toDynamic` wrote, where that fails, and how failures are tagged. */
module ConversionLaws {

  import opened Wrappers
  import opened Ordering
  import opened Values
  import opened ErrorUtils
  import opened DynamicValues
  import opened ConversionTypes
  import opened Conversions
  import opened MapLaws

  // ---------------------------------------------------------------------------
  // Round trip
  // ---------------------------------------------------------------------------

  /** Types whose converters may write Null: an optional of such a type
      cannot tell an empty value from a present one. */
  predicate MayWriteNull(t: TypeDesc) {
    t.TNullPtr? || t.TPtr? || t.TUnit? || t.TOptional? || t.TUser?
  }

  lemma WritesNonNull(h: Hooks, t: TypeDesc, v: Native)
    requires WellTyped(t, v) && !MayWriteNull(t)
    ensures !Encode(h, t, v).dv.Null?
  {
  }

  /** Every value of a position pair's second element type survives the
      narrowing to `int`. */
  predicate DimFits(t: TypeDesc) {
    match t
    case TInt(k) => FitsInInt(k)
    case TEnum(e) => FitsInInt(e.underlying)
    case _ => true
  }

  /** The dimension cast to `int` and back is the identity exactly for the
      second element types that fit in `int`; `bool` always survives. */
  lemma {:induction false} DimRoundTrip(t: TypeDesc, v: Native)
    requires IntLike(t) && WellTyped(t, v) && DimFits(t)
    ensures DimFromInt(t, DimToInt(t, v)) == v
  {
    match t
    case TBool =>
    case TInt(k) => NarrowThroughInt(k, v.i);
    case TEnum(e) => NarrowThroughInt(e.underlying, v.ev);
  }

  /** Types whose values come back unchanged: optionals of types that never
      write Null, position pairs whose dimension type fits in `int` and
      structs without '$' members. */
  predicate RoundTrippable(t: TypeDesc)
    decreases t, 1
  {
    match t
    case TOptional(inner) => !MayWriteNull(inner) && RoundTrippable(inner)
    case TTuple(ts, _) =>
      if Resolve(t) == PositionPairRule then PositionPairShape(ts) && DimFits(ts[1])
      else forall i :: 0 <= i < |ts| ==> RoundTrippable(ts[i])
    case TList(e) => RoundTrippable(e)
    case TMap(_, e) => RoundTrippable(e)
    case TStruct(_, fs, _) => forall i :: 0 <= i < |fs| ==> !Hidden(fs[i].name) && RoundTrippable(fs[i].t)
    case _ => true
  }

  /** Every enum key of every map inside `v` has a name, so no two keys
      render alike. */
  predicate NamedKeys(t: TypeDesc, v: Native)
    requires WellTyped(t, v)
    decreases t, 1
  {
    match t
    case TOptional(inner) => v.opt.Some? ==> NamedKeys(inner, v.opt.value)
    case TTuple(ts, _) => forall i :: 0 <= i < |ts| ==> NamedKeys(ts[i], v.tvals[i])
    case TList(e) => forall i :: 0 <= i < |v.lvals| ==> NamedKeys(e, v.lvals[i])
    case TMap(k, e) =>
      if k.StringKey? then forall s :: s in v.smap ==> NamedKeys(e, v.smap[s])
      else forall x :: x in v.emap ==> EnumName(k.e.entries, x) != "" && NamedKeys(e, v.emap[x])
    case TStruct(_, fs, _) => forall i :: 0 <= i < |fs| ==> NamedKeys(fs[i].t, v.fvals[i])
    case _ => true
  }

  /** `fromDynamic` reads back what `toDynamic` wrote, for every value of a
      round-trippable type whose encoding succeeds. */
  lemma {:induction false} RoundTrip(h: Hooks, t: TypeDesc, v: Native)
    requires WfType(t) && RoundTrippable(t) && HooksRoundTrip(h)
    requires WellTyped(t, v) && NamedKeys(t, v) && Encode(h, t, v).status.Pass?
    ensures Decode(h, t, Encode(h, t, v).dv) == Success(v)
    decreases t, 1
  {
    match t
    case TEnum(e) => NumberRoundTrip(e.underlying, v.ev);
    case TOptional(inner) =>
      if v.opt.Some? {
        WritesNonNull(h, inner, v.opt.value);
        RoundTrip(h, inner, v.opt.value);
      }
    case TTuple(ts, dflt) =>
      if Resolve(t) == PositionPairRule {
        RoundTripPositionPair(h, t, v);
      } else {
        RoundTripTuple(h, t, v);
      }
    case TList(e) => RoundTripList(h, t, v);
    case TMap(k, e) => RoundTripMap(h, t, v);
    case TStruct(_, fs, dflt) => RoundTripStruct(h, t, v);
    case TUser(_, _) =>
    case _ => RoundTripLeaf(h, t, v);
  }

  lemma RoundTripLeaf(h: Hooks, t: TypeDesc, v: Native)
    requires IsLeaf(t) && WellTyped(t, v)
    ensures Decode(h, t, Encode(h, t, v).dv) == Success(v)
  {
    if t.TInt? {
      NumberRoundTrip(t.ik, v.i);
    }
  }

  lemma RoundTripPositionPair(h: Hooks, t: TypeDesc, v: Native)
    requires t.TTuple? && Resolve(t) == PositionPairRule && RoundTrippable(t) && WellTyped(t, v)
    ensures Decode(h, t, Encode(h, t, v).dv) == Success(v)
  {
    DimRoundTrip(t.elems[1], v.tvals[1]);
    assert v.tvals == [v.tvals[0], v.tvals[1]];
  }

  lemma {:induction false} RoundTripTuple(h: Hooks, t: TypeDesc, v: Native)
    requires t.TTuple? && Resolve(t) != PositionPairRule
    requires WfType(t) && RoundTrippable(t) && HooksRoundTrip(h)
    requires WellTyped(t, v) && NamedKeys(t, v) && Encode(h, t, v).status.Pass?
    ensures Decode(h, t, Encode(h, t, v).dv) == Success(v)
    decreases t, 0
  {
    var ts := t.elems;
    TupleEncodeShape(h, t, v.tvals, 0, [], Pass);
    var arr := Encode(h, t, v).dv.arr;
    forall j | 0 <= j < |ts|
      ensures Decode(h, ts[j], arr[j]) == Success(v.tvals[j])
    {
      RoundTrip(h, ts[j], v.tvals[j]);
    }
    if t.tupleDefault {
      TupleDecodeAll(h, t, arr, 0, [], v.tvals);
    } else {
      TupleDecodeLenientAll(h, t, Array(arr), 0, [], v.tvals);
    }
  }

  lemma {:induction false} RoundTripList(h: Hooks, t: TypeDesc, v: Native)
    requires t.TList?
    requires WfType(t) && RoundTrippable(t) && HooksRoundTrip(h)
    requires WellTyped(t, v) && NamedKeys(t, v) && Encode(h, t, v).status.Pass?
    ensures Decode(h, t, Encode(h, t, v).dv) == Success(v)
    decreases t, 0
  {
    ListEncodeShape(h, t, v.lvals, 0, []);
    var arr := Encode(h, t, v).dv.arr;
    forall j | 0 <= j < |arr|
      ensures Decode(h, t.elem, arr[j]) == Success(v.lvals[j])
    {
      RoundTrip(h, t.elem, v.lvals[j]);
    }
    ListDecodeAll(h, t, arr, 0, [], v.lvals);
  }

  lemma {:induction false} RoundTripMap(h: Hooks, t: TypeDesc, v: Native)
    requires t.TMap?
    requires WfType(t) && RoundTrippable(t) && HooksRoundTrip(h)
    requires WellTyped(t, v) && NamedKeys(t, v) && Encode(h, t, v).status.Pass?
    ensures Decode(h, t, Encode(h, t, v).dv) == Success(v)
    decreases t, 0, 1
  {
    if t.key.StringKey? {
      RoundTripStrMap(h, t, v);
    } else {
      RoundTripEnumMap(h, t, v);
    }
  }

  lemma {:induction false} RoundTripStrMap(h: Hooks, t: TypeDesc, v: Native)
    requires t.TMap? && t.key.StringKey?
    requires WfType(t) && RoundTrippable(t) && HooksRoundTrip(h)
    requires WellTyped(t, v) && NamedKeys(t, v) && Encode(h, t, v).status.Pass?
    ensures Decode(h, t, Encode(h, t, v).dv) == Success(v)
    decreases t, 0, 0
  {
    var m := v.smap;
    StrMapEncoded(h, t, v);
    var obj := Encode(h, t, v).dv.obj;
    forall x | x in m
      ensures Decode(h, t.val, obj[x]) == Success(m[x])
    {
      RoundTrip(h, t.val, m[x]);
    }
    StrMapDecoded(h, t, obj, m);
  }

  lemma {:induction false} RoundTripEnumMap(h: Hooks, t: TypeDesc, v: Native)
    requires t.TMap? && t.key.EnumKey?
    requires WfType(t) && RoundTrippable(t) && HooksRoundTrip(h)
    requires WellTyped(t, v) && NamedKeys(t, v) && Encode(h, t, v).status.Pass?
    ensures Decode(h, t, Encode(h, t, v).dv) == Success(v)
    decreases t, 0, 0
  {
    var E := t.key.e;
    var m := v.emap;
    EnumMapEncoded(h, t, v);
    var obj := Encode(h, t, v).dv.obj;
    forall x | x in m
      ensures Decode(h, t.val, obj[EnumName(E.entries, x)]) == Success(m[x])
    {
      RoundTrip(h, t.val, m[x]);
    }
    EnumMapDecoded(h, t, obj, m);
  }

  lemma {:induction false} RoundTripStruct(h: Hooks, t: TypeDesc, v: Native)
    requires t.TStruct?
    requires WfType(t) && RoundTrippable(t) && HooksRoundTrip(h)
    requires WellTyped(t, v) && NamedKeys(t, v) && Encode(h, t, v).status.Pass?
    ensures Decode(h, t, Encode(h, t, v).dv) == Success(v)
    decreases t, 0
  {
    var fs := t.fields;
    StructEncodeShape(h, t, v.fvals, 0, map[], Pass);
    var obj := Encode(h, t, v).dv.obj;
    forall j | 0 <= j < |fs|
      ensures DecodeMember(h, t, obj, j) == Success(v.fvals[j])
    {
      RoundTrip(h, fs[j].t, v.fvals[j]);
    }
    StructDecodeAll(h, t, obj, 0, [], v.fvals);
  }

  /** A tuple encoding succeeds exactly when every element's does, and then
      holds each element's encoding in its slot. */
  lemma TupleEncodeShape(h: Hooks, t: TypeDesc, vs: seq<Native>, i: nat, acc: seq<DynamicValue>,
                         res: Outcome<Error>)
    requires t.TTuple? && |vs| == |t.elems| && i <= |vs| && |acc| == i
    requires forall j :: 0 <= j < |vs| ==> WellTyped(t.elems[j], vs[j])
    ensures var r := EncodeTupleFrom(h, t, vs, i, acc, res);
      r.dv.arr[..i] == acc
      && (r.status.Pass? <==> res.Pass? && forall j :: i <= j < |vs| ==> Encode(h, t.elems[j], vs[j]).status.Pass?)
      && (r.status.Pass? ==> forall j :: i <= j < |vs| ==> r.dv.arr[j] == Encode(h, t.elems[j], vs[j]).dv)
  {
    TupleEncodePrefix(h, t, vs, i, acc, res);
    TupleEncodeStatus(h, t, vs, i, acc, res);
    if res.Pass? && forall j :: i <= j < |vs| ==> Encode(h, t.elems[j], vs[j]).status.Pass? {
      TupleEncodeSlots(h, t, vs, i, acc);
    }
  }

  /** The tuple rule never rewrites a slot it has already filled. */
  lemma {:induction false} TupleEncodePrefix(h: Hooks, t: TypeDesc, vs: seq<Native>, i: nat, acc: seq<DynamicValue>,
                                             res: Outcome<Error>)
    requires t.TTuple? && |vs| == |t.elems| && i <= |vs| && |acc| == i
    requires forall j :: 0 <= j < |vs| ==> WellTyped(t.elems[j], vs[j])
    ensures EncodeTupleFrom(h, t, vs, i, acc, res).dv.arr[..i] == acc
    decreases |vs| - i
  {
    if i < |vs| {
      var e := if res.Fail? then Encoded(Null, res) else Encode(h, t.elems[i], vs[i]);
      var res' := if res.Fail? then res else if e.status.Fail? then Fail(MakeSerIndexError(i, e.status.error)) else Pass;
      TupleEncodePrefix(h, t, vs, i + 1, acc + [e.dv], res');
      var arr := EncodeTupleFrom(h, t, vs, i, acc, res).dv.arr;
      assert arr == EncodeTupleFrom(h, t, vs, i + 1, acc + [e.dv], res').dv.arr;
      assert arr[..i] == (arr[..i + 1])[..i];
    }
  }

  /** The tuple rule passes exactly when nothing failed before slot `i` and
      every later element's encoding passes. */
  lemma {:induction false} TupleEncodeStatus(h: Hooks, t: TypeDesc, vs: seq<Native>, i: nat, acc: seq<DynamicValue>,
                                             res: Outcome<Error>)
    requires t.TTuple? && |vs| == |t.elems| && i <= |vs| && |acc| == i
    requires forall j :: 0 <= j < |vs| ==> WellTyped(t.elems[j], vs[j])
    ensures EncodeTupleFrom(h, t, vs, i, acc, res).status.Pass?
        <==> res.Pass? && forall j :: i <= j < |vs| ==> Encode(h, t.elems[j], vs[j]).status.Pass?
    decreases |vs| - i
  {
    if i < |vs| {
      var e := if res.Fail? then Encoded(Null, res) else Encode(h, t.elems[i], vs[i]);
      var res' := if res.Fail? then res else if e.status.Fail? then Fail(MakeSerIndexError(i, e.status.error)) else Pass;
      TupleEncodeStatus(h, t, vs, i + 1, acc + [e.dv], res');
    }
  }

  /** When every later element's encoding passes, the tuple rule holds each
      of them in its slot. */
  lemma {:induction false} TupleEncodeSlots(h: Hooks, t: TypeDesc, vs: seq<Native>, i: nat, acc: seq<DynamicValue>)
    requires t.TTuple? && |vs| == |t.elems| && i <= |vs| && |acc| == i
    requires forall j :: 0 <= j < |vs| ==> WellTyped(t.elems[j], vs[j])
    requires forall j :: i <= j < |vs| ==> Encode(h, t.elems[j], vs[j]).status.Pass?
    ensures forall j :: i <= j < |vs| ==>
      EncodeTupleFrom(h, t, vs, i, acc, Pass).dv.arr[j] == Encode(h, t.elems[j], vs[j]).dv
    decreases |vs| - i
  {
    if i < |vs| {
      var e := Encode(h, t.elems[i], vs[i]);
      TupleEncodeSlots(h, t, vs, i + 1, acc + [e.dv]);
      TupleEncodePrefix(h, t, vs, i + 1, acc + [e.dv], Pass);
      var arr := EncodeTupleFrom(h, t, vs, i + 1, acc + [e.dv], Pass).dv.arr;
      assert EncodeTupleFrom(h, t, vs, i, acc, Pass).dv.arr == arr;
      assert arr[..i + 1][i] == e.dv;
    }
  }

  lemma {:induction false} TupleDecodeAll(h: Hooks, t: TypeDesc, arr: seq<DynamicValue>, i: nat, acc: seq<Native>,
                                          vs: seq<Native>)
    requires t.TTuple? && |arr| == |t.elems| && i <= |arr| && |vs| == |arr| && acc == vs[..i]
    requires forall j :: i <= j < |arr| ==> Decode(h, t.elems[j], arr[j]) == Success(vs[j])
    ensures DecodeTupleFrom(h, t, arr, i, acc) == Success(NTuple(vs))
    decreases |arr| - i
  {
    if i == |arr| {
      assert vs[..i] == vs;
    } else {
      assert vs[..i + 1] == acc + [vs[i]];
      TupleDecodeAll(h, t, arr, i + 1, acc + [vs[i]], vs);
    }
  }

  lemma {:induction false} TupleDecodeLenientAll(h: Hooks, t: TypeDesc, dv: DynamicValue, i: nat, acc: seq<Native>,
                                                 vs: seq<Native>)
    requires t.TTuple? && dv.Array? && |dv.arr| == |t.elems| && i <= |vs| && |vs| == |dv.arr| && acc == vs[..i]
    requires forall j :: i <= j < |vs| ==> Decode(h, t.elems[j], dv.arr[j]) == Success(vs[j])
    ensures DecodeTupleLenient(h, t, dv, i, acc) == Success(NTuple(vs))
    decreases |vs| - i
  {
    if i == |vs| {
      assert vs[..i] == vs;
    } else {
      assert vs[..i + 1] == acc + [vs[i]];
      TupleDecodeLenientAll(h, t, dv, i + 1, acc + [vs[i]], vs);
    }
  }

  /** A list encoding succeeds exactly when every element's does, and then
      holds each element's encoding in order. */
  lemma {:induction false} ListEncodeShape(h: Hooks, t: TypeDesc, vs: seq<Native>, i: nat, acc: seq<DynamicValue>)
    requires t.TList? && i <= |vs| && |acc| == i
    requires forall j :: 0 <= j < |vs| ==> WellTyped(t.elem, vs[j])
    ensures var r := EncodeListFrom(h, t, vs, i, acc);
      r.dv.arr[..i] == acc
      && (r.status.Pass? <==> forall j :: i <= j < |vs| ==> Encode(h, t.elem, vs[j]).status.Pass?)
      && (r.status.Pass? ==> |r.dv.arr| == |vs| && forall j :: i <= j < |vs| ==> r.dv.arr[j] == Encode(h, t.elem, vs[j]).dv)
    decreases |vs| - i
  {
    if i < |vs| {
      var e := Encode(h, t.elem, vs[i]);
      var arr := EncodeListFrom(h, t, vs, i, acc).dv.arr;
      if e.status.Pass? {
        ListEncodeShape(h, t, vs, i + 1, acc + [e.dv]);
        assert arr[..i] == (arr[..i + 1])[..i];
      } else {
        assert arr == acc + [e.dv];
      }
    }
  }

  lemma {:induction false} ListDecodeAll(h: Hooks, t: TypeDesc, arr: seq<DynamicValue>, i: nat, acc: seq<Native>,
                                         vs: seq<Native>)
    requires t.TList? && i <= |arr| && |vs| == |arr| && acc == vs[..i]
    requires forall j :: i <= j < |arr| ==> Decode(h, t.elem, arr[j]) == Success(vs[j])
    ensures DecodeListFrom(h, t, arr, i, acc) == Success(NList(vs))
    decreases |arr| - i
  {
    if i == |arr| {
      assert vs[..i] == vs;
    } else {
      assert vs[..i + 1] == acc + [vs[i]];
      ListDecodeAll(h, t, arr, i + 1, acc + [vs[i]], vs);
    }
  }

  /** Encoding a struct without '$' members succeeds exactly when every
      member's encoding does, and then writes each member under its name. */
  lemma StructEncodeShape(h: Hooks, t: TypeDesc, vs: seq<Native>, i: nat,
                          obj: map<string, DynamicValue>, res: Outcome<Error>)
    requires t.TStruct? && |vs| == |t.fields| && i <= |vs|
    requires forall j :: 0 <= j < |vs| ==> WellTyped(t.fields[j].t, vs[j]) && !Hidden(t.fields[j].name)
    requires forall a, b :: 0 <= a < b < |vs| ==> t.fields[a].name != t.fields[b].name
    requires res.Pass? ==> forall j :: 0 <= j < i ==>
      (t.fields[j].name in obj && obj[t.fields[j].name] == Encode(h, t.fields[j].t, vs[j]).dv)
    ensures var r := EncodeStructFrom(h, t, vs, i, obj, res);
      (r.status.Pass? <==> res.Pass? && forall j :: i <= j < |vs| ==> Encode(h, t.fields[j].t, vs[j]).status.Pass?)
      && (r.status.Pass? ==> forall j :: 0 <= j < |vs| ==>
            (t.fields[j].name in r.dv.obj && r.dv.obj[t.fields[j].name] == Encode(h, t.fields[j].t, vs[j]).dv))
  {
    StructEncodeStatus(h, t, vs, i, obj, res);
    if res.Pass? && forall j :: i <= j < |vs| ==> Encode(h, t.fields[j].t, vs[j]).status.Pass? {
      StructEncodeSlots(h, t, vs, i, obj);
    }
  }

  /** The struct rule passes exactly when nothing failed before member `i`
      and every later member's encoding passes. */
  lemma {:induction false} StructEncodeStatus(h: Hooks, t: TypeDesc, vs: seq<Native>, i: nat,
                                              obj: map<string, DynamicValue>, res: Outcome<Error>)
    requires t.TStruct? && |vs| == |t.fields| && i <= |vs|
    requires forall j :: 0 <= j < |vs| ==> WellTyped(t.fields[j].t, vs[j]) && !Hidden(t.fields[j].name)
    ensures EncodeStructFrom(h, t, vs, i, obj, res).status.Pass?
        <==> res.Pass? && forall j :: i <= j < |vs| ==> Encode(h, t.fields[j].t, vs[j]).status.Pass?
    decreases |vs| - i
  {
    if i == |vs| {
    } else if res.Fail? {
      StructEncodeStatus(h, t, vs, i + 1, obj, res);
    } else {
      var f := t.fields[i];
      var e := Encode(h, f.t, vs[i]);
      var res' := if e.status.Fail? then Fail(MakeSerMemberError(f.name, e.status.error)) else Pass;
      StructEncodeStatus(h, t, vs, i + 1, obj[f.name := e.dv], res');
    }
  }

  /** When every later member's encoding passes, the struct rule writes each
      member's encoding under its name and keeps those already written. */
  lemma {:induction false} StructEncodeSlots(h: Hooks, t: TypeDesc, vs: seq<Native>, i: nat,
                                             obj: map<string, DynamicValue>)
    requires t.TStruct? && |vs| == |t.fields| && i <= |vs|
    requires forall j :: 0 <= j < |vs| ==> WellTyped(t.fields[j].t, vs[j]) && !Hidden(t.fields[j].name)
    requires forall a, b :: 0 <= a < b < |vs| ==> t.fields[a].name != t.fields[b].name
    requires forall j :: 0 <= j < i ==>
      (t.fields[j].name in obj && obj[t.fields[j].name] == Encode(h, t.fields[j].t, vs[j]).dv)
    requires forall j :: i <= j < |vs| ==> Encode(h, t.fields[j].t, vs[j]).status.Pass?
    ensures forall j :: 0 <= j < |vs| ==>
      (t.fields[j].name in EncodeStructFrom(h, t, vs, i, obj, Pass).dv.obj
       && EncodeStructFrom(h, t, vs, i, obj, Pass).dv.obj[t.fields[j].name] == Encode(h, t.fields[j].t, vs[j]).dv)
    decreases |vs| - i
  {
    if i < |vs| {
      var f := t.fields[i];
      var e := Encode(h, f.t, vs[i]);
      StructEncodeSlots(h, t, vs, i + 1, obj[f.name := e.dv]);
    }
  }

  lemma {:induction false} StructDecodeAll(h: Hooks, t: TypeDesc, obj: map<string, DynamicValue>, i: nat,
                                           acc: seq<Native>, vs: seq<Native>)
    requires t.TStruct? && i <= |t.fields| && |vs| == |t.fields| && acc == vs[..i]
    requires forall j :: i <= j < |vs| ==> DecodeMember(h, t, obj, j) == Success(vs[j])
    ensures DecodeStructFrom(h, t, obj, i, acc) == Success(NStruct(vs))
    decreases |vs| - i
  {
    if i == |vs| {
      assert vs[..i] == vs;
    } else {
      assert vs[..i + 1] == acc + [vs[i]];
      StructDecodeAll(h, t, obj, i + 1, acc + [vs[i]], vs);
    }
  }
}
