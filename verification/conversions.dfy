/** The conversion engine: `toDynamic` (`Encode`) and `fromDynamic`
    (`Decode`) for every overload family of conversions/DefaultConversions.h
    and conversions/DefaultContainerConversions.h, dispatched on the type
    descriptor as `Resolve` ranks the families.

    Iteration over an `unordered_map` (native maps when encoding, Objects
    when decoding) runs in ascending key order; the C++ order is unspecified.
    The elements of a non-default-constructible tuple or struct, which the
    source decodes inside one `std::make_tuple(...)` call, are decoded left
    to right. */
module Conversions {

  import opened Wrappers
  import opened Strings
  import opened Ordering
  import opened Base
  import opened Values
  import opened ErrorUtils
  import opened DynamicValues
  import opened ConversionTypes

  /** The handle alternative holding a non-null pointer of kind `k`. */
  function Handle(k: HandleKind, a: Addr): (r: DynamicValue)
    ensures AltOf(r) == HandleAlt(k)
  {
    match k
    case HPlayer => PlayerPtr(a)
    case HActor => ActorPtr(a)
    case HBlockActor => BlockActorPtr(a)
    case HContainer => ContainerPtr(a)
  }

  /** The address a handle alternative holds. */
  function HandleAddr(dv: DynamicValue): Addr
    requires IsPointer(AltOf(dv))
  {
    match dv
    case PlayerPtr(a) => a
    case ActorPtr(a) => a
    case BlockActorPtr(a) => a
    case ContainerPtr(a) => a
  }

  lemma HandleAddrOf(k: HandleKind, a: Addr)
    ensures HandleAddr(Handle(k, a)) == a
  {
  }

  /** `makeFromDynamicTypeError<T, Expected...>(dv)`. */
  function TypeError(t: TypeDesc, expected: seq<Alt>, dv: DynamicValue): (e: Error)
    ensures e.Remote? && e.err.reason == UnexpectedType && e.err.fields == []
  {
    MakeFromDynamicTypeError(RawName(t), expected, AltOf(dv))
  }

  // ---------------------------------------------------------------------------
  // toDynamic
  // ---------------------------------------------------------------------------

  /** `toDynamic(dv, v)` for a value of type `t`: the value written and the
      returned status. */
  function Encode(h: Hooks, t: TypeDesc, v: Native): (r: Encoded)
    requires WellTyped(t, v)
    decreases t, 2
  {
    match t
    case TBool => Encoded(Bool(v.b), Pass)
    case TString => Encoded(Str(v.s), Pass)
    case TNullPtr => Encoded(Null, Pass)
    case TPtr(k) => Encoded(if v.addr == NullAddr then Null else Handle(k, v.addr), Pass)
    case TStringLike(_) => Encoded(Str(v.s), Pass)
    case TActorLike(_, player) => Encoded(if player then PlayerPtr(v.addr) else ActorPtr(v.addr), Pass)
    case TInt(k) => Encoded(Number(NumberFromInt(k, v.i)), Pass)
    case TEnum(e) => Encoded(Number(NumberFromInt(e.underlying, v.ev)), Pass)
    case TPos(block) =>
      Encoded(if block then BlockPosV(MakeBlockPosType(v.bpos)) else WorldPos(MakeWorldPosType(v.vpos)), Pass)
    case TUnit => Encoded(Null, Pass)
    case TOptional(inner) => if v.opt.None? then Encoded(Null, Pass) else Encode(h, inner, v.opt.value)
    case TTuple(ts, _) =>
      if Resolve(t) == PositionPairRule then Encoded(EncodePositionPair(ts, v.tvals), Pass)
      else EncodeTupleFrom(h, t, v.tvals, 0, [], Pass)
    case TList(_) => EncodeListFrom(h, t, v.lvals, 0, [])
    case TMap(_, _) => EncodeMap(h, t, v)
    case TStruct(_, _, _) => EncodeStructFrom(h, t, v.fvals, 0, map[], Pass)
    case TUser(id, _) => h.enc(id, v)
  }

  /** `static_cast<int>` of a position pair's second element: an integer
      wraps into `int`, `bool` gives 0 or 1, an unscoped enumeration its
      underlying value. */
  function DimToInt(t: TypeDesc, v: Native): (dim: int)
    requires IntLike(t) && WellTyped(t, v)
    ensures InRange(Int, dim)
    ensures t.TBool? ==> (dim == 0 <==> !v.b)
    ensures t.TInt? ==> Congruent(Int, dim, v.i)
    ensures t.TEnum? ==> Congruent(Int, dim, v.ev)
  {
    match t
    case TBool => if v.b then 1 else 0
    case TInt(_) => Wrap(Int, v.i)
    case TEnum(_) => Wrap(Int, v.ev)
  }

  /** `static_cast<DimType>(dimId)`: back from the stored `int` to the pair's
      second element type; for `bool` any non-zero dimension is `true`. */
  function DimFromInt(t: TypeDesc, dim: int): (v: Native)
    requires IntLike(t)
    ensures WellTyped(t, v)
    ensures t.TBool? ==> (v.b <==> dim != 0)
    ensures t.TInt? ==> Congruent(t.ik, v.i, dim)
    ensures t.TEnum? ==> Congruent(t.e.underlying, v.ev, dim)
  {
    match t
    case TBool => NBool(dim != 0)
    case TInt(k) => NInt(Wrap(k, dim))
    case TEnum(e) => NEnum(Wrap(e.underlying, dim))
  }

  /** The position-pair rule: one position value carrying the dimension,
      narrowed to `int`. */
  function EncodePositionPair(ts: seq<TypeDesc>, vs: seq<Native>): (dv: DynamicValue)
    requires PositionPairShape(ts) && |vs| == 2 && WellTyped(ts[0], vs[0]) && WellTyped(ts[1], vs[1])
    ensures dv.BlockPosV? || dv.WorldPos?
  {
    var dim := DimToInt(ts[1], vs[1]);
    if ts[0].block then BlockPosV(BlockPosTypeFromPair(vs[0].bpos, dim))
    else WorldPos(WorldPosType(vs[0].vpos, dim))
  }

  /** The tuple rule from element `i` on: every element gets a slot
      (`emplace_back` runs unconditionally) but after the first failure the
      slots stay Null. */
  function EncodeTupleFrom(h: Hooks, t: TypeDesc, vs: seq<Native>, i: nat, acc: seq<DynamicValue>,
                           res: Outcome<Error>): (r: Encoded)
    requires t.TTuple? && |vs| == |t.elems| && i <= |vs| && |acc| == i
    requires forall j :: 0 <= j < |vs| ==> WellTyped(t.elems[j], vs[j])
    ensures r.dv.Array? && |r.dv.arr| == |vs|
    decreases t, 0, |vs| - i
  {
    if i == |vs| then Encoded(Array(acc), res)
    else if res.Fail? then EncodeTupleFrom(h, t, vs, i + 1, acc + [Null], res)
    else
      var e := Encode(h, t.elems[i], vs[i]);
      var res' := if e.status.Fail? then Fail(MakeSerIndexError(i, e.status.error)) else Pass;
      EncodeTupleFrom(h, t, vs, i + 1, acc + [e.dv], res')
  }

  /** The array-like rule from element `i` on: stops after the first failure,
      which keeps its partial slot. */
  function EncodeListFrom(h: Hooks, t: TypeDesc, vs: seq<Native>, i: nat, acc: seq<DynamicValue>): (r: Encoded)
    requires t.TList? && i <= |vs| && |acc| == i
    requires forall j :: 0 <= j < |vs| ==> WellTyped(t.elem, vs[j])
    ensures r.dv.Array? && i <= |r.dv.arr| <= |vs|
    decreases t, 0, |vs| - i
  {
    if i == |vs| then Encoded(Array(acc), Pass)
    else
      var e := Encode(h, t.elem, vs[i]);
      if e.status.Fail? then Encoded(Array(acc + [e.dv]), Fail(MakeSerIndexError(i, e.status.error)))
      else EncodeListFrom(h, t, vs, i + 1, acc + [e.dv])
  }

  /** One entry of a native map: its rendered key and its value. */
  datatype Entry = Entry(key: string, val: Native)

  function StrEntries(m: map<string, Native>, keys: seq<string>): (r: seq<Entry>)
    requires forall k :: k in keys ==> k in m
    ensures |r| == |keys|
    ensures forall j :: 0 <= j < |keys| ==> r[j] == Entry(keys[j], m[keys[j]])
  {
    if |keys| == 0 then [] else [Entry(keys[0], m[keys[0]])] + StrEntries(m, keys[1..])
  }

  function EnumEntries(e: EnumDesc, m: map<int, Native>, keys: seq<int>): (r: seq<Entry>)
    requires forall k :: k in keys ==> k in m
    ensures |r| == |keys|
    ensures forall j :: 0 <= j < |keys| ==> r[j] == Entry(EnumName(e.entries, keys[j]), m[keys[j]])
  {
    if |keys| == 0 then [] else [Entry(EnumName(e.entries, keys[0]), m[keys[0]])] + EnumEntries(e, m, keys[1..])
  }

  /** The entries of a native map in iteration order, with enum keys
      rendered by `magic_enum::enum_name` ("" for an unnamed value). */
  function MapEntries(t: TypeDesc, v: Native): (r: seq<Entry>)
    requires t.TMap? && WellTyped(t, v)
    ensures forall j :: 0 <= j < |r| ==> WellTyped(t.val, r[j].val)
    ensures |r| == NativeSize(v)
  {
    if t.key.StringKey? then
      var keys := SortedStrings(v.smap.Keys);
      assert |v.smap.Keys| == |v.smap|;
      StrEntries(v.smap, keys)
    else
      var keys := SortedInts(v.emap.Keys);
      assert |v.emap.Keys| == |v.emap|;
      EnumEntries(t.key.e, v.emap, keys)
  }

  /** `map.size()` of a native map. */
  function NativeSize(v: Native): nat
    requires v.NStrMap? || v.NEnumMap?
  {
    if v.NStrMap? then |v.smap| else |v.emap|
  }

  /** The associative rule: each entry writes `dv[key]`; the first failing
      value ends the loop tagged with its key.  Afterwards the rule checks
      that the Object has as many entries as the map and executes
      `__debugbreak()` when it has not. */
  function EncodeMap(h: Hooks, t: TypeDesc, v: Native): (r: Encoded)
    requires t.TMap? && WellTyped(t, v)
    decreases t, 1
  {
    var r := EncodeMapFrom(h, t, MapEntries(t, v), 0, map[]);
    if |r.dv.obj| != NativeSize(v) then Encoded(r.dv, Fail(Abort("__debugbreak"))) else r
  }

  function EncodeMapFrom(h: Hooks, t: TypeDesc, es: seq<Entry>, i: nat, obj: map<string, DynamicValue>): (r: Encoded)
    requires t.TMap? && i <= |es|
    requires forall j :: 0 <= j < |es| ==> WellTyped(t.val, es[j].val)
    ensures r.dv.Object?
    decreases t, 0, |es| - i
  {
    if i == |es| then Encoded(Object(obj), Pass)
    else
      var e := Encode(h, t.val, es[i].val);
      var obj' := obj[es[i].key := e.dv];
      if e.status.Fail? then Encoded(Object(obj'), Fail(MakeSerKeyError(es[i].key, e.status.error)))
      else EncodeMapFrom(h, t, es, i + 1, obj')
  }

  /** The reflectable-struct rule: one entry per member whose name does not
      start with '$'; after the first failure the remaining members are
      skipped. */
  function EncodeStructFrom(h: Hooks, t: TypeDesc, vs: seq<Native>, i: nat, obj: map<string, DynamicValue>,
                            res: Outcome<Error>): (r: Encoded)
    requires t.TStruct? && |vs| == |t.fields| && i <= |vs|
    requires forall j :: 0 <= j < |vs| ==> WellTyped(t.fields[j].t, vs[j])
    ensures r.dv.Object?
    decreases t, 0, |vs| - i
  {
    if i == |vs| then Encoded(Object(obj), res)
    else
      var f := t.fields[i];
      if Hidden(f.name) || res.Fail? then EncodeStructFrom(h, t, vs, i + 1, obj, res)
      else
        var e := Encode(h, f.t, vs[i]);
        var res' := if e.status.Fail? then Fail(MakeSerMemberError(f.name, e.status.error)) else Pass;
        EncodeStructFrom(h, t, vs, i + 1, obj[f.name := e.dv], res')
  }

  /** `DynamicValue::from(v)`: the written value, or the error. */
  function FromNative(h: Hooks, t: TypeDesc, v: Native): (r: Result<DynamicValue, Error>)
    requires WellTyped(t, v)
    ensures r.Success? <==> Encode(h, t, v).status.Pass?
    ensures r.Success? ==> r.value == Encode(h, t, v).dv
    ensures r.Failure? ==> r.error == Encode(h, t, v).status.error
  {
    var e := Encode(h, t, v);
    if e.status.Pass? then Success(e.dv) else Failure(e.status.error)
  }

  // ---------------------------------------------------------------------------
  // fromDynamic
  // ---------------------------------------------------------------------------

  /** `fromDynamic(dv, out)` (or `tryGet<T>()`) for a target of type `t`.
      Decoding yields values of the target type. */
  function Decode(h: Hooks, t: TypeDesc, dv: DynamicValue): (r: Result<Native, Error>)
    ensures WfType(t) && HooksWellTyped(h) && r.Success? ==> WellTyped(t, r.value)
    decreases t, 2
  {
    match t
    case TEnum(e) => DecodeEnum(t, dv)
    case TOptional(inner) =>
      if dv.Null? then Success(NOpt(None))
      else
        var d := Decode(h, inner, dv);
        if d.Failure? then Failure(d.error) else Success(NOpt(Some(d.value)))
    case TTuple(ts, dflt) =>
      if Resolve(t) == PositionPairRule then DecodePositionPair(t, dv)
      else if !dflt then DecodeTupleLenient(h, t, dv, 0, [])
      else if !dv.Array? then Failure(TypeError(t, [AltArray], dv))
      else if |dv.arr| != |ts| then Failure(MakeError(IndexOutOfRange, "array size must be " + NatToString(|ts|)))
      else DecodeTupleFrom(h, t, dv.arr, 0, [])
    case TList(_) =>
      if !dv.Array? then Failure(TypeError(t, [AltArray], dv))
      else DecodeListFrom(h, t, dv.arr, 0, [])
    case TMap(k, _) =>
      if !dv.Object? then Failure(TypeError(t, [AltObject], dv))
      else if k.StringKey? then DecodeStrMapFrom(h, t, dv.obj, SortedStrings(dv.obj.Keys), 0, map[])
      else DecodeEnumMapFrom(h, t, dv.obj, SortedStrings(dv.obj.Keys), 0, map[])
    case TStruct(_, _, _) =>
      if !dv.Object? then Failure(TypeError(t, [AltObject], dv))
      else DecodeStructFrom(h, t, dv.obj, 0, [])
    case TUser(id, _) => h.dec(id, dv)
    case _ => DecodeLeaf(t, dv)
  }

  /** The types with no components and no user converter, enums aside. */
  predicate IsLeaf(t: TypeDesc) {
    t.TBool? || t.TString? || t.TNullPtr? || t.TPtr? || t.TStringLike? || t.TActorLike?
    || t.TInt? || t.TPos? || t.TUnit?
  }

  /** The rules of the types with no components: each reads the alternatives
      it accepts and reports a type error naming them otherwise. */
  function DecodeLeaf(t: TypeDesc, dv: DynamicValue): (r: Result<Native, Error>)
    requires IsLeaf(t)
    ensures r.Success? ==> WellTyped(t, r.value)
  {
    match t
    case TBool => if dv.Bool? then Success(NBool(dv.b)) else Failure(TypeError(t, [AltBool], dv))
    case TString => if dv.Str? then Success(NStr(dv.s)) else Failure(TypeError(t, [AltString], dv))
    case TNullPtr => if dv.Null? then Success(NNull) else Failure(TypeError(t, [AltNull], dv))
    case TPtr(k) =>
      if AltOf(dv) == HandleAlt(k) then Success(NPtr(HandleAddr(dv)))
      else if dv.Null? then Success(NPtr(NullAddr))
      else Failure(TypeError(t, [HandleAlt(k)], dv))
    case TStringLike(_) => if dv.Str? then Success(NStr(dv.s)) else Failure(TypeError(t, [AltString], dv))
    case TActorLike(_, player) =>
      if dv.PlayerPtr? then Success(NPtr(dv.player))
      else if player then Failure(TypeError(t, [AltPlayer], dv))
      else if dv.ActorPtr? then Success(NPtr(dv.actor))
      else Failure(TypeError(t, [AltActor, AltPlayer], dv))
    case TInt(k) => if dv.Number? then Success(NInt(NumberGet(dv.n, k))) else Failure(TypeError(t, [AltNumber], dv))
    case TPos(block) =>
      if dv.BlockPosV? then Success(if block then NBlockPos(BlockPosGet(dv.bp)) else NVec3(BlockPosGetVec3(dv.bp)))
      else if dv.WorldPos? then Success(if block then NBlockPos(WorldPosGetBlockPos(dv.w)) else NVec3(dv.w.pos))
      else Failure(TypeError(t, [AltBlockPos, AltWorldPos], dv))
    case TUnit => Success(NUnit)
  }

  /** The position rule with `BlockPosType::get<Vec3>()` and
      `WorldPosType::get<BlockPos>()` as written. `Decode` uses the corrected
      getters; this is the rule the unmodified headers compute. */
  function DecodePosAsWritten(block: bool, dv: DynamicValue): (r: Result<Native, Error>)
    ensures r.Success? <==> dv.BlockPosV? || dv.WorldPos?
    ensures r.Success? ==> WellTyped(TPos(block), r.value)
  {
    if dv.BlockPosV? then Success(if block then NBlockPos(BlockPosGet(dv.bp)) else NVec3(BlockPosGetVec3AsWritten(dv.bp)))
    else if dv.WorldPos? then Success(if block then NBlockPos(WorldPosGetBlockPosAsWritten(dv.w)) else NVec3(dv.w.pos))
    else Failure(TypeError(TPos(block), [AltBlockPos, AltWorldPos], dv))
  }

  /** The as-written position rule reads the same position as the engine's
      exactly when no cross-type read loses `z`: a block position read as a
      `Vec3` needs `z == y`, a world position read as a `BlockPos` needs
      `|z| < 1`. */
  lemma DecodePosAsWrittenAgrees(block: bool, dv: DynamicValue)
    ensures DecodePosAsWritten(block, dv) == DecodeLeaf(TPos(block), dv) <==>
      (dv.BlockPosV? && !block ==> dv.bp.pos.z == dv.bp.pos.y) &&
      (dv.WorldPos? && block ==> -1.0 < dv.w.pos.z < 1.0)
  {
    if dv.BlockPosV? && !block {
      BlockPosGetVec3AsWrittenLosesZ(dv.bp);
      assert DecodePosAsWritten(block, dv) == DecodeLeaf(TPos(block), dv)
        <==> BlockPosGetVec3AsWritten(dv.bp) == BlockPosGetVec3(dv.bp);
    } else if dv.WorldPos? && block {
      WorldPosGetBlockPosAsWrittenLosesZ(dv.w);
      assert DecodePosAsWritten(block, dv) == DecodeLeaf(TPos(block), dv)
        <==> WorldPosGetBlockPosAsWritten(dv.w) == WorldPosGetBlockPos(dv.w);
    }
  }

  /** The position `(1, 2, 3)` read across types: as written it comes back
      as `(1, 2, 2)` or `(1, 2, 0)`, through `Decode` unchanged. */
  lemma DecodePosAsWrittenExamples(h: Hooks)
    ensures DecodePosAsWritten(false, BlockPosV(BlockPosType(BlockPos(1, 2, 3), 0))) == Success(NVec3(Vec3(1.0, 2.0, 2.0)))
    ensures Decode(h, TPos(false), BlockPosV(BlockPosType(BlockPos(1, 2, 3), 0))) == Success(NVec3(Vec3(1.0, 2.0, 3.0)))
    ensures DecodePosAsWritten(true, WorldPos(MakeWorldPosType(Vec3(1.0, 2.0, 3.0)))) == Success(NBlockPos(BlockPos(1, 2, 0)))
    ensures Decode(h, TPos(true), WorldPos(MakeWorldPosType(Vec3(1.0, 2.0, 3.0)))) == Success(NBlockPos(BlockPos(1, 2, 3)))
  {
  }

  /** The enum rule: a reflected enum reads a String by name; a Number is
      cast to the enum whatever its value. */
  function DecodeEnum(t: TypeDesc, dv: DynamicValue): (r: Result<Native, Error>)
    requires t.TEnum?
    ensures WfEnum(t.e) && r.Success? ==> WellTyped(t, r.value)
  {
    var e := t.e;
    if e.reflected && dv.Str? then
      match EnumCast(e.entries, dv.s)
      case None => Failure(MakeUnsupportedValueError(RawTypeName(AltString), dv.s, RawName(t), "can not cast to enum"))
      case Some(x) => Success(NEnum(x))
    else if dv.Number? then Success(NEnum(NumberGet(dv.n, e.underlying)))
    else Failure(TypeError(t, [AltString, AltNumber], dv))
  }

  /** The position-pair rule: position and dimension from either position
      alternative, the dimension cast to the pair's integer type. */
  function DecodePositionPair(t: TypeDesc, dv: DynamicValue): (r: Result<Native, Error>)
    requires t.TTuple? && PositionPairShape(t.elems)
    ensures r.Success? ==> WellTyped(t, r.value)
  {
    var block := t.elems[0].block;
    if dv.BlockPosV? then
      var pos := if block then NBlockPos(BlockPosGet(dv.bp)) else NVec3(BlockPosGetVec3(dv.bp));
      Success(NTuple([pos, DimFromInt(t.elems[1], dv.bp.dimId)]))
    else if dv.WorldPos? then
      var pos := if block then NBlockPos(WorldPosGetBlockPos(dv.w)) else NVec3(dv.w.pos);
      Success(NTuple([pos, DimFromInt(t.elems[1], dv.w.dimId)]))
    else Failure(TypeError(t, [AltBlockPos, AltWorldPos], dv))
  }

  /** The default-constructible tuple rule, element `i` on: the first failure
      is tagged with its index and ends decoding. */
  function DecodeTupleFrom(h: Hooks, t: TypeDesc, arr: seq<DynamicValue>, i: nat, acc: seq<Native>)
    : (r: Result<Native, Error>)
    requires t.TTuple? && |arr| == |t.elems| && i <= |arr| && |acc| == i
    ensures (WfType(t) && HooksWellTyped(h) && r.Success?
      && (forall j :: 0 <= j < i ==> WellTyped(t.elems[j], acc[j]))) ==> WellTyped(t, r.value)
    decreases t, 0, |arr| - i
  {
    if i == |arr| then Success(NTuple(acc))
    else
      var d := Decode(h, t.elems[i], arr[i]);
      if d.Failure? then Failure(MakeSerIndexError(i, d.error))
      else DecodeTupleFrom(h, t, arr, i + 1, acc + [d.value])
  }

  /** The tuple rule for tuples that are not default-constructible: no Array
      check and no length check; an index at or past `size()` yields an empty
      optional element or `IndexOutOfRange`, and indexing a value that is no
      Array throws. */
  function DecodeTupleLenient(h: Hooks, t: TypeDesc, dv: DynamicValue, i: nat, acc: seq<Native>)
    : (r: Result<Native, Error>)
    requires t.TTuple? && i <= |t.elems| && |acc| == i
    ensures (WfType(t) && HooksWellTyped(h) && r.Success?
      && (forall j :: 0 <= j < i ==> WellTyped(t.elems[j], acc[j]))) ==> WellTyped(t, r.value)
    decreases t, 0, |t.elems| - i
  {
    if i == |t.elems| then Success(NTuple(acc))
    else if Size(dv) > i then
      if !dv.Array? then Failure(Abort(NotArray))
      else
        var d := Decode(h, t.elems[i], dv.arr[i]);
        if d.Failure? then Failure(MakeSerIndexError(i, d.error))
        else DecodeTupleLenient(h, t, dv, i + 1, acc + [d.value])
    else if t.elems[i].TOptional? then DecodeTupleLenient(h, t, dv, i + 1, acc + [NOpt(None)])
    else Failure(MakeSerIndexError(i, MakeError(IndexOutOfRange, "index \"" + NatToString(i) + "\" outof range")))
  }

  /** The array-like rule, element `i` on. */
  function DecodeListFrom(h: Hooks, t: TypeDesc, arr: seq<DynamicValue>, i: nat, acc: seq<Native>)
    : (r: Result<Native, Error>)
    requires t.TList? && i <= |arr| && |acc| == i
    ensures (WfType(t) && HooksWellTyped(h) && r.Success?
      && (forall j :: 0 <= j < i ==> WellTyped(t.elem, acc[j]))) ==> WellTyped(t, r.value)
    decreases t, 0, |arr| - i
  {
    if i == |arr| then Success(NList(acc))
    else
      var d := Decode(h, t.elem, arr[i]);
      if d.Failure? then Failure(MakeSerIndexError(i, d.error))
      else DecodeListFrom(h, t, arr, i + 1, acc + [d.value])
  }

  /** The array-like rule for a set-like container (`std::set`,
      `std::unordered_set`), whose loop adds each element with `emplace` or
      `insert`: the same walk as `DecodeListFrom`, but an element equal to
      one already inserted is dropped. */
  function DecodeSetFrom(h: Hooks, t: TypeDesc, arr: seq<DynamicValue>, i: nat, acc: set<Native>)
    : (r: Result<set<Native>, Error>)
    requires t.TList? && i <= |arr|
    ensures r.Success? ==> acc <= r.value
    decreases |arr| - i
  {
    if i == |arr| then Success(acc)
    else
      var d := Decode(h, t.elem, arr[i]);
      if d.Failure? then Failure(MakeSerIndexError(i, d.error))
      else DecodeSetFrom(h, t, arr, i + 1, acc + {d.value})
  }

  /** The associative rule with string keys, over the Object's keys in order. */
  function DecodeStrMapFrom(h: Hooks, t: TypeDesc, obj: map<string, DynamicValue>, keys: seq<string>, i: nat,
                            acc: map<string, Native>): (r: Result<Native, Error>)
    requires t.TMap? && t.key.StringKey? && i <= |keys|
    requires forall k :: k in keys ==> k in obj
    ensures (WfType(t) && HooksWellTyped(h) && r.Success?
      && (forall k :: k in acc ==> WellTyped(t.val, acc[k]))) ==> WellTyped(t, r.value)
    decreases t, 0, |keys| - i
  {
    if i == |keys| then Success(NStrMap(acc))
    else
      var k := keys[i];
      var d := Decode(h, t.val, obj[k]);
      if d.Failure? then Failure(MakeSerKeyError(k, d.error))
      else DecodeStrMapFrom(h, t, obj, keys, i + 1, if k in acc then acc else acc[k := d.value])
  }

  /** The associative rule with enum keys: a key that names no value is
      `UnsupportedValue`; `try_emplace` keeps the first value of a key. */
  function DecodeEnumMapFrom(h: Hooks, t: TypeDesc, obj: map<string, DynamicValue>, keys: seq<string>, i: nat,
                             acc: map<int, Native>): (r: Result<Native, Error>)
    requires t.TMap? && t.key.EnumKey? && i <= |keys|
    requires forall k :: k in keys ==> k in obj
    ensures (WfType(t) && HooksWellTyped(h) && r.Success?
      && (forall x :: x in acc ==> InRange(t.key.e.underlying, x) && WellTyped(t.val, acc[x]))) ==> WellTyped(t, r.value)
    decreases t, 0, |keys| - i
  {
    if i == |keys| then Success(NEnumMap(acc))
    else
      var k := keys[i];
      match EnumCast(t.key.e.entries, k)
      case None =>
        Failure(MakeError(UnsupportedValue, "enum key '" + k + "' cannot parse as '" + "enum " + t.key.e.name + "'"))
      case Some(x) =>
        var d := Decode(h, t.val, obj[k]);
        if d.Failure? then Failure(MakeSerKeyError(k, d.error))
        else DecodeEnumMapFrom(h, t, obj, keys, i + 1, if x in acc then acc else acc[x := d.value])
  }

  /** The message of a missing required member. */
  function MissingField(name: string): string {
    "missing required field \"" + name + "\" when deserializing"
  }

  /** The struct rule from member `i` on: each member is read in order and
      the first failure stops the walk.  Extra keys are ignored. */
  function DecodeStructFrom(h: Hooks, t: TypeDesc, obj: map<string, DynamicValue>, i: nat, acc: seq<Native>)
    : (r: Result<Native, Error>)
    requires t.TStruct? && i <= |t.fields| && |acc| == i
    ensures (WfType(t) && HooksWellTyped(h) && r.Success?
      && (forall j :: 0 <= j < i ==> WellTyped(t.fields[j].t, acc[j]))) ==> WellTyped(t, r.value)
    decreases t, 0, |t.fields| - i
  {
    if i == |t.fields| then Success(NStruct(acc))
    else
      var d := DecodeMember(h, t, obj, i);
      if d.Failure? then Failure(d.error)
      else DecodeStructFrom(h, t, obj, i + 1, acc + [d.value])
  }

  /** One member of the struct rule.  A default-constructible struct keeps
      the initial value of a '$' member and reports a missing required
      member as `KeyNotFound`, untagged; any other struct reads every member
      and tags the missing one with its name.  A present key is decoded,
      failures tagged with the member; a missing optional member is empty. */
  function DecodeMember(h: Hooks, t: TypeDesc, obj: map<string, DynamicValue>, i: nat): (r: Result<Native, Error>)
    requires t.TStruct? && i < |t.fields|
    ensures WfType(t) && HooksWellTyped(h) && r.Success? ==> WellTyped(t.fields[i].t, r.value)
    decreases t, 0, 0
  {
    var f := t.fields[i];
    if t.structDefault && Hidden(f.name) then Success(f.init)
    else if f.name in obj then
      var d := Decode(h, f.t, obj[f.name]);
      if d.Failure? then Failure(MakeSerMemberError(f.name, d.error)) else Success(d.value)
    else if f.t.TOptional? then Success(NOpt(None))
    else if t.structDefault then Failure(MakeError(KeyNotFound, MissingField(f.name)))
    else Failure(MakeSerMemberError(f.name, MakeError(KeyNotFound, MissingField(f.name))))
  }
}
