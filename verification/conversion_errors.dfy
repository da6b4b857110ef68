/** Where each rule of the conversion engine fails, and with which reason:
    the leaf rules against the alternatives they accept, the container rules
    against the element that fails first, and the encoders against the only
    sources of failure they have. */
module ConversionErrors {

  import opened Wrappers
  import opened Strings
  import opened Ordering
  import opened Base
  import opened Values
  import opened ErrorUtils
  import opened DynamicValues
  import opened ConversionTypes
  import opened Conversions
  import opened ConversionLaws
  import opened MapLaws

  // ---------------------------------------------------------------------------
  // Leaf rules
  // ---------------------------------------------------------------------------

  /** The alternatives each leaf rule reads, listed per rule. */
  predicate Accepts(t: TypeDesc, a: Alt) {
    match t
    case TBool => a == AltBool
    case TString => a == AltString
    case TNullPtr => a == AltNull
    case TPtr(k) => a == HandleAlt(k) || a == AltNull
    case TStringLike(_) => a == AltString
    case TActorLike(_, player) => a == AltPlayer || (!player && a == AltActor)
    case TInt(_) => a == AltNumber
    case TPos(_) => a == AltBlockPos || a == AltWorldPos
    case TUnit => true
    case _ => false
  }

  /** A leaf rule succeeds exactly on the alternatives it accepts.  A
      pointer target reading Null yields a null pointer. */
  lemma LeafRule(h: Hooks, t: TypeDesc, dv: DynamicValue)
    requires IsLeaf(t)
    ensures Decode(h, t, dv).Success? <==> Accepts(t, AltOf(dv))
    ensures t.TPtr? && dv.Null? ==> Decode(h, t, dv) == Success(NPtr(NullAddr))
  {
    LeafIsDecodeLeaf(h, t, dv);
    LeafAccepts(t, dv);
  }

  lemma LeafIsDecodeLeaf(h: Hooks, t: TypeDesc, dv: DynamicValue)
    requires IsLeaf(t)
    ensures Decode(h, t, dv) == DecodeLeaf(t, dv)
  {
  }

  /** A leaf rule's failure is an untagged `UnexpectedType`. */
  lemma LeafFailure(h: Hooks, t: TypeDesc, dv: DynamicValue)
    requires IsLeaf(t) && !Accepts(t, AltOf(dv))
    ensures Decode(h, t, dv).Failure? && Decode(h, t, dv).error.Remote?
    ensures Decode(h, t, dv).error.err.reason == UnexpectedType && Decode(h, t, dv).error.err.fields == []
  {
    LeafRule(h, t, dv);
  }

  /** Each alternative is held by exactly one shape of value. */
  lemma AltOfInverse(dv: DynamicValue)
    ensures AltOf(dv) == AltNull <==> dv.Null?
    ensures AltOf(dv) == AltBool <==> dv.Bool?
    ensures AltOf(dv) == AltString <==> dv.Str?
    ensures AltOf(dv) == AltNumber <==> dv.Number?
    ensures AltOf(dv) == AltPlayer <==> dv.PlayerPtr?
    ensures AltOf(dv) == AltActor <==> dv.ActorPtr?
    ensures AltOf(dv) == AltWorldPos <==> dv.WorldPos?
    ensures AltOf(dv) == AltBlockPos <==> dv.BlockPosV?
  {
  }

  lemma LeafAccepts(t: TypeDesc, dv: DynamicValue)
    requires IsLeaf(t)
    ensures DecodeLeaf(t, dv).Success? <==> Accepts(t, AltOf(dv))
    ensures t.TPtr? && dv.Null? ==> DecodeLeaf(t, dv) == Success(NPtr(NullAddr))
  {
    if t.TPtr? {
      PointerAccepts(t, dv);
    } else if t.TActorLike? {
      ActorAccepts(t, dv);
    } else if t.TPos? {
      PositionAccepts(t, dv);
    } else {
      ScalarAccepts(t, dv);
    }
  }

  lemma PointerAccepts(t: TypeDesc, dv: DynamicValue)
    requires t.TPtr?
    ensures DecodeLeaf(t, dv).Success? <==> Accepts(t, AltOf(dv))
    ensures dv.Null? ==> DecodeLeaf(t, dv) == Success(NPtr(NullAddr))
  {
    assert HandleAlt(t.kind) != AltNull;
  }

  lemma ActorAccepts(t: TypeDesc, dv: DynamicValue)
    requires t.TActorLike?
    ensures DecodeLeaf(t, dv).Success? <==> Accepts(t, AltOf(dv))
  {
    AltOfInverse(dv);
  }

  lemma PositionAccepts(t: TypeDesc, dv: DynamicValue)
    requires t.TPos?
    ensures DecodeLeaf(t, dv).Success? <==> Accepts(t, AltOf(dv))
  {
    AltOfInverse(dv);
  }

  lemma ScalarAccepts(t: TypeDesc, dv: DynamicValue)
    requires t.TBool? || t.TString? || t.TNullPtr? || t.TStringLike? || t.TInt? || t.TUnit?
    ensures DecodeLeaf(t, dv).Success? <==> Accepts(t, AltOf(dv))
  {
    AltOfInverse(dv);
  }

  /** Every leaf encoder passes and writes an alternative its own decoder
      accepts; a pointer writes Null exactly when it is null. */
  lemma LeafEncoding(h: Hooks, t: TypeDesc, v: Native)
    requires IsLeaf(t) && WellTyped(t, v)
    ensures Encode(h, t, v).status.Pass?
    ensures Accepts(t, AltOf(Encode(h, t, v).dv))
    ensures t.TPtr? ==> (Encode(h, t, v).dv.Null? <==> v.addr == NullAddr)
    ensures t.TUnit? || t.TNullPtr? ==> Encode(h, t, v).dv == Null
  {
  }

  /** The enum rule: a reflected enum reads a String by name and reports an
      unknown name as `UnsupportedValue`; a Number is cast whatever its value;
      anything else is `UnexpectedType`. */
  lemma EnumDecode(h: Hooks, t: TypeDesc, dv: DynamicValue)
    requires t.TEnum?
    ensures t.e.reflected && dv.Str? ==>
      (Decode(h, t, dv).Success? <==> EnumCast(t.e.entries, dv.s).Some?)
      && (Decode(h, t, dv).Success? ==> Decode(h, t, dv).value == NEnum(EnumCast(t.e.entries, dv.s).value))
      && (Decode(h, t, dv).Failure? ==> ReasonOf(Decode(h, t, dv).error) == UnsupportedValue)
    ensures dv.Number? ==> Decode(h, t, dv) == Success(NEnum(NumberGet(dv.n, t.e.underlying)))
    ensures !dv.Number? && !(t.e.reflected && dv.Str?) ==>
      Decode(h, t, dv).Failure? && ReasonOf(Decode(h, t, dv).error) == UnexpectedType
  {
    EnumIsDecodeEnum(h, t, dv);
  }

  lemma EnumIsDecodeEnum(h: Hooks, t: TypeDesc, dv: DynamicValue)
    requires t.TEnum?
    ensures Decode(h, t, dv) == DecodeEnum(t, dv)
  {
  }

  /** An enum value is written as a Number that reads back as that value. */
  lemma EnumEncoding(h: Hooks, t: TypeDesc, v: Native)
    requires t.TEnum? && WellTyped(t, v)
    ensures Encode(h, t, v).status.Pass? && Encode(h, t, v).dv.Number?
    ensures NumberGet(Encode(h, t, v).dv.n, t.e.underlying) == v.ev
  {
    NumberRoundTrip(t.e.underlying, v.ev);
  }

  /** The position-pair rule reads either position alternative and nothing
      else. */
  lemma PositionPairDecode(h: Hooks, t: TypeDesc, dv: DynamicValue)
    requires t.TTuple? && Resolve(t) == PositionPairRule
    ensures Decode(h, t, dv).Success? <==> dv.BlockPosV? || dv.WorldPos?
    ensures Decode(h, t, dv).Failure? ==> ReasonOf(Decode(h, t, dv).error) == UnexpectedType
  {
  }

  // ---------------------------------------------------------------------------
  // Optional
  // ---------------------------------------------------------------------------

  /** Null reads as the empty optional; anything else reads the payload, and
      a failure of the payload is the optional's failure, unchanged. */
  lemma OptionalRule(h: Hooks, inner: TypeDesc, dv: DynamicValue)
    ensures dv.Null? ==> Decode(h, TOptional(inner), dv) == Success(NOpt(None))
    ensures !dv.Null? && Decode(h, inner, dv).Success? ==>
      Decode(h, TOptional(inner), dv) == Success(NOpt(Some(Decode(h, inner, dv).value)))
    ensures !dv.Null? && Decode(h, inner, dv).Failure? ==>
      Decode(h, TOptional(inner), dv) == Failure(Decode(h, inner, dv).error)
  {
    OptionalUnfold(h, inner, dv);
  }

  lemma OptionalUnfold(h: Hooks, inner: TypeDesc, dv: DynamicValue)
    ensures Decode(h, TOptional(inner), dv)
      == if dv.Null? then Success(NOpt(None))
         else if Decode(h, inner, dv).Failure? then Failure(Decode(h, inner, dv).error)
         else Success(NOpt(Some(Decode(h, inner, dv).value)))
  {
  }

  /** The empty optional writes Null; a present one writes its payload. */
  lemma OptionalEncoding(h: Hooks, inner: TypeDesc, v: Native)
    requires WellTyped(TOptional(inner), v)
    ensures v.opt.None? ==> Encode(h, TOptional(inner), v) == Encoded(Null, Pass)
    ensures v.opt.Some? ==> Encode(h, TOptional(inner), v) == Encode(h, inner, v.opt.value)
  {
  }

  // ---------------------------------------------------------------------------
  // Tuples and lists
  // ---------------------------------------------------------------------------

  /** The default-constructible tuple rule rejects a non-Array as
      `UnexpectedType` and an Array of the wrong length as `IndexOutOfRange`,
      before reading any element. */
  lemma TupleShapeErrors(h: Hooks, ts: seq<TypeDesc>, dv: DynamicValue)
    requires Resolve(TTuple(ts, true)) != PositionPairRule
    ensures !dv.Array? ==>
      Decode(h, TTuple(ts, true), dv).Failure? && ReasonOf(Decode(h, TTuple(ts, true), dv).error) == UnexpectedType
    ensures dv.Array? && |dv.arr| != |ts| ==>
      Decode(h, TTuple(ts, true), dv).Failure? && ReasonOf(Decode(h, TTuple(ts, true), dv).error) == IndexOutOfRange
  {
  }

  /** Elements `i` up to `k` all read, each with its own target type. */
  predicate ElemsDecode(h: Hooks, ts: seq<TypeDesc>, arr: seq<DynamicValue>, i: nat, k: nat)
    requires k <= |ts| && k <= |arr|
    decreases k - i
  {
    i >= k || (Decode(h, ts[i], arr[i]).Success? && ElemsDecode(h, ts, arr, i + 1, k))
  }

  /** The tuple loop from element `i` stops at the first element `k` that
      fails and reports it tagged `[k]`; it succeeds when no element fails. */
  lemma {:induction false} TupleFirstFailure(h: Hooks, t: TypeDesc, arr: seq<DynamicValue>, i: nat, acc: seq<Native>)
    returns (k: nat)
    requires t.TTuple? && |arr| == |t.elems| && i <= |arr| && |acc| == i
    ensures i <= k <= |arr| && ElemsDecode(h, t.elems, arr, i, k)
    ensures k == |arr| ==> DecodeTupleFrom(h, t, arr, i, acc).Success?
    ensures k < |arr| ==> (Decode(h, t.elems[k], arr[k]).Failure?
      && DecodeTupleFrom(h, t, arr, i, acc) == Failure(MakeSerIndexError(k, Decode(h, t.elems[k], arr[k]).error)))
    decreases |arr| - i
  {
    TupleStep(h, t, arr, i, acc);
    if i == |arr| || Decode(h, t.elems[i], arr[i]).Failure? {
      k := i;
    } else {
      k := TupleFirstFailure(h, t, arr, i + 1, acc + [Decode(h, t.elems[i], arr[i]).value]);
    }
  }

  /** One step of the tuple loop. */
  lemma TupleStep(h: Hooks, t: TypeDesc, arr: seq<DynamicValue>, i: nat, acc: seq<Native>)
    requires t.TTuple? && |arr| == |t.elems| && i <= |arr| && |acc| == i
    ensures DecodeTupleFrom(h, t, arr, i, acc)
      == if i == |arr| then Success(NTuple(acc))
         else if Decode(h, t.elems[i], arr[i]).Failure? then
           Failure(MakeSerIndexError(i, Decode(h, t.elems[i], arr[i]).error))
         else DecodeTupleFrom(h, t, arr, i + 1, acc + [Decode(h, t.elems[i], arr[i]).value])
  {
  }

  /** Elements `i` up to `k` are all optional. */
  predicate AllOptional(ts: seq<TypeDesc>, i: nat, k: nat)
    requires k <= |ts|
    decreases k - i
  {
    i >= k || (ts[i].TOptional? && AllOptional(ts, i + 1, k))
  }

  /** The tuple rule for tuples that are not default-constructible, on a
      value with no elements: it succeeds exactly when every remaining
      element is optional, and otherwise reports `IndexOutOfRange` tagged
      with the first non-optional index. */
  lemma {:induction false} LenientEmpty(h: Hooks, t: TypeDesc, dv: DynamicValue, i: nat, acc: seq<Native>)
    returns (k: nat)
    requires t.TTuple? && i <= |t.elems| && |acc| == i && Size(dv) == 0
    ensures i <= k <= |t.elems| && AllOptional(t.elems, i, k)
    ensures k == |t.elems| ==> DecodeTupleLenient(h, t, dv, i, acc).Success?
    ensures k < |t.elems| ==> (!t.elems[k].TOptional? && DecodeTupleLenient(h, t, dv, i, acc)
      == Failure(MakeSerIndexError(k, MakeError(IndexOutOfRange, "index \"" + NatToString(k) + "\" outof range"))))
    decreases |t.elems| - i
  {
    LenientEmptyStep(h, t, dv, i, acc);
    if i == |t.elems| || !t.elems[i].TOptional? {
      k := i;
    } else {
      k := LenientEmpty(h, t, dv, i + 1, acc + [NOpt(None)]);
    }
  }

  /** One step of the lenient tuple loop on a value with no elements. */
  lemma LenientEmptyStep(h: Hooks, t: TypeDesc, dv: DynamicValue, i: nat, acc: seq<Native>)
    requires t.TTuple? && i <= |t.elems| && |acc| == i && Size(dv) == 0
    ensures DecodeTupleLenient(h, t, dv, i, acc)
      == if i == |t.elems| then Success(NTuple(acc))
         else if t.elems[i].TOptional? then DecodeTupleLenient(h, t, dv, i + 1, acc + [NOpt(None)])
         else Failure(MakeSerIndexError(i, MakeError(IndexOutOfRange, "index \"" + NatToString(i) + "\" outof range")))
  {
  }

  /** The same rule never looks past its arity: elements after the last are
      ignored. */
  lemma {:induction false} LenientIgnoresExtra(h: Hooks, t: TypeDesc, a: seq<DynamicValue>, extra: seq<DynamicValue>,
                                               i: nat, acc: seq<Native>)
    requires t.TTuple? && |a| == |t.elems| && i <= |a| && |acc| == i
    ensures DecodeTupleLenient(h, t, Array(a + extra), i, acc) == DecodeTupleLenient(h, t, Array(a), i, acc)
    decreases |a| - i
  {
    if i < |a| {
      assert (a + extra)[i] == a[i];
      var d := Decode(h, t.elems[i], a[i]);
      if d.Success? {
        LenientIgnoresExtra(h, t, a, extra, i + 1, acc + [d.value]);
      }
    }
  }

  /** The array-like rule rejects a non-Array as `UnexpectedType`. */
  lemma ListShapeError(h: Hooks, t: TypeDesc, dv: DynamicValue)
    requires t.TList? && !dv.Array?
    ensures Decode(h, t, dv).Failure? && ReasonOf(Decode(h, t, dv).error) == UnexpectedType
  {
  }

  /** Elements `i` up to `k` all read as `e`. */
  predicate ListDecodes(h: Hooks, e: TypeDesc, arr: seq<DynamicValue>, i: nat, k: nat)
    requires k <= |arr|
    decreases k - i
  {
    i >= k || (Decode(h, e, arr[i]).Success? && ListDecodes(h, e, arr, i + 1, k))
  }

  /** The array-like loop stops at the first element `k` that fails and
      reports it tagged `[k]`; it succeeds when no element fails. */
  lemma {:induction false} ListFirstFailure(h: Hooks, t: TypeDesc, arr: seq<DynamicValue>, i: nat, acc: seq<Native>)
    returns (k: nat)
    requires t.TList? && i <= |arr| && |acc| == i
    ensures i <= k <= |arr| && ListDecodes(h, t.elem, arr, i, k)
    ensures k == |arr| ==> DecodeListFrom(h, t, arr, i, acc).Success?
    ensures k < |arr| ==> (Decode(h, t.elem, arr[k]).Failure?
      && DecodeListFrom(h, t, arr, i, acc) == Failure(MakeSerIndexError(k, Decode(h, t.elem, arr[k]).error)))
    decreases |arr| - i
  {
    ListStep(h, t, arr, i, acc);
    if i == |arr| || Decode(h, t.elem, arr[i]).Failure? {
      k := i;
    } else {
      k := ListFirstFailure(h, t, arr, i + 1, acc + [Decode(h, t.elem, arr[i]).value]);
    }
  }

  /** One step of the array-like loop. */
  lemma ListStep(h: Hooks, t: TypeDesc, arr: seq<DynamicValue>, i: nat, acc: seq<Native>)
    requires t.TList? && i <= |arr| && |acc| == i
    ensures DecodeListFrom(h, t, arr, i, acc)
      == if i == |arr| then Success(NList(acc))
         else if Decode(h, t.elem, arr[i]).Failure? then Failure(MakeSerIndexError(i, Decode(h, t.elem, arr[i]).error))
         else DecodeListFrom(h, t, arr, i + 1, acc + [Decode(h, t.elem, arr[i]).value])
  {
  }

  /** The elements of a sequence, duplicates merged. */
  function Elems(vs: seq<Native>): set<Native> {
    set x | x in vs
  }

  /** The set-like loop fails exactly where the sequence loop fails, with
      the same error, and otherwise holds exactly the sequence's elements
      with duplicates merged. */
  lemma {:induction false} SetDecodeIsListDecode(h: Hooks, t: TypeDesc, arr: seq<DynamicValue>, i: nat,
                                                acc: seq<Native>)
    requires t.TList? && i <= |arr| && |acc| == i
    ensures var l := DecodeListFrom(h, t, arr, i, acc);
      var s := DecodeSetFrom(h, t, arr, i, Elems(acc));
      && (s.Success? <==> l.Success?)
      && (s.Failure? ==> s.error == l.error)
      && (s.Success? ==> l.value.NList? && s.value == Elems(l.value.lvals))
    decreases |arr| - i
  {
    ListStep(h, t, arr, i, acc);
    if i < |arr| && Decode(h, t.elem, arr[i]).Success? {
      var x := Decode(h, t.elem, arr[i]).value;
      assert Elems(acc + [x]) == Elems(acc) + {x};
      SetDecodeIsListDecode(h, t, arr, i + 1, acc + [x]);
    }
  }

  /** `Array[1, 1]` decodes to two elements in a sequence container and to
      one in a set-like container. */
  lemma SetDropsDuplicates(h: Hooks)
    ensures DecodeListFrom(h, TList(TInt(Int)), [Number(NumberType(1)), Number(NumberType(1))], 0, [])
      == Success(NList([NInt(1), NInt(1)]))
    ensures DecodeSetFrom(h, TList(TInt(Int)), [Number(NumberType(1)), Number(NumberType(1))], 0, {})
      == Success({NInt(1)})
  {
    var t := TList(TInt(Int));
    var one := Number(NumberType(1));
    var arr := [one, one];
    WrapInRange(Int, 1);
    assert Decode(h, TInt(Int), one) == Success(NInt(1));
    ListStep(h, t, arr, 0, []);
    ListStep(h, t, arr, 1, [NInt(1)]);
    ListStep(h, t, arr, 2, [NInt(1), NInt(1)]);
    assert arr[0] == one && arr[1] == one;
    assert [] + [NInt(1)] == [NInt(1)];
    assert [NInt(1)] + [NInt(1)] == [NInt(1), NInt(1)];
    assert {} + {NInt(1)} == {NInt(1)};
    assert DecodeSetFrom(h, t, arr, 0, {}) == DecodeSetFrom(h, t, arr, 1, {NInt(1)});
    assert {NInt(1)} + {NInt(1)} == {NInt(1)};
    assert DecodeSetFrom(h, t, arr, 1, {NInt(1)}) == DecodeSetFrom(h, t, arr, 2, {NInt(1)});
  }

  // ---------------------------------------------------------------------------
  // Maps
  // ---------------------------------------------------------------------------

  /** The associative rule rejects a non-Object as `UnexpectedType`. */
  lemma MapShapeError(h: Hooks, t: TypeDesc, dv: DynamicValue)
    requires t.TMap? && !dv.Object?
    ensures Decode(h, t, dv).Failure? && ReasonOf(Decode(h, t, dv).error) == UnexpectedType
  {
  }

  /** The values under keys `i` up to `k` all read as `e`. */
  predicate ValuesDecode(h: Hooks, e: TypeDesc, obj: map<string, DynamicValue>, keys: seq<string>, i: nat, k: nat)
    requires k <= |keys|
    decreases k - i
  {
    i >= k || (keys[i] in obj && Decode(h, e, obj[keys[i]]).Success? && ValuesDecode(h, e, obj, keys, i + 1, k))
  }

  /** The string-keyed loop stops at the first key whose value fails and
      reports it tagged `["key"]`; it succeeds when no value fails. */
  lemma {:induction false} StrMapFirstFailure(h: Hooks, t: TypeDesc, obj: map<string, DynamicValue>, keys: seq<string>,
                                              i: nat, acc: map<string, Native>) returns (k: nat)
    requires t.TMap? && t.key.StringKey? && i <= |keys|
    requires forall x :: x in keys ==> x in obj
    ensures i <= k <= |keys| && ValuesDecode(h, t.val, obj, keys, i, k)
    ensures k == |keys| ==> DecodeStrMapFrom(h, t, obj, keys, i, acc).Success?
    ensures k < |keys| ==> (Decode(h, t.val, obj[keys[k]]).Failure?
      && DecodeStrMapFrom(h, t, obj, keys, i, acc)
         == Failure(MakeSerKeyError(keys[k], Decode(h, t.val, obj[keys[k]]).error)))
    decreases |keys| - i
  {
    StrMapStep(h, t, obj, keys, i, acc);
    if i == |keys| || Decode(h, t.val, obj[keys[i]]).Failure? {
      k := i;
    } else {
      var d := Decode(h, t.val, obj[keys[i]]);
      k := StrMapFirstFailure(h, t, obj, keys, i + 1, if keys[i] in acc then acc else acc[keys[i] := d.value]);
    }
  }

  /** One step of the string-keyed loop. */
  lemma StrMapStep(h: Hooks, t: TypeDesc, obj: map<string, DynamicValue>, keys: seq<string>, i: nat,
                   acc: map<string, Native>)
    requires t.TMap? && t.key.StringKey? && i <= |keys|
    requires forall x :: x in keys ==> x in obj
    ensures i < |keys| ==> (DecodeStrMapFrom(h, t, obj, keys, i, acc)
      == (var d := Decode(h, t.val, obj[keys[i]]);
          if d.Failure? then Failure(MakeSerKeyError(keys[i], d.error))
          else DecodeStrMapFrom(h, t, obj, keys, i + 1, if keys[i] in acc then acc else acc[keys[i] := d.value])))
    ensures i == |keys| ==> DecodeStrMapFrom(h, t, obj, keys, i, acc) == Success(NStrMap(acc))
  {
  }

  /** When every value reads, an enum-keyed loop that meets a key naming no
      value of the enum fails with `UnsupportedValue`. */
  lemma {:induction false} EnumMapUnknownKey(h: Hooks, t: TypeDesc, obj: map<string, DynamicValue>, keys: seq<string>,
                                             i: nat, acc: map<int, Native>, bad: nat)
    requires t.TMap? && t.key.EnumKey? && i <= bad < |keys|
    requires forall x :: x in keys ==> x in obj
    requires forall x :: x in obj ==> Decode(h, t.val, obj[x]).Success?
    requires EnumCast(t.key.e.entries, keys[bad]).None?
    ensures DecodeEnumMapFrom(h, t, obj, keys, i, acc).Failure?
    ensures ReasonOf(DecodeEnumMapFrom(h, t, obj, keys, i, acc).error) == UnsupportedValue
    decreases |keys| - i
  {
    var cast := EnumCast(t.key.e.entries, keys[i]);
    if cast.Some? {
      var x := cast.value;
      var d := Decode(h, t.val, obj[keys[i]]);
      EnumMapUnknownKey(h, t, obj, keys, i + 1, if x in acc then acc else acc[x := d.value], bad);
    }
  }

  /** An Object with a key that names no value of the enum does not decode
      into an enum-keyed map, and when its values all read the reason is
      `UnsupportedValue`. */
  lemma EnumMapRejectsUnknownName(h: Hooks, t: TypeDesc, obj: map<string, DynamicValue>, name: string)
    requires t.TMap? && t.key.EnumKey?
    requires name in obj && EnumCast(t.key.e.entries, name).None?
    requires forall x :: x in obj ==> Decode(h, t.val, obj[x]).Success?
    ensures Decode(h, t, Object(obj)).Failure?
    ensures ReasonOf(Decode(h, t, Object(obj)).error) == UnsupportedValue
  {
    var keys := SortedStrings(obj.Keys);
    var bad := IndexOf(keys, name);
    EnumMapUnfold(h, t, obj);
    EnumMapUnknownKey(h, t, obj, keys, 0, map[], bad);
  }

  lemma IndexOf(s: seq<string>, x: string) returns (i: nat)
    requires x in s
    ensures i < |s| && s[i] == x
  {
    i :| 0 <= i < |s| && s[i] == x;
  }

  lemma EnumMapUnfold(h: Hooks, t: TypeDesc, obj: map<string, DynamicValue>)
    requires t.TMap? && t.key.EnumKey?
    ensures Decode(h, t, Object(obj)) == DecodeEnumMapFrom(h, t, obj, SortedStrings(obj.Keys), 0, map[])
  {
  }

  // ---------------------------------------------------------------------------
  // Reflectable structs
  // ---------------------------------------------------------------------------

  /** The struct rule rejects a non-Object as `UnexpectedType`. */
  lemma StructShapeError(h: Hooks, t: TypeDesc, dv: DynamicValue)
    requires t.TStruct? && !dv.Object?
    ensures Decode(h, t, dv).Failure? && ReasonOf(Decode(h, t, dv).error) == UnexpectedType
  {
  }

  /** One member: a missing optional member is empty, a missing required
      member is `KeyNotFound`, and a present member that fails keeps its
      reason, tagged with the member's name. */
  lemma MemberRule(h: Hooks, t: TypeDesc, obj: map<string, DynamicValue>, i: nat)
    requires t.TStruct? && i < |t.fields|
    requires !(t.structDefault && Hidden(t.fields[i].name))
    ensures var f := t.fields[i]; var r := DecodeMember(h, t, obj, i);
      (f.name !in obj && f.t.TOptional? ==> r == Success(NOpt(None)))
      && (f.name !in obj && !f.t.TOptional? ==> r.Failure? && ReasonOf(r.error) == KeyNotFound)
      && (f.name in obj ==> (r.Success? <==> Decode(h, f.t, obj[f.name]).Success?))
      && (f.name in obj && r.Failure? ==>
            r == Failure(MakeSerMemberError(f.name, Decode(h, f.t, obj[f.name]).error))
            && ReasonOf(r.error) == ReasonOf(Decode(h, f.t, obj[f.name]).error))
  {
  }

  /** Members `i` up to `k` all read. */
  predicate MembersDecode(h: Hooks, t: TypeDesc, obj: map<string, DynamicValue>, i: nat, k: nat)
    requires t.TStruct? && k <= |t.fields|
    decreases k - i
  {
    i >= k || (DecodeMember(h, t, obj, i).Success? && MembersDecode(h, t, obj, i + 1, k))
  }

  /** The struct loop stops at the first member that fails and reports that
      member's failure; it succeeds when no member fails. */
  lemma {:induction false} StructFirstFailure(h: Hooks, t: TypeDesc, obj: map<string, DynamicValue>, i: nat,
                                              acc: seq<Native>) returns (k: nat)
    requires t.TStruct? && i <= |t.fields| && |acc| == i
    ensures i <= k <= |t.fields| && MembersDecode(h, t, obj, i, k)
    ensures k == |t.fields| ==> DecodeStructFrom(h, t, obj, i, acc).Success?
    ensures k < |t.fields| ==> (DecodeMember(h, t, obj, k).Failure?
      && DecodeStructFrom(h, t, obj, i, acc) == Failure(DecodeMember(h, t, obj, k).error))
    decreases |t.fields| - i
  {
    StructStep(h, t, obj, i, acc);
    if i == |t.fields| || DecodeMember(h, t, obj, i).Failure? {
      k := i;
    } else {
      k := StructFirstFailure(h, t, obj, i + 1, acc + [DecodeMember(h, t, obj, i).value]);
    }
  }

  /** One step of the struct loop. */
  lemma StructStep(h: Hooks, t: TypeDesc, obj: map<string, DynamicValue>, i: nat, acc: seq<Native>)
    requires t.TStruct? && i <= |t.fields| && |acc| == i
    ensures DecodeStructFrom(h, t, obj, i, acc)
      == if i == |t.fields| then Success(NStruct(acc))
         else if DecodeMember(h, t, obj, i).Failure? then Failure(DecodeMember(h, t, obj, i).error)
         else DecodeStructFrom(h, t, obj, i + 1, acc + [DecodeMember(h, t, obj, i).value])
  {
  }

  /** Keys that name no member change nothing: extra keys are ignored. */
  lemma {:induction false} StructIgnoresExtraKeys(h: Hooks, t: TypeDesc, obj: map<string, DynamicValue>,
                                                  extra: map<string, DynamicValue>, i: nat, acc: seq<Native>)
    requires t.TStruct? && i <= |t.fields| && |acc| == i
    requires forall j :: 0 <= j < |t.fields| ==> t.fields[j].name !in extra
    ensures DecodeStructFrom(h, t, obj + extra, i, acc) == DecodeStructFrom(h, t, obj, i, acc)
    decreases |t.fields| - i
  {
    if i < |t.fields| {
      var name := t.fields[i].name;
      assert (name in obj + extra) == (name in obj);
      assert name in obj ==> (obj + extra)[name] == obj[name];
      assert DecodeMember(h, t, obj + extra, i) == DecodeMember(h, t, obj, i);
      var d := DecodeMember(h, t, obj, i);
      if d.Success? {
        StructIgnoresExtraKeys(h, t, obj, extra, i + 1, acc + [d.value]);
      }
    }
  }

  // ---------------------------------------------------------------------------
  // Encoders: the only failures
  // ---------------------------------------------------------------------------

  /** Types with no user converter anywhere inside. */
  predicate NoUser(t: TypeDesc)
    decreases t
  {
    match t
    case TUser(_, _) => false
    case TOptional(inner) => NoUser(inner)
    case TTuple(ts, _) => forall i :: 0 <= i < |ts| ==> NoUser(ts[i])
    case TList(e) => NoUser(e)
    case TMap(_, e) => NoUser(e)
    case TStruct(_, fs, _) => forall i :: 0 <= i < |fs| ==> NoUser(fs[i].t)
    case _ => true
  }

  /** The built-in encoders never fail: a failure of `toDynamic` comes from
      a user converter or from enum keys that render alike. */
  lemma {:induction false} BuiltInEncodeNeverFails(h: Hooks, t: TypeDesc, v: Native)
    requires WfType(t) && WellTyped(t, v) && NoUser(t) && NamedKeys(t, v)
    ensures Encode(h, t, v).status.Pass?
    decreases t, 1
  {
    match t
    case TOptional(inner) =>
      if v.opt.Some? {
        BuiltInEncodeNeverFails(h, inner, v.opt.value);
      }
      OptionalEncoding(h, inner, v);
    case TTuple(_, _) => TupleEncodeNeverFails(h, t, v);
    case TList(_) => ListEncodeNeverFails(h, t, v);
    case TMap(_, _) => MapEncodeNeverFails(h, t, v);
    case TStruct(_, _, _) => StructEncodeNeverFails(h, t, v);
    case TEnum(_) => EnumEncoding(h, t, v);
    case TBool => LeafEncoding(h, t, v);
    case TString => LeafEncoding(h, t, v);
    case TNullPtr => LeafEncoding(h, t, v);
    case TPtr(_) => LeafEncoding(h, t, v);
    case TStringLike(_) => LeafEncoding(h, t, v);
    case TActorLike(_, _) => LeafEncoding(h, t, v);
    case TInt(_) => LeafEncoding(h, t, v);
    case TPos(_) => LeafEncoding(h, t, v);
    case TUnit => LeafEncoding(h, t, v);
  }

  lemma {:induction false} TupleEncodeNeverFails(h: Hooks, t: TypeDesc, v: Native)
    requires t.TTuple? && WfType(t) && WellTyped(t, v) && NoUser(t) && NamedKeys(t, v)
    ensures Encode(h, t, v).status.Pass?
    decreases t, 0
  {
    if Resolve(t) != PositionPairRule {
      forall j | 0 <= j < |t.elems|
        ensures Encode(h, t.elems[j], v.tvals[j]).status.Pass?
      {
        BuiltInEncodeNeverFails(h, t.elems[j], v.tvals[j]);
      }
      TupleEncodeStatus(h, t, v.tvals, 0, [], Pass);
    }
  }

  lemma {:induction false} ListEncodeNeverFails(h: Hooks, t: TypeDesc, v: Native)
    requires t.TList? && WfType(t) && WellTyped(t, v) && NoUser(t) && NamedKeys(t, v)
    ensures Encode(h, t, v).status.Pass?
    decreases t, 0
  {
    forall j | 0 <= j < |v.lvals|
      ensures Encode(h, t.elem, v.lvals[j]).status.Pass?
    {
      BuiltInEncodeNeverFails(h, t.elem, v.lvals[j]);
    }
    ListEncodeShape(h, t, v.lvals, 0, []);
  }

  lemma {:induction false} MapEncodeNeverFails(h: Hooks, t: TypeDesc, v: Native)
    requires t.TMap? && WfType(t) && WellTyped(t, v) && NoUser(t) && NamedKeys(t, v)
    ensures Encode(h, t, v).status.Pass?
    decreases t, 0
  {
    if t.key.StringKey? {
      forall s | s in v.smap
        ensures Encode(h, t.val, v.smap[s]).status.Pass?
      {
        BuiltInEncodeNeverFails(h, t.val, v.smap[s]);
      }
      StrMapEncoded(h, t, v);
    } else {
      forall x | x in v.emap
        ensures Encode(h, t.val, v.emap[x]).status.Pass?
      {
        BuiltInEncodeNeverFails(h, t.val, v.emap[x]);
      }
      EnumMapEncoded(h, t, v);
    }
  }

  lemma {:induction false} StructEncodeNeverFails(h: Hooks, t: TypeDesc, v: Native)
    requires t.TStruct? && WfType(t) && WellTyped(t, v) && NoUser(t) && NamedKeys(t, v)
    ensures Encode(h, t, v).status.Pass?
    decreases t, 0
  {
    forall j | 0 <= j < |t.fields|
      ensures Encode(h, t.fields[j].t, v.fvals[j]).status.Pass?
    {
      BuiltInEncodeNeverFails(h, t.fields[j].t, v.fvals[j]);
    }
    StructEncodePasses(h, t, v.fvals, 0, map[]);
  }

  /** The struct loop passes when every member it writes passes. */
  lemma {:induction false} StructEncodePasses(h: Hooks, t: TypeDesc, vs: seq<Native>, i: nat,
                                              obj: map<string, DynamicValue>)
    requires t.TStruct? && |vs| == |t.fields| && i <= |vs|
    requires forall j :: 0 <= j < |vs| ==> WellTyped(t.fields[j].t, vs[j])
    requires forall j :: i <= j < |vs| ==> Encode(h, t.fields[j].t, vs[j]).status.Pass?
    ensures EncodeStructFrom(h, t, vs, i, obj, Pass).status.Pass?
    decreases |vs| - i
  {
    if i < |vs| {
      var f := t.fields[i];
      if Hidden(f.name) {
        StructEncodePasses(h, t, vs, i + 1, obj);
      } else {
        StructEncodePasses(h, t, vs, i + 1, obj[f.name := Encode(h, f.t, vs[i]).dv]);
      }
    }
  }
}
