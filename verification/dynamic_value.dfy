/** `DynamicValue` (value/DynamicValue.h): the tagged tree every call is
    marshalled through.  The thirteen element alternatives of Base.h:66-70 and
    the two containers of Base.h:34-35 are flattened into one datatype; the
    four raw-pointer handles keep their address, with 0 standing for
    `nullptr`.

    The C++ accessors throw `std::runtime_error` (or `std::out_of_range` from
    `unordered_map::at`/`vector::at`) on misuse; here they return `Abort`.
    Mutable accessors return the updated value together with the addressed
    slot, since there are no references. */
module DynamicValues {

  import opened Wrappers
  import opened Base
  import opened Values
  import opened ErrorUtils

  datatype DynamicValue =
    | Null
    | Bool(b: bool)
    | Str(s: string)
    | Number(n: NumberType)
    | PlayerPtr(player: Addr)
    | ActorPtr(actor: Addr)
    | BlockActorPtr(blockActor: Addr)
    | ContainerPtr(container: Addr)
    | WorldPos(w: WorldPosType)
    | BlockPosV(bp: BlockPosType)
    | Item(item: MayUniquePtr)
    | Block(block: BlockType)
    | Nbt(nbt: MayUniquePtr)
    | Array(arr: seq<DynamicValue>)
    | Object(obj: map<string, DynamicValue>)

  /** The alternative `dv` holds (`hold<T>()` is `AltOf(dv) == T`). */
  function AltOf(dv: DynamicValue): Alt {
    match dv
    case Null => AltNull
    case Bool(_) => AltBool
    case Str(_) => AltString
    case Number(_) => AltNumber
    case PlayerPtr(_) => AltPlayer
    case ActorPtr(_) => AltActor
    case BlockActorPtr(_) => AltBlockActor
    case ContainerPtr(_) => AltContainer
    case WorldPos(_) => AltWorldPos
    case BlockPosV(_) => AltBlockPos
    case Item(_) => AltItem
    case Block(_) => AltBlock
    case Nbt(_) => AltNbt
    case Array(_) => AltArray
    case Object(_) => AltObject
  }

  /** The default-constructed value, and `object()` / `array()`. */
  function Default(): (r: DynamicValue)
    ensures AltOf(r) == AltNull && Size(r) == 0
  {
    Null
  }

  function EmptyObject(): (r: DynamicValue)
    ensures AltOf(r) == AltObject && Size(r) == 0
  {
    Object(map[])
  }

  function EmptyArray(): (r: DynamicValue)
    ensures AltOf(r) == AltArray && Size(r) == 0
  {
    Array([])
  }

  /** `size()`: 0 for Null, 1 for every other element (a null handle included),
      the element count of a container. */
  function Size(dv: DynamicValue): (r: nat)
    ensures IsElement(AltOf(dv)) ==> (r == 0 <==> dv.Null?)
    ensures IsElement(AltOf(dv)) ==> r <= 1
    ensures dv.Array? ==> r == |dv.arr|
    ensures dv.Object? ==> r == |dv.obj|
  {
    match dv
    case Null => 0
    case Array(a) => |a|
    case Object(o) => |o|
    case _ => 1
  }

  /** `contains(key)`: false on anything but an Object. */
  function Contains(dv: DynamicValue, key: string): (r: bool)
    ensures r ==> AltOf(dv) == AltObject
    ensures dv.Object? ==> (r <==> key in dv.obj)
  {
    dv.Object? && key in dv.obj
  }

  const NotObject: string := "value not hold an object"
  const NotArray: string := "value not hold an array"

  /** Const `operator[](key)`: the entry of an Object; `at` throws on a
      missing key. */
  function KeyConst(dv: DynamicValue, key: string): (r: Result<DynamicValue, Error>)
    ensures r.Success? <==> Contains(dv, key)
    ensures r.Success? ==> r.value == dv.obj[key]
    ensures r.Failure? ==> r.error.Abort?
  {
    if !dv.Object? then Failure(Abort(NotObject))
    else if key !in dv.obj then Failure(Abort("unordered_map::at"))
    else Success(dv.obj[key])
  }

  /** The value after a mutable access together with the addressed slot. */
  datatype Slot = Slot(updated: DynamicValue, slot: DynamicValue)

  /** Mutable `operator[](key)`: a Null first becomes an empty Object; a
      missing key is inserted as Null. */
  function KeyMut(dv: DynamicValue, key: string): (r: Result<Slot, Error>)
    ensures r.Success? <==> (dv.Null? || dv.Object?)
    ensures r.Failure? ==> r.error == Abort(NotObject)
    ensures r.Success? ==> (r.value.updated.Object? && key in r.value.updated.obj
      && r.value.slot == r.value.updated.obj[key])
    ensures r.Success? && dv.Object? && key in dv.obj ==> r.value.updated == dv
    ensures r.Success? && dv.Object? && key !in dv.obj ==>
      r.value.updated.obj == dv.obj[key := Null]
    ensures r.Success? && dv.Null? ==> r.value.updated == Object(map[key := Null])
  {
    match dv
    case Null => Success(Slot(Object(map[key := Null]), Null))
    case Object(o) =>
      if key in o then Success(Slot(dv, o[key]))
      else Success(Slot(Object(o[key := Null]), Null))
    case _ => Failure(Abort(NotObject))
  }

  /** `dv[key] = v`: a mutable access followed by an assignment to the slot. */
  function SetKey(dv: DynamicValue, key: string, v: DynamicValue): (r: Result<DynamicValue, Error>)
    ensures r.Success? <==> (dv.Null? || dv.Object?)
    ensures r.Success? ==> r.value.Object? && key in r.value.obj && r.value.obj[key] == v
    ensures r.Success? && dv.Object? ==> r.value.obj == dv.obj[key := v]
    ensures r.Success? && dv.Null? ==> r.value.obj == map[key := v]
  {
    match dv
    case Null => Success(Object(map[key := v]))
    case Object(o) => Success(Object(o[key := v]))
    case _ => Failure(Abort(NotObject))
  }

  /** The key a string literal of the source addresses: `operator[](const
      char (&)[N])` builds a view of all N characters, so the terminating NUL
      is part of the key. */
  function LiteralKey(literal: string): (k: string)
    ensures |k| == |literal| + 1 && k[..|literal|] == literal && k[|literal|] == '\0'
  {
    literal + ['\0']
  }

  /** `items()`: the entries of an Object. */
  function Items(dv: DynamicValue): (r: Result<map<string, DynamicValue>, Error>)
    ensures r.Success? <==> dv.Object?
    ensures r.Success? ==> r.value == dv.obj && |r.value| == Size(dv)
    ensures r.Failure? ==> r.error == Abort(NotObject)
  {
    if dv.Object? then Success(dv.obj) else Failure(Abort(NotObject))
  }

  /** Const `operator[](index)`: bounds-checked by `vector::at`. */
  function IndexConst(dv: DynamicValue, i: nat): (r: Result<DynamicValue, Error>)
    ensures r.Success? <==> (dv.Array? && i < |dv.arr|)
    ensures r.Success? ==> r.value == dv.arr[i]
    ensures !dv.Array? ==> r == Failure(Abort(NotArray))
  {
    if !dv.Array? then Failure(Abort(NotArray))
    else if i >= |dv.arr| then Failure(Abort("vector::at"))
    else Success(dv.arr[i])
  }

  /** Mutable `operator[](index)`: unchecked `vector::operator[]`, so an
      in-bounds index is the caller's obligation on an Array. */
  function IndexMut(dv: DynamicValue, i: nat): (r: Result<DynamicValue, Error>)
    requires dv.Array? ==> i < |dv.arr|
    ensures r.Success? <==> dv.Array?
    ensures r.Success? ==> r.value == dv.arr[i]
    ensures r.Failure? ==> r.error == Abort(NotArray)
  {
    if dv.Array? then Success(dv.arr[i]) else Failure(Abort(NotArray))
  }

  /** `emplace_back(v)`: a Null first becomes an empty Array. */
  function EmplaceBack(dv: DynamicValue, v: DynamicValue): (r: Result<DynamicValue, Error>)
    ensures r.Success? <==> (dv.Null? || dv.Array?)
    ensures r.Success? ==> r.value.Array? && |r.value.arr| == Size(dv) + 1
    ensures r.Success? ==> r.value.arr[Size(dv)] == v
    ensures r.Success? && dv.Array? ==> r.value.arr[..|dv.arr|] == dv.arr
    ensures r.Failure? ==> r.error.Abort?
  {
    match dv
    case Null => Success(Array([v]))
    case Array(a) => Success(Array(a + [v]))
    case _ => Failure(Abort(""))
  }

  /** The alternatives whose C++ type can be copied out by `getTo`
      (`MayUniquePtr` and the containers are move-only). */
  predicate Copyable(a: Alt) {
    IsElement(a) && a != AltItem && a != AltNbt
  }

  /** A null handle of the pointer alternative `a`. */
  function NullHandle(a: Alt): (r: DynamicValue)
    requires IsPointer(a)
    ensures AltOf(r) == a
  {
    match a
    case AltPlayer => PlayerPtr(NullAddr)
    case AltActor => ActorPtr(NullAddr)
    case AltBlockActor => BlockActorPtr(NullAddr)
    case AltContainer => ContainerPtr(NullAddr)
  }

  /** `getTo<T>(out)` for an element alternative `T`: a pointer target reading
      Null yields a null pointer, the same alternative is copied out, anything
      else is `UnexpectedType`. */
  function GetTo(dv: DynamicValue, target: Alt): (r: Result<DynamicValue, Error>)
    requires Copyable(target)
    ensures r.Success? <==> (AltOf(dv) == target || (IsPointer(target) && dv.Null?))
    ensures r.Success? ==> AltOf(r.value) == target
    ensures r.Success? && AltOf(dv) == target ==> r.value == dv
    ensures r.Failure? ==> r.error == MakeFromDynamicTypeError(RawTypeName(target), [target], AltOf(dv))
  {
    if IsPointer(target) && dv.Null? then Success(NullHandle(target))
    else if AltOf(dv) == target then Success(dv)
    else Failure(MakeFromDynamicTypeError(RawTypeName(target), [target], AltOf(dv)))
  }

  // ---------------------------------------------------------------------------
  // Properties relating the accessors
  // ---------------------------------------------------------------------------

  /** After a mutable key access the key is present, the size grew by one
      exactly when the key was absent, and every other entry is unchanged. */
  lemma KeyMutThenContains(dv: DynamicValue, key: string)
    requires dv.Null? || dv.Object?
    ensures var r := KeyMut(dv, key);
      r.Success? && Contains(r.value.updated, key)
      && Size(r.value.updated) == Size(dv) + (if Contains(dv, key) then 0 else 1)
      && (forall k :: k != key && Contains(dv, k) ==>
            Contains(r.value.updated, k) && r.value.updated.obj[k] == dv.obj[k])
  {
    var r := KeyMut(dv, key);
    if dv.Object? && key !in dv.obj {
      assert |dv.obj[key := Null]| == |dv.obj| + 1 by {
        assert dv.obj[key := Null].Keys == dv.obj.Keys + {key};
      }
    }
  }

  /** A mutable access on a present key reads what the const access reads. */
  lemma KeyMutAgreesWithConst(dv: DynamicValue, key: string)
    requires Contains(dv, key)
    ensures KeyMut(dv, key).Success? && KeyConst(dv, key).Success?
    ensures KeyMut(dv, key).value.slot == KeyConst(dv, key).value
  {
  }

  /** Writing a key and reading it back returns the written value. */
  lemma SetKeyThenGet(dv: DynamicValue, key: string, v: DynamicValue)
    requires dv.Null? || dv.Object?
    ensures SetKey(dv, key, v).Success?
    ensures KeyConst(SetKey(dv, key, v).value, key) == Success(v)
  {
  }

  /** A string literal and the `std::string` with the same characters address
      different keys. */
  lemma LiteralKeyDiffers(literal: string)
    ensures LiteralKey(literal) != literal
  {
  }

  /** Accessing `dv["abc"]` on a fresh object leaves `contains("abc")` false. */
  lemma LiteralKeyNotContained(literal: string)
    ensures var r := KeyMut(EmptyObject(), LiteralKey(literal));
      r.Success? && !Contains(r.value.updated, literal) && Contains(r.value.updated, LiteralKey(literal))
  {
    LiteralKeyDiffers(literal);
  }

  /** `emplace_back` followed by an index read returns what was appended. */
  lemma EmplaceBackThenIndex(dv: DynamicValue, v: DynamicValue)
    requires dv.Null? || dv.Array?
    ensures var r := EmplaceBack(dv, v);
      r.Success? && IndexConst(r.value, Size(dv)) == Success(v)
      && Size(r.value) == Size(dv) + 1
      && (forall i :: 0 <= i < Size(dv) ==> IndexConst(r.value, i) == IndexConst(dv, i))
  {
    var r := EmplaceBack(dv, v);
    if dv.Array? {
      forall i | 0 <= i < Size(dv)
        ensures IndexConst(r.value, i) == IndexConst(dv, i)
      {
        assert r.value.arr[i] == r.value.arr[..|dv.arr|][i];
      }
    }
  }

  /** `emplace_back()` on a default value yields an Array of one Null. */
  lemma EmplaceBackOnDefault()
    ensures EmplaceBack(Default(), Default()) == Success(Array([Null]))
  {
  }

  /** A `getTo` that succeeds on a non-null value hands back that value, so
      reading twice is reading once. */
  lemma GetToIdempotent(dv: DynamicValue, target: Alt)
    requires Copyable(target)
    requires GetTo(dv, target).Success?
    ensures GetTo(GetTo(dv, target).value, target) == GetTo(dv, target)
  {
  }
}
