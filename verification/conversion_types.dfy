/** The C++ types the conversion engine handles, as data.  The engine selects
    a `toDynamic`/`fromDynamic` overload by template constraints and a
    priority tag (base/Meta.h:21-29); here a `TypeDesc` describes the native
    type, `Native` a native value, and `Resolve` picks the overload family
    (a `Rule`) of highest rank among those whose constraints the type meets. */
module ConversionTypes {

  import opened Wrappers
  import opened Strings
  import opened Base
  import opened Values
  import opened ErrorUtils
  import opened DynamicValues

  /** The four raw-pointer handle types. */
  datatype HandleKind = HPlayer | HActor | HBlockActor | HContainer

  function HandleAlt(k: HandleKind): (a: Alt)
    ensures IsPointer(a)
  {
    match k
    case HPlayer => AltPlayer
    case HActor => AltActor
    case HBlockActor => AltBlockActor
    case HContainer => AltContainer
  }

  /** One named value of an enumeration (magic_enum's reflected names). */
  datatype EnumEntry = EnumEntry(name: string, value: int)

  /** An enumeration: its name, underlying integer type, its named values,
      whether magic_enum can reflect it at all, and whether it is a scoped
      `enum class` (which, unlike a plain `enum`, does not convert to `int`). */
  datatype EnumDesc = EnumDesc(name: string, underlying: IntKind, entries: seq<EnumEntry>, reflected: bool,
                               scoped: bool)

  /** Key type of an associative container: a string or an enumeration. */
  datatype KeyDesc = StringKey | EnumKey(e: EnumDesc)

  /** A described native type.
      - `TBool`, `TString` (`std::string`), `TNullPtr` and `TPtr(k)` are the
        normal elements of base/Concepts.h:33-34;
      - `TStringLike` is any other string type (`std::string_view`, ...);
      - `TActorLike` is a pointer convertible to `Actor const*` that is not an
        element type itself (`Actor const*`, `Player const*`, `ServerPlayer*`),
        `playerLike` telling whether it converts to `Player const*`;
      - `TInt` an integral type, `TEnum` an enumeration, `TPos` BlockPos or
        Vec3, `TUnit` `std::nullopt_t`/`std::monostate`;
      - the containers carry their element types; `defaultConstructible`
        selects between the two tuple and struct decoders;
      - `TUser` a type with its own converter pair. */
  datatype TypeDesc =
    | TBool
    | TString
    | TNullPtr
    | TPtr(kind: HandleKind)
    | TStringLike(typeName: string)
    | TActorLike(ptrName: string, playerLike: bool)
    | TInt(ik: IntKind)
    | TEnum(e: EnumDesc)
    | TPos(block: bool)
    | TUnit
    | TOptional(inner: TypeDesc)
    | TTuple(elems: seq<TypeDesc>, tupleDefault: bool)
    | TList(elem: TypeDesc)
    | TMap(key: KeyDesc, val: TypeDesc)
    | TStruct(structName: string, fields: seq<Field>, structDefault: bool)
    | TUser(id: nat, userName: string)

  /** A reflected member: its name, type and in-class initial value. */
  datatype Field = Field(name: string, t: TypeDesc, init: Native)

  datatype Native =
    | NBool(b: bool)
    | NStr(s: string)
    | NNull
    | NPtr(addr: Addr)
    | NInt(i: int)
    | NEnum(ev: int)
    | NBlockPos(bpos: BlockPos)
    | NVec3(vpos: Vec3)
    | NUnit
    | NOpt(opt: Option<Native>)
    | NTuple(tvals: seq<Native>)
    | NList(lvals: seq<Native>)
    | NStrMap(smap: map<string, Native>)
    | NEnumMap(emap: map<int, Native>)
    | NStruct(fvals: seq<Native>)
    | NUser(payload: string)

  // ---------------------------------------------------------------------------
  // Enumerations
  // ---------------------------------------------------------------------------

  /** Names are non-empty and distinct, values distinct and representable. */
  predicate WfEnum(e: EnumDesc) {
    (forall i :: 0 <= i < |e.entries| ==> |e.entries[i].name| > 0 && InRange(e.underlying, e.entries[i].value))
    && (forall i, j :: 0 <= i < j < |e.entries| ==>
          e.entries[i].name != e.entries[j].name && e.entries[i].value != e.entries[j].value)
  }

  /** `magic_enum::enum_name(v)`: the name of `v`, or "" when it has none. */
  function EnumName(entries: seq<EnumEntry>, v: int): (r: string)
    ensures r != "" ==> exists i :: 0 <= i < |entries| && entries[i].value == v && entries[i].name == r
    ensures (forall i :: 0 <= i < |entries| ==> entries[i].value != v) ==> r == ""
  {
    if |entries| == 0 then ""
    else if entries[0].value == v then entries[0].name
    else
      var r := EnumName(entries[1..], v);
      assert r != "" ==> exists i :: 1 <= i < |entries| && entries[i].value == v && entries[i].name == r by {
        if r != "" {
          var j :| 0 <= j < |entries[1..]| && entries[1..][j].value == v && entries[1..][j].name == r;
          assert entries[j + 1].value == v && entries[j + 1].name == r;
        }
      }
      r
  }

  /** `magic_enum::enum_cast(name)`: the value named `name`, if any. */
  function EnumCast(entries: seq<EnumEntry>, name: string): (r: Option<int>)
    ensures r.Some? ==> exists i :: 0 <= i < |entries| && entries[i].name == name && entries[i].value == r.value
    ensures r.None? ==> forall i :: 0 <= i < |entries| ==> entries[i].name != name
  {
    if |entries| == 0 then None
    else if entries[0].name == name then Some(entries[0].value)
    else
      var r := EnumCast(entries[1..], name);
      assert r.Some? ==> exists i :: 1 <= i < |entries| && entries[i].name == name && entries[i].value == r.value by {
        if r.Some? {
          var j :| 0 <= j < |entries[1..]| && entries[1..][j].name == name && entries[1..][j].value == r.value;
          assert entries[j + 1].name == name;
        }
      }
      assert r.None? ==> forall i :: 0 <= i < |entries| ==> entries[i].name != name by {
        if r.None? {
          forall i | 0 <= i < |entries|
            ensures entries[i].name != name
          {
            if i > 0 { assert entries[i] == entries[1..][i - 1]; }
          }
        }
      }
      r
  }

  /** A named value reads back from its name. */
  lemma {:induction false} EnumNameCast(e: EnumDesc, v: int)
    requires WfEnum(e)
    requires EnumName(e.entries, v) != ""
    ensures EnumCast(e.entries, EnumName(e.entries, v)) == Some(v)
  {
    var n := EnumName(e.entries, v);
    var i :| 0 <= i < |e.entries| && e.entries[i].value == v && e.entries[i].name == n;
    var r := EnumCast(e.entries, n);
    if r.Some? {
      var j :| 0 <= j < |e.entries| && e.entries[j].name == n && e.entries[j].value == r.value;
    }
  }

  /** Two values with names never share one. */
  lemma EnumNameInjective(e: EnumDesc, v: int, w: int)
    requires WfEnum(e)
    requires EnumName(e.entries, v) != "" && EnumName(e.entries, v) == EnumName(e.entries, w)
    ensures v == w
  {
    EnumNameCast(e, v);
    EnumNameCast(e, w);
  }

  // ---------------------------------------------------------------------------
  // Well-formed descriptors and well-typed values
  // ---------------------------------------------------------------------------

  /** Whether `v` is a value of the described type. */
  predicate WellTyped(t: TypeDesc, v: Native)
    decreases t, 1
  {
    match t
    case TBool => v.NBool?
    case TString => v.NStr?
    case TNullPtr => v.NNull?
    case TPtr(_) => v.NPtr?
    case TStringLike(_) => v.NStr?
    case TActorLike(_, _) => v.NPtr?
    case TInt(k) => v.NInt? && InRange(k, v.i)
    case TEnum(e) => v.NEnum? && InRange(e.underlying, v.ev)
    case TPos(block) => if block then v.NBlockPos? else v.NVec3?
    case TUnit => v.NUnit?
    case TOptional(inner) => v.NOpt? && (v.opt.Some? ==> WellTyped(inner, v.opt.value))
    case TTuple(ts, _) => v.NTuple? && |v.tvals| == |ts| && (forall i :: 0 <= i < |ts| ==> WellTyped(ts[i], v.tvals[i]))
    case TList(e) => v.NList? && (forall i :: 0 <= i < |v.lvals| ==> WellTyped(e, v.lvals[i]))
    case TMap(k, e) =>
      (k.StringKey? && v.NStrMap? && forall s :: s in v.smap ==> WellTyped(e, v.smap[s]))
      || (k.EnumKey? && v.NEnumMap? && forall x :: x in v.emap ==> InRange(k.e.underlying, x) && WellTyped(e, v.emap[x]))
    case TStruct(_, fs, _) => v.NStruct? && |v.fvals| == |fs| && (forall i :: 0 <= i < |fs| ==> WellTyped(fs[i].t, v.fvals[i]))
    case TUser(_, _) => v.NUser?
  }

  /** Reflected member names that the converters skip. */
  predicate Hidden(name: string) {
    |name| > 0 && name[0] == '$'
  }

  /** A descriptor the C++ type system could produce: enum tables are
      well formed, member names are distinct and initial values typed. */
  predicate WfType(t: TypeDesc)
    decreases t, 1
  {
    match t
    case TEnum(e) => WfEnum(e)
    case TOptional(inner) => WfType(inner)
    case TTuple(ts, _) => forall i :: 0 <= i < |ts| ==> WfType(ts[i])
    case TList(e) => WfType(e)
    case TMap(k, e) => (k.EnumKey? ==> WfEnum(k.e)) && WfType(e)
    case TStruct(_, fs, _) =>
      (forall i, j :: 0 <= i < j < |fs| ==> fs[i].name != fs[j].name)
      && (forall i :: 0 <= i < |fs| ==> WfType(fs[i].t) && WellTyped(fs[i].t, fs[i].init))
    case _ => true
  }

  // ---------------------------------------------------------------------------
  // Overload selection
  // ---------------------------------------------------------------------------

  /** The overload families of conversions/DefaultConversions.h and
      conversions/DefaultContainerConversions.h. */
  datatype Rule =
    | UserRule            // the type's own converter
    | NormalElementRule   // bool, std::string, nullptr_t, the four handles
    | PositionRule        // BlockPos, Vec3
    | OptionalRule        // std::optional<T>
    | NumberRule          // CustomElementConverter<T, NumberType>
    | ActorPointerRule    // pointers convertible to Actor const*
    | PositionPairRule    // 2-tuples (BlockPos or Vec3, int-like)
    | UnitRule            // std::nullopt_t, std::monostate
    | StringLikeRule      // other string types
    | EnumRule            // enumerations, by underlying value
    | VectorRule          // per-component vectors (Vec2, BlockPos, Vec3, ...)
    | TupleRule           // tuple-like types
    | ListRule            // array-like containers
    | MapRule             // associative containers
    | StructRule          // reflectable aggregates

  /** The priority tag of each family: HightestTag 10, HightTag 7,
      DefaultTag 5, LowTag 3, PriorityTag<2>, PriorityTag<1>. */
  function Rank(r: Rule): nat {
    match r
    case UserRule => 10
    case NormalElementRule => 7
    case PositionRule => 7
    case OptionalRule => 7
    case NumberRule => 5
    case ActorPointerRule => 5
    case PositionPairRule => 5
    case UnitRule => 5
    case StringLikeRule => 3
    case EnumRule => 3
    case VectorRule => 2
    case TupleRule => 2
    case ListRule => 1
    case MapRule => 1
    case StructRule => 1
  }

  /** The second element type of a position pair: `std::convertible_to<int>`,
      which every integral type, `bool` and every unscoped enumeration is. */
  predicate IntLike(t: TypeDesc) {
    t.TInt? || t.TBool? || (t.TEnum? && !t.e.scoped)
  }

  /** `tuple_size == 2`, element 0 a position, element 1 convertible to int. */
  predicate PositionPairShape(ts: seq<TypeDesc>) {
    |ts| == 2 && ts[0].TPos? && IntLike(ts[1])
  }

  /** The families whose constraints the type satisfies. */
  function Candidates(t: TypeDesc): set<Rule> {
    match t
    case TBool => {NormalElementRule}
    case TString => {NormalElementRule}
    case TNullPtr => {NormalElementRule}
    case TPtr(_) => {NormalElementRule}
    case TStringLike(_) => {StringLikeRule}
    case TActorLike(_, _) => {ActorPointerRule}
    case TInt(_) => {NumberRule}
    case TEnum(_) => {EnumRule}
    case TPos(_) => {PositionRule, VectorRule}
    case TUnit => {UnitRule}
    case TOptional(_) => {OptionalRule}
    case TTuple(ts, _) => if PositionPairShape(ts) then {PositionPairRule, TupleRule} else {TupleRule}
    case TList(_) => {ListRule}
    case TMap(_, _) => {MapRule}
    case TStruct(_, _, _) => {StructRule}
    case TUser(_, _) => {UserRule}
  }

  /** The overload the call `toDynamic(dv, v, priority::Hightest)` binds to:
      the unique candidate of strictly highest rank. */
  function Resolve(t: TypeDesc): (r: Rule)
    ensures r in Candidates(t)
    ensures forall c :: c in Candidates(t) && c != r ==> Rank(c) < Rank(r)
  {
    match t
    case TBool => NormalElementRule
    case TString => NormalElementRule
    case TNullPtr => NormalElementRule
    case TPtr(_) => NormalElementRule
    case TStringLike(_) => StringLikeRule
    case TActorLike(_, _) => ActorPointerRule
    case TInt(_) => NumberRule
    case TEnum(_) => EnumRule
    case TPos(_) => PositionRule
    case TUnit => UnitRule
    case TOptional(_) => OptionalRule
    case TTuple(ts, _) => if PositionPairShape(ts) then PositionPairRule else TupleRule
    case TList(_) => ListRule
    case TMap(_, _) => MapRule
    case TStruct(_, _, _) => StructRule
    case TUser(_, _) => UserRule
  }

  /** A pair of a position and anything convertible to `int` binds to the
      position-pair rule, not to the generic tuple rule; a scoped enumeration
      or any other second element leaves only the tuple rule. */
  lemma PositionPairWinsOverTuple(block: bool, second: TypeDesc, dflt: bool)
    ensures TupleRule in Candidates(TTuple([TPos(block), second], dflt))
    ensures Resolve(TTuple([TPos(block), second], dflt)) == PositionPairRule
      <==> second.TInt? || second.TBool? || (second.TEnum? && !second.e.scoped)
  {
  }

  // ---------------------------------------------------------------------------
  // Type names in messages
  // ---------------------------------------------------------------------------

  function IntKindName(k: IntKind): string {
    match k
    case SChar => "signed char"
    case UChar => "unsigned char"
    case Short => "short"
    case UShort => "unsigned short"
    case Int => "int"
    case UInt => "unsigned int"
    case Int64 => "__int64"
    case UInt64 => "unsigned __int64"
  }

  /** `type_raw_name_v<T>` of a described type, in the compiler's rendering
      with default template arguments left out. */
  function RawName(t: TypeDesc): string
    decreases t, 1
  {
    match t
    case TBool => "bool"
    case TString => RawTypeName(AltString)
    case TNullPtr => RawTypeName(AltNull)
    case TPtr(k) => RawTypeName(HandleAlt(k))
    case TStringLike(n) => n
    case TActorLike(n, _) => n
    case TInt(k) => IntKindName(k)
    case TEnum(e) => "enum " + e.name
    case TPos(block) => if block then "class BlockPos" else "class Vec3"
    case TUnit => "struct std::monostate"
    case TOptional(inner) => "class std::optional<" + RawName(inner) + ">"
    case TTuple(ts, _) => "class std::tuple<" + ElemNames(t, 0) + ">"
    case TList(e) => "class std::vector<" + RawName(e) + ">"
    case TMap(k, e) =>
      "class std::unordered_map<" + (if k.StringKey? then RawTypeName(AltString) else "enum " + k.e.name)
        + "," + RawName(e) + ">"
    case TStruct(n, _, _) => "struct " + n
    case TUser(_, n) => n
  }

  function ElemNames(t: TypeDesc, i: nat): string
    requires t.TTuple?
    decreases t, 0, |t.elems| - i
  {
    if i >= |t.elems| then ""
    else if i + 1 == |t.elems| then RawName(t.elems[i])
    else RawName(t.elems[i]) + "," + ElemNames(t, i + 1)
  }

  // ---------------------------------------------------------------------------
  // User converters
  // ---------------------------------------------------------------------------

  /** The output of a `toDynamic` call: the value written so far and the
      returned status.  A failed conversion may leave a partial value. */
  datatype Encoded = Encoded(dv: DynamicValue, status: Outcome<Error>)

  /** The converter pair of each user type, by id. */
  datatype Hooks = Hooks(enc: (nat, Native) -> Encoded, dec: (nat, DynamicValue) -> Result<Native, Error>)

  /** User decoders produce user values. */
  ghost predicate HooksWellTyped(h: Hooks) {
    forall id, dv :: h.dec(id, dv).Success? ==> h.dec(id, dv).value.NUser?
  }

  /** User converters that read back what they wrote. */
  ghost predicate HooksRoundTrip(h: Hooks) {
    forall id, v :: h.enc(id, v).status.Pass? ==> h.dec(id, h.enc(id, v).dv) == Success(v)
  }
}
