/** The alternatives a DynamicValue can hold (value/Base.h:66-70 for the
    element alternatives, Base.h:34-35 for the two containers), and the raw
    compiler names of their types.  Raw names follow the MSVC rendering that
    the repository's own test comments quote; they stand in for
    `type_raw_name_v`, which is a compiler intrinsic. */
module Base {

  datatype Alt =
    | AltBool | AltString | AltNull | AltNumber
    | AltPlayer | AltActor | AltBlockActor | AltContainer
    | AltWorldPos | AltBlockPos | AltItem | AltBlock | AltNbt
    | AltArray | AltObject

  /** The thirteen alternatives of `ElementType`; the rest are containers. */
  predicate IsElement(a: Alt) {
    !(a.AltArray? || a.AltObject?)
  }

  /** The four raw-pointer handle alternatives, which may hold `nullptr`. */
  predicate IsPointer(a: Alt) {
    a.AltPlayer? || a.AltActor? || a.AltBlockActor? || a.AltContainer?
  }

  /** `type_raw_name_v<T>` for the type of each alternative. */
  function RawTypeName(a: Alt): string {
    match a
    case AltBool => "bool"
    case AltString => "class std::basic_string<char,struct std::char_traits<char>,class std::allocator<char> >"
    case AltNull => "std::nullptr_t"
    case AltNumber => "struct remote_call::NumberType"
    case AltPlayer => "class Player *"
    case AltActor => "class Actor *"
    case AltBlockActor => "class BlockActor *"
    case AltContainer => "class Container *"
    case AltWorldPos => "struct remote_call::WorldPosType"
    case AltBlockPos => "struct remote_call::BlockPosType"
    case AltItem => "struct remote_call::ItemType"
    case AltBlock => "struct remote_call::BlockType"
    case AltNbt => "struct remote_call::NbtType"
    case AltArray => "class std::vector<struct remote_call::DynamicValue>"
    case AltObject => "class std::unordered_map<class std::string,struct remote_call::DynamicValue>"
  }
}
