/** Payload types held by a DynamicValue (Values.h): the integer half of
    `NumberType`, the maybe-owning pointer `MayUniquePtr` behind `NbtType` and
    `ItemType`, `BlockType`, and the two position types.  Native objects
    (Block, CompoundTag, ItemStack, ...) are represented by their address, with
    address 0 standing for `nullptr`. */
module Values {

  import opened Wrappers

  type Addr = nat

  const NullAddr: Addr := 0

  // ---------------------------------------------------------------------------
  // Integral types and two's-complement conversion
  // ---------------------------------------------------------------------------

  /** The integral types `NumberType` converts from and to.  `char`-like types
      are excluded by `get` (Values.h:106); `bool` is dispatched elsewhere. */
  datatype IntKind = SChar | UChar | Short | UShort | Int | UInt | Int64 | UInt64

  predicate IsSigned(k: IntKind) {
    k.SChar? || k.Short? || k.Int? || k.Int64?
  }

  function MinValue(k: IntKind): int {
    match k
    case SChar => -0x80
    case Short => -0x8000
    case Int => -0x8000_0000
    case Int64 => -0x8000_0000_0000_0000
    case UChar | UShort | UInt | UInt64 => 0
  }

  function MaxValue(k: IntKind): int {
    match k
    case SChar => 0x7f
    case UChar => 0xff
    case Short => 0x7fff
    case UShort => 0xffff
    case Int => 0x7fff_ffff
    case UInt => 0xffff_ffff
    case Int64 => 0x7fff_ffff_ffff_ffff
    case UInt64 => 0xffff_ffff_ffff_ffff
  }

  /** `v` is a value of the C++ type `k`. */
  predicate InRange(k: IntKind, v: int) {
    MinValue(k) <= v <= MaxValue(k)
  }

  /** `a` and `b` agree in the low bits that a value of type `k` keeps
      (they are congruent modulo 2^bits). */
  predicate Congruent(k: IntKind, a: int, b: int) {
    match k
    case SChar | UChar => (a - b) % 0x100 == 0
    case Short | UShort => (a - b) % 0x1_0000 == 0
    case Int | UInt => (a - b) % 0x1_0000_0000 == 0
    case Int64 | UInt64 => (a - b) % 0x1_0000_0000_0000_0000 == 0
  }

  function Unsigned8(v: int): (u: int)
    ensures 0 <= u < 0x100 && (u - v) % 0x100 == 0
  {
    v % 0x100
  }

  function Signed8(v: int): (r: int)
    ensures -0x80 <= r < 0x80 && (r - v) % 0x100 == 0
  {
    var u := v % 0x100;
    if u >= 0x80 then u - 0x100 else u
  }

  function Unsigned16(v: int): (u: int)
    ensures 0 <= u < 0x1_0000 && (u - v) % 0x1_0000 == 0
  {
    v % 0x1_0000
  }

  function Signed16(v: int): (r: int)
    ensures -0x8000 <= r < 0x8000 && (r - v) % 0x1_0000 == 0
  {
    var u := v % 0x1_0000;
    if u >= 0x8000 then u - 0x1_0000 else u
  }

  function Unsigned32(v: int): (u: int)
    ensures 0 <= u < 0x1_0000_0000 && (u - v) % 0x1_0000_0000 == 0
  {
    v % 0x1_0000_0000
  }

  function Signed32(v: int): (r: int)
    ensures -0x8000_0000 <= r < 0x8000_0000 && (r - v) % 0x1_0000_0000 == 0
  {
    var u := v % 0x1_0000_0000;
    if u >= 0x8000_0000 then u - 0x1_0000_0000 else u
  }

  function Unsigned64(v: int): (u: int)
    ensures 0 <= u < 0x1_0000_0000_0000_0000 && (u - v) % 0x1_0000_0000_0000_0000 == 0
  {
    v % 0x1_0000_0000_0000_0000
  }

  function Signed64(v: int): (r: int)
    ensures -0x8000_0000_0000_0000 <= r < 0x8000_0000_0000_0000
    ensures (r - v) % 0x1_0000_0000_0000_0000 == 0
  {
    var u := v % 0x1_0000_0000_0000_0000;
    if u >= 0x8000_0000_0000_0000 then u - 0x1_0000_0000_0000_0000 else u
  }

  /** `static_cast<k>(v)`: the unique value of type `k` congruent to `v`
      modulo 2^bits (C++20 integral conversion). */
  function Wrap(k: IntKind, v: int): (r: int)
    ensures InRange(k, r)
    ensures Congruent(k, r, v)
  {
    match k
    case SChar => Signed8(v)
    case UChar => Unsigned8(v)
    case Short => Signed16(v)
    case UShort => Unsigned16(v)
    case Int => Signed32(v)
    case UInt => Unsigned32(v)
    case Int64 => Signed64(v)
    case UInt64 => Unsigned64(v)
  }

  /** Two values of the same type that are congruent modulo 2^bits are equal. */
  lemma WrapUnique(k: IntKind, a: int, b: int)
    requires InRange(k, a) && InRange(k, b)
    requires Congruent(k, a, b)
    ensures a == b
  {
  }

  /** Converting a value that already has type `k` changes nothing. */
  lemma WrapInRange(k: IntKind, v: int)
    ensures InRange(k, v) ==> Wrap(k, v) == v
  {
    if InRange(k, v) {
      WrapUnique(k, Wrap(k, v), v);
    }
  }

  /** Every value of `k` is also a value of `int`. */
  predicate FitsInInt(k: IntKind) {
    MinValue(Int) <= MinValue(k) && MaxValue(k) <= MaxValue(Int)
  }

  /** A `static_cast<int>` followed by a cast back to `k` keeps every value
      of a kind that fits in `int`. */
  lemma NarrowThroughInt(k: IntKind, v: int)
    requires FitsInInt(k) && InRange(k, v)
    ensures Wrap(k, Wrap(Int, v)) == v
  {
    WrapInRange(Int, v);
    WrapInRange(k, v);
  }

  /** Congruence modulo 2^bits is transitive, and congruence modulo 2^64
      implies congruence modulo every narrower width. */
  lemma CongruentChain(k: IntKind, a: int, b: int, c: int)
    requires Congruent(k, a, b)
    requires Congruent(Int64, b, c)
    ensures Congruent(k, a, c)
  {
    match k
    case SChar | UChar => Chain8(a - b, b - c);
    case Short | UShort => Chain16(a - b, b - c);
    case Int | UInt => Chain32(a - b, b - c);
    case Int64 | UInt64 => Chain64(a - b, b - c);
  }

  lemma Chain8(x: int, y: int)
    requires x % 0x100 == 0 && y % 0x1_0000_0000_0000_0000 == 0
    ensures (x + y) % 0x100 == 0
  {
    var p, q := x / 0x100, y / 0x1_0000_0000_0000_0000;
    assert x + y == 0x100 * (p + 0x1_0000_0000_0000_00 * q);
  }

  lemma Chain16(x: int, y: int)
    requires x % 0x1_0000 == 0 && y % 0x1_0000_0000_0000_0000 == 0
    ensures (x + y) % 0x1_0000 == 0
  {
    var p, q := x / 0x1_0000, y / 0x1_0000_0000_0000_0000;
    assert x + y == 0x1_0000 * (p + 0x1_0000_0000_0000 * q);
  }

  lemma Chain32(x: int, y: int)
    requires x % 0x1_0000_0000 == 0 && y % 0x1_0000_0000_0000_0000 == 0
    ensures (x + y) % 0x1_0000_0000 == 0
  {
    var p, q := x / 0x1_0000_0000, y / 0x1_0000_0000_0000_0000;
    assert x + y == 0x1_0000_0000 * (p + 0x1_0000_0000 * q);
  }

  lemma Chain64(x: int, y: int)
    requires x % 0x1_0000_0000_0000_0000 == 0 && y % 0x1_0000_0000_0000_0000 == 0
    ensures (x + y) % 0x1_0000_0000_0000_0000 == 0
  {
    var p, q := x / 0x1_0000_0000_0000_0000, y / 0x1_0000_0000_0000_0000;
    assert x + y == 0x1_0000_0000_0000_0000 * (p + q);
  }

  // ---------------------------------------------------------------------------
  // NumberType (integer part only)
  // ---------------------------------------------------------------------------

  /** The integer half of `NumberType`; `i` is an `__int64`. */
  datatype NumberType = NumberType(i: int)

  predicate ValidNumber(n: NumberType) {
    InRange(Int64, n.i)
  }

  /** `NumberType(v)` and `operator=(v)` for an integral `v` of type `k`:
      `i = static_cast<__int64>(v)`. */
  function NumberFromInt(k: IntKind, v: int): (n: NumberType)
    requires InRange(k, v)
    ensures ValidNumber(n)
    ensures Congruent(Int64, n.i, v)
    ensures InRange(Int64, v) ==> n.i == v
  {
    WrapInRange(Int64, v);
    NumberType(Wrap(Int64, v))
  }

  /** `get<T>()` for an integral, non-character `T`: `static_cast<T>(i)`. */
  function NumberGet(n: NumberType, k: IntKind): (v: int)
    ensures InRange(k, v)
    ensures Congruent(k, v, n.i)
  {
    Wrap(k, n.i)
  }

  /** Every value of every integral type survives storage in a `NumberType`,
      including `unsigned __int64` values above the `__int64` range. */
  lemma {:induction false} NumberRoundTrip(k: IntKind, v: int)
    requires InRange(k, v)
    ensures NumberGet(NumberFromInt(k, v), k) == v
  {
    var n := NumberFromInt(k, v);
    var r := NumberGet(n, k);
    CongruentChain(k, r, n.i, v);
    WrapUnique(k, r, v);
  }

  // ---------------------------------------------------------------------------
  // MayUniquePtr: a pointer that may or may not own its object
  // ---------------------------------------------------------------------------

  datatype MayUniquePtr = MayUniquePtr(ptr: Addr, own: bool)

  /** `MayUniquePtr(std::unique_ptr<T>&&)`: takes ownership of the released pointer. */
  function FromOwned(p: Addr): (m: MayUniquePtr)
    ensures m.ptr == p && m.own
  {
    MayUniquePtr(p, true)
  }

  /** `MayUniquePtr(std::unique_ptr<T> const&)` and `MayUniquePtr(T const*)`: borrows. */
  function FromBorrowed(p: Addr): (m: MayUniquePtr)
    ensures m.ptr == p && !m.own
  {
    MayUniquePtr(p, false)
  }

  /** Result of a move: the new object and what is left in the moved-from one. */
  datatype Moved = Moved(target: MayUniquePtr, source: MayUniquePtr)

  /** Move construction: the target takes over pointer and ownership; the
      source keeps its pointer but no longer owns it. */
  function MoveConstruct(src: MayUniquePtr): (r: Moved)
    ensures r.target == src
    ensures r.source.ptr == src.ptr && !r.source.own
    ensures !(r.target.own && r.source.own)
  {
    Moved(src, src.(own := false))
  }

  /** Move assignment; also reports the object deleted on the way (the target's
      previously owned, non-null pointer). */
  function MoveAssign(dst: MayUniquePtr, src: MayUniquePtr): (r: (Moved, Option<Addr>))
    ensures r.0.target == src
    ensures r.0.source.ptr == src.ptr && !r.0.source.own
    ensures r.1.Some? <==> dst.own && dst.ptr != NullAddr
    ensures r.1.Some? ==> r.1.value == dst.ptr
  {
    (Moved(src, src.(own := false)),
     if dst.own && dst.ptr != NullAddr then Some(dst.ptr) else None)
  }

  /** What the destructor deletes. */
  function Destroy(m: MayUniquePtr): (deleted: Option<Addr>)
    ensures deleted.Some? <==> m.own && m.ptr != NullAddr
    ensures deleted.Some? ==> deleted.value == m.ptr
  {
    if m.own && m.ptr != NullAddr then Some(m.ptr) else None
  }

  /** What `tryGetUniquePtr` returns: an empty `unique_ptr`, the owned object
      itself, or a fresh copy of a borrowed object. */
  datatype Handoff = Empty | Transfer(addr: Addr) | Clone(of: Addr)

  /** `tryGetUniquePtr`: returns the updated holder and the unique_ptr handed out. */
  function TryGetUniquePtr(m: MayUniquePtr): (r: (MayUniquePtr, Handoff))
    ensures r.0.ptr == m.ptr && !r.0.own
    ensures m.own ==> r.1 == Transfer(m.ptr)
    ensures !m.own && m.ptr == NullAddr ==> r.1 == Empty
    ensures !m.own && m.ptr != NullAddr ==> r.1 == Clone(m.ptr)
  {
    if !m.own then
      (m, if m.ptr == NullAddr then Empty else Clone(m.ptr))
    else
      (m.(own := false), Transfer(m.ptr))
  }

  /** Ownership of an object is handed out at most once: after the first
      `tryGetUniquePtr`, later calls only clone, and the holder's destructor
      no longer deletes the object that was handed out. */
  lemma HandoffAtMostOnce(m: MayUniquePtr)
    ensures !TryGetUniquePtr(TryGetUniquePtr(m).0).1.Transfer?
    ensures Destroy(TryGetUniquePtr(m).0) == None
    ensures TryGetUniquePtr(m).1.Transfer? ==> m.own
  {
  }

  // ---------------------------------------------------------------------------
  // Positions and blocks
  // ---------------------------------------------------------------------------

  datatype BlockPos = BlockPos(x: int, y: int, z: int)

  /** `Vec3` with exact real coordinates (float rounding is not modelled). */
  datatype Vec3 = Vec3(x: real, y: real, z: real)

  /** `VanillaDimensions::Undefined`, the field initialiser of both position types. */
  const UndefinedDim: int := 3

  datatype BlockPosType = BlockPosType(pos: BlockPos, dimId: int)

  /** `BlockPosType(pos)`: the constructor's default dimension is 0, not the
      field initialiser 3. */
  function MakeBlockPosType(pos: BlockPos): (b: BlockPosType)
    ensures b.pos == pos && b.dimId == 0
    ensures b.dimId != UndefinedDim
  {
    BlockPosType(pos, 0)
  }

  /** `BlockPosType(std::pair<BlockPos, int>)`. */
  function BlockPosTypeFromPair(pos: BlockPos, dimId: int): (b: BlockPosType)
    ensures BlockPosGetPair(b) == (pos, dimId)
  {
    BlockPosType(pos, dimId)
  }

  /** `get<BlockPos>()`. */
  function BlockPosGet(b: BlockPosType): BlockPos {
    b.pos
  }

  /** `get<std::pair<BlockPos, int>>()`. */
  function BlockPosGetPair(b: BlockPosType): (BlockPos, int) {
    (b.pos, b.dimId)
  }

  /** Pair construction and pair access are inverse. */
  lemma BlockPosPairRoundTrip(b: BlockPosType)
    ensures BlockPosTypeFromPair(BlockPosGetPair(b).0, BlockPosGetPair(b).1) == b
    ensures BlockPosGet(BlockPosTypeFromPair(b.pos, 5)) == b.pos
  {
  }

  /** `get<Vec3>()` as written: the `z` component is taken from `pos.y`. */
  function BlockPosGetVec3AsWritten(b: BlockPosType): (v: Vec3)
    ensures v.x == b.pos.x as real && v.y == b.pos.y as real
    ensures v.z == v.y
  {
    Vec3(b.pos.x as real, b.pos.y as real, b.pos.y as real)
  }

  /** As written, the `z` coordinate survives only when it happens to equal
      `y`. */
  lemma BlockPosGetVec3AsWrittenLosesZ(b: BlockPosType)
    ensures BlockPosGetVec3AsWritten(b).z == b.pos.z as real <==> b.pos.z == b.pos.y
    ensures BlockPosGetVec3AsWritten(BlockPosType(BlockPos(1, 2, 3), 0)) == Vec3(1.0, 2.0, 2.0)
  {
  }

  /** `get<Vec3>()` as evidently intended: every coordinate converted. */
  function BlockPosGetVec3(b: BlockPosType): (v: Vec3)
    ensures v.x == b.pos.x as real && v.y == b.pos.y as real && v.z == b.pos.z as real
  {
    Vec3(b.pos.x as real, b.pos.y as real, b.pos.z as real)
  }

  datatype WorldPosType = WorldPosType(pos: Vec3, dimId: int)

  /** `WorldPosType(pos)`: the default dimension is 3 (Undefined). */
  function MakeWorldPosType(pos: Vec3): (w: WorldPosType)
    ensures w.pos == pos && w.dimId == UndefinedDim
  {
    WorldPosType(pos, UndefinedDim)
  }

  /** `static_cast<int>` of a floating value: truncation toward zero. */
  function TruncToInt(r: real): (n: int)
    ensures r >= 0.0 ==> n as real <= r < n as real + 1.0
    ensures r < 0.0 ==> n as real - 1.0 < r <= n as real
  {
    if r >= 0.0 then r.Floor else -((-r).Floor)
  }

  /** `get<BlockPos>()` as written: `y` is assigned twice and `z` keeps its
      zero initialiser. */
  function WorldPosGetBlockPosAsWritten(w: WorldPosType): (b: BlockPos)
    ensures b.x == TruncToInt(w.pos.x) && b.y == TruncToInt(w.pos.y)
    ensures b.z == 0
  {
    BlockPos(TruncToInt(w.pos.x), TruncToInt(w.pos.y), 0)
  }

  /** As written, a world position more than one block away from `z == 0`
      is read at `z == 0`. */
  lemma WorldPosGetBlockPosAsWrittenLosesZ(w: WorldPosType)
    ensures WorldPosGetBlockPosAsWritten(w).z == TruncToInt(w.pos.z) <==> -1.0 < w.pos.z < 1.0
    ensures WorldPosGetBlockPosAsWritten(MakeWorldPosType(Vec3(1.0, 2.0, 3.0))) == BlockPos(1, 2, 0)
  {
  }

  /** `get<BlockPos>()` as evidently intended: every coordinate truncated. */
  function WorldPosGetBlockPos(w: WorldPosType): (b: BlockPos)
    ensures b.x == TruncToInt(w.pos.x) && b.y == TruncToInt(w.pos.y) && b.z == TruncToInt(w.pos.z)
  {
    BlockPos(TruncToInt(w.pos.x), TruncToInt(w.pos.y), TruncToInt(w.pos.z))
  }

  /** Truncation is exact on whole numbers. */
  lemma TruncWhole(n: int)
    ensures TruncToInt(n as real) == n
  {
  }

  /** With both getters corrected, a block position read as a `Vec3` and
      the world position built from it read back as a `BlockPos` give the
      original position; with the getters as written this fails for every
      position with `z != 0`. */
  lemma BlockWorldBlockRoundTrip(b: BlockPosType)
    ensures WorldPosGetBlockPos(MakeWorldPosType(BlockPosGetVec3(b))) == b.pos
    ensures b.pos.z != 0 ==>
      WorldPosGetBlockPosAsWritten(MakeWorldPosType(BlockPosGetVec3AsWritten(b))) != b.pos
  {
    TruncWhole(b.pos.x);
    TruncWhole(b.pos.y);
    TruncWhole(b.pos.z);
  }

  /** `get<std::pair<BlockPos, int>>()`. */
  function WorldPosGetBlockPair(w: WorldPosType): (BlockPos, int) {
    (WorldPosGetBlockPos(w), w.dimId)
  }

  /** `BlockType(Block const*)`: position and dimension keep their initialisers. */
  datatype BlockType = BlockType(block: Addr, blockPos: BlockPos, dimension: int)

  function MakeBlockType(block: Addr): (b: BlockType)
    ensures b.block == block
    ensures b.blockPos == BlockPos(0, 0, 0) && b.dimension == 0
  {
    BlockType(block, BlockPos(0, 0, 0), 0)
  }
}
