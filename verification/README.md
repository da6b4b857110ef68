# LegacyRemoteCall marshalling core in Dafny

This project models the in-process core of LegacyRemoteCall. That core lets
one native mod export a C++ function under a namespace and a name. Another
mod can then import it and call it through a dynamically typed value,
`DynamicValue`. The model covers six parts:

- **Function registry** (`registry.dfy`, module `Registry`, from `ABI.cpp`).
  - The global `exportedFuncs` table is a `map<string, Entry>`, keyed by
    `ns + "::" + name`.
  - A provider mod is `Option<string>`, where `None` means its weak pointer
    has expired. A callable is an opaque id.
  - Export, import, `hasFunc`, the four removals and the two lifecycle sweeps
    are pure transitions or short loops over the table.
- **Export side** (`export_impl.dfy`, `ExportImpl`).
  - Parameter counting (`getNonOptionalArgsCount`, `getRequiredArgsCount`)
    and `normalizeArgs`.
  - Per-slot argument decoding with defaults and empty optionals.
  - The `exportAs` and `exportEx` closures, with their error wrapping.
- **Import side** (`import_impl.dfy`, `ImportImpl`).
  - `corrected_return` and `importCallImpl`: lookup, encoding of the
    argument tuple into one array, call, and reading of the result.
  - The proxy `importAs` returns.
  - Lemmas that compose an import with an export.
- **Errors** (`error_utils.dfy`, `ErrorUtils`).
  - `RemoteCallError` with its reason, message, optional origin and
    field-path stack.
  - `append`, `joinField`, `flushFields`, and every `make*Error`
    constructor.
  - An error is `Remote(RemoteCallError)`, `Foreign(text)` for any other
    `std::exception`, or `Abort(what)` for a C++ exception or debug break
    that the `Expected` wrappers pass through unchanged.
- **DynamicValue** (`dynamic_value.dfy`, `DynamicValues`; alternatives in
  `base.dfy`; display names in `type_name.dfy`; payloads in `values.dfy`).
  - A tagged tree with the structural operations. Where C++ throws, the
    result is `Failure(Abort(..))`.
  - The integer half of `NumberType` with explicit two's-complement
    wrap-around.
  - `MayUniquePtr` ownership, and the position and block payloads.
- **Conversion engine** (`conversion_types.dfy`, `conversions.dfy`, with laws
  in `conversion_laws.dfy`, `map_laws.dfy` and `conversion_errors.dfy`).
  - A type descriptor `TypeDesc` and a native value `Native`.
  - Overload resolution by priority tag (`Resolve`, from the ranks of
    `base/Meta.h`).
  - One `Encode` and one `Decode` that follow each rule of
    `DefaultConversions.h` and `DefaultContainerConversions.h`, except that
    `Decode` reads positions through the corrected cross-type getters of
    `Values.h` (see Findings). `DecodePosAsWritten` is the position rule
    with the getters as written.
  - User converters are a `Hooks` parameter.

`marshal.dfy` packs the engine as a `Codec`, a pair of a decoder and an
encoder. The export and import sides are written against any `Codec`. The
lemmas that need the real rules instantiate it with `Engine(h)`.

Three things the C++ leaves unspecified are fixed or made parameters.
- `std::unordered_map` iteration order is unspecified. The model walks keys
  in sorted order (`ordering.dfy`). This only decides which of several
  failing entries is reported.
- The evaluation order of the `make_tuple` arguments that decode the export
  slots is an explicit permutation parameter `order`. `DecodeArgsOrder`
  proves the result does not depend on it when at most one slot fails. The
  `make_tuple` calls in the non-default-constructible tuple and struct
  decoders are evaluated left to right.
- Raw compiler type names (`type_raw_name_v`) are fixed strings in MSVC's
  rendering.

## Model

| member | source | states |
|---|---|---|
| ErrorUtils.NewError | src/remote_call/api/utils/ErrorUtils.h:39-44 | A new error carries the given reason and message, an empty field stack and no origin. |
| ErrorUtils.Message | src/remote_call/api/utils/ErrorUtils.h:46-49 | `message()` is the stored message, followed by `"\nOrigin Error: "` and the origin's text exactly when there is an origin. |
| ErrorUtils.EnsureNewline | src/remote_call/api/utils/ErrorUtils.h:50-54 | The newline `append` inserts is added only when the message does not already end in one: the result ends in `\n`, extends the message by at most one character, and equals it iff it already ended in `\n`. |
| ErrorUtils.EnsureNewlineIdempotent | src/remote_call/api/utils/ErrorUtils.h:50-54 | Adding the separating newline twice is the same as once. |
| ErrorUtils.Append | src/remote_call/api/utils/ErrorUtils.h:50-54 | `append(text)` keeps reason, fields and origin; the old message is a prefix, the text is the suffix, and exactly one `\n` separates them. |
| ErrorUtils.AppendFunction | src/remote_call/api/utils/ErrorUtils.h:55-68 | `append(ns, func)` keeps reason, fields and origin, extends the message, and leaves it ending in a newline. The message is the old one, made to end in a newline, followed by exactly `Function: [ns::func](signature S) provided by <P>.` and a newline, where `P` is the provider's name or `UnknownMod`. |
| ErrorUtils.JoinField | src/remote_call/api/utils/ErrorUtils.h:69-72 | `joinField` pushes exactly one segment on top of the field stack and changes nothing else. |
| ErrorUtils.FieldPathPush | src/remote_call/api/utils/ErrorUtils.h:73-81 | The rendered path lists segments in reverse push order: a newly pushed segment comes first. |
| ErrorUtils.StripNewline | src/remote_call/api/utils/ErrorUtils.h:73-81 | One trailing newline is removed, and only if present. |
| ErrorUtils.FlushFields | src/remote_call/api/utils/ErrorUtils.h:73-81 | `flushFields` empties the field stack, keeps reason and origin, and ends the message with `" Field: " + valueName + path + "\n"`. Between the old message (made to end in a newline) and that tail sits exactly the given text without its trailing newline. |
| ErrorUtils.FlushedPathInMessage | src/remote_call/api/utils/ErrorUtils.h:73-81 | After a flush the full message contains the value name followed by the rendered field path. |
| ErrorUtils.ConvertUnknownError | src/remote_call/api/utils/ErrorUtils.h:86-92 | A foreign exception becomes an `Unknown` error whose message is `text + ": " + origin`, with the origin kept and no fields. |
| ErrorUtils.MakeError | src/remote_call/api/utils/ErrorUtils.h:94-97 | `makeError` is a remote error with exactly that reason and message. |
| ErrorUtils.MakeErrorAt | src/remote_call/api/utils/ErrorUtils.h:99-104 | The function-naming overload keeps the reason, starts the message with the given text, and has no fields and no origin. |
| ErrorUtils.MakeUnknownError | src/remote_call/api/utils/ErrorUtils.h:106-112 | A foreign error at a named function is `Unknown`, keeps its origin, and starts with `text: origin`. |
| ErrorUtils.MakeNotFoundError | src/remote_call/api/utils/ErrorUtils.h:114-116 | The not-found error has reason `NotExported` and the "has not been exported" message. |
| ErrorUtils.MakeDisabledError | src/remote_call/api/utils/ErrorUtils.h:119-121 | The disabled error has reason `ProviderDisabled` and its fixed message. |
| ErrorUtils.MakeArgsCountError | src/remote_call/api/utils/ErrorUtils.h:123-131 | The count error has reason `ArgsCountNotMatch` and starts with "requires N args, but P provided". |
| ErrorUtils.FlushAndAppend | src/remote_call/api/utils/ErrorUtils.h:133-155 | The common shape of serialize and deserialize errors: an abort passes through; a foreign error becomes `Unknown` with its origin; a remote error keeps its reason and origin, gets its field path flushed, and loses its fields. |
| ErrorUtils.MakeSerializeError | src/remote_call/api/utils/ErrorUtils.h:133-143 | A serialize error never changes the reason of a remote error and flushes its path after "Failed to serialize value."; foreign errors become `Unknown`; aborts pass through. |
| ErrorUtils.MakeDeserializeError | src/remote_call/api/utils/ErrorUtils.h:145-155 | The same for deserialization, after "Failed to deserialize value.". |
| ErrorUtils.MakeCallError | src/remote_call/api/utils/ErrorUtils.h:157-165 | A call error keeps reason, fields and origin of a remote error and only extends its message; foreign errors become `Unknown`; aborts pass through. |
| ErrorUtils.ErrorTypeListName | src/remote_call/api/utils/ErrorUtils.h:194-202 | The expected-types list in error messages: `"void"` for none and the one display name for one. For more, the raw names are laid out in order, each at its start offset, with a `","` before every name but the first and nothing else (`JoinedBy`). |
| ErrorUtils.MakeFromDynamicTypeError | src/remote_call/api/utils/ErrorUtils.h:204-215 | A wrong alternative is reported as `UnexpectedType`, with no fields and no origin. |
| ErrorUtils.MakeUnsupportedValueError | src/remote_call/api/utils/ErrorUtils.h:217-223 | An unsupported value is reported as `UnsupportedValue`, with no fields and no origin. |
| ErrorUtils.TagError | src/remote_call/api/utils/ErrorUtils.h:225-252 | Tagging pushes the segment on a remote error, converts a foreign error to `Unknown` and tags it, and passes an abort through; a tagged remote error always has the segment on top. |
| ErrorUtils.MakeSerMemberError | src/remote_call/api/utils/ErrorUtils.h:225-233 | A member failure pushes `"." + name` and keeps reason and message. |
| ErrorUtils.MakeSerIndexError | src/remote_call/api/utils/ErrorUtils.h:234-242 | An element failure pushes `"[i]"` and keeps reason and message. |
| ErrorUtils.MakeSerKeyError | src/remote_call/api/utils/ErrorUtils.h:244-252 | A map-value failure pushes `["key"]` and keeps reason and message. |
| ErrorUtils.TaggingKeepsReason | src/remote_call/api/utils/ErrorUtils.h:225-252 | However many segments are pushed, the reason and message survive, and the stack grows by exactly those segments. |
| ErrorUtils.NestedTagsFields | src/test/native/InvokeTest.cpp:164-179 | Five nested tags on the way out of a nested decode leave the reason unchanged and push the five segments in order. |
| ErrorUtils.NestedPath | src/test/native/InvokeTest.cpp:164-179 | Those segments render as `[0].node.property.value.pos`. |
| ErrorUtils.NestedPathOracle | src/test/native/InvokeTest.cpp:164-179 | The test's oracle: a nested `UnexpectedType` failure flushed under `"args"` keeps `UnexpectedType`, and its message contains `args[0].node.property.value.pos`. |
| Strings.HasDoubleColon | src/remote_call/api/ABI.cpp:60-62 | The namespace test holds iff the string has two adjacent colons somewhere. |
| Strings.Join | src/remote_call/api/utils/ErrorUtils.h:194-202 | Joining gives `""` for no parts and the part itself for one; otherwise its length is the total plus one separator between each pair, and it starts with the first part and a separator. |
| Strings.JoinLayout | src/remote_call/api/utils/ErrorUtils.h:194-202 | Joining places every part at its start offset (after the earlier parts and their separators), puts one separator before every part but the first, and ends where the last part ends. |
| Strings.JoinedByIsJoin | src/remote_call/api/utils/ErrorUtils.h:194-202 | Conversely, any string laid out that way is the join, so the layout determines the list text completely. |
| Strings.JoinSeparatorCount | src/remote_call/api/reflection/TypeName.h:40-47 | Parts free of the separator character joined by it contain exactly n-1 separators. |
| Strings.NatToString | src/remote_call/api/utils/ErrorUtils.h:234-242 | An index renders as a non-empty string of decimal digits without a leading zero. |
| Strings.NatToStringRoundTrip | src/remote_call/api/utils/ErrorUtils.h:234-242 | Reading back the rendered index gives the index. |
| TypeNames.DisplayNameHasNoBar | src/remote_call/api/reflection/TypeName.h:15-31 | No alternative's display name contains the `|` separator. |
| TypeNames.TypeListName | src/remote_call/api/reflection/TypeName.h:34-65 | `typeListName` is `"void"` for no types and the name for one; for two or more it starts with the first name and the separator. For one or more, the names are laid out in order, each at its start offset, with the separator between neighbours and nothing else (`JoinedBy`). |
| TypeNames.AltListSeparatorCount | src/remote_call/api/reflection/TypeName.h:40-47 | A list of n alternatives renders with exactly n-1 `|` separators. |
| TypeNames.TypeNameOf | src/remote_call/api/reflection/TypeName.h:72-79 | `typeName(dv)` is `ArrayType` or `ObjectType` for containers, `NullType` for Null, and the alternative's display name otherwise. |
| TypeNames.TypeListNameExamples | src/remote_call/api/reflection/TypeName.h:67-69 | The static checks: one type gives its name, none gives `"void"`, and two are joined by `|`. |
| Values.Wrap | src/remote_call/api/value/Values.h:105-109 | `static_cast` to an integral type yields the unique in-range value congruent modulo 2^bits. |
| Values.WrapUnique | src/remote_call/api/value/Values.h:105-109 | Two in-range values congruent modulo 2^bits are equal, so the cast is determined. |
| Values.WrapInRange | src/remote_call/api/value/Values.h:105-109 | Casting a value already in range leaves it unchanged. |
| Values.NarrowThroughInt | src/remote_call/api/conversions/DefaultConversions.h:178-211 | The `static_cast<int>` then `static_cast<DimType>` of a position's dimension loses nothing for types no wider than `int`. |
| Values.NumberFromInt | src/remote_call/api/value/Values.h:89-104 | Constructing or assigning from an integer stores its `__int64` cast: exact when it fits, congruent modulo 2^64 otherwise. |
| Values.NumberGet | src/remote_call/api/value/Values.h:105-109 | `get<T>()` returns the in-range value of `T` congruent to the stored `i`. |
| Values.NumberRoundTrip | src/remote_call/api/value/Values.h:97-109 | Every value of every integral type survives storage in a `NumberType`, including `unsigned __int64` above the signed range. |
| Values.FromOwned | src/remote_call/api/value/Values.h:34 | Built from a `unique_ptr&&`, the pointer owns its object. |
| Values.FromBorrowed | src/remote_call/api/value/Values.h:35-36 | Built from a borrowed pointer, it does not. |
| Values.MoveConstruct | src/remote_call/api/value/Values.h:25 | Moving transfers pointer and ownership and clears the source's ownership, so at most one side owns. |
| Values.MoveAssign | src/remote_call/api/value/Values.h:27-33 | Move assignment deletes the destination's previous object exactly when it owned a non-null one, then takes over the source. |
| Values.Destroy | src/remote_call/api/value/Values.h:37-41 | Destruction deletes the object exactly when owned and non-null. |
| Values.TryGetUniquePtr | src/remote_call/api/value/Values.h:42-49 | An owner hands its pointer over and stops owning; a non-owner hands out nothing if null and a clone otherwise. |
| Values.HandoffAtMostOnce | src/remote_call/api/value/Values.h:37-49 | After one `tryGetUniquePtr` no second transfer is possible and destruction deletes nothing, so the object is handed over at most once. |
| Values.MakeBlockPosType | src/remote_call/api/value/Values.h:147-151 | `BlockPosType(pos)` defaults the dimension to 0, not the field initialiser 3. |
| Values.BlockPosTypeFromPair | src/remote_call/api/value/Values.h:152 | The pair constructor and `get<pair<BlockPos,int>>` are inverse. |
| Values.BlockPosPairRoundTrip | src/remote_call/api/value/Values.h:152-162 | Pair access then pair construction gives back the value; `get<BlockPos>` returns the position given. |
| Values.BlockPosGetVec3AsWrittenLosesZ | src/remote_call/api/value/Values.h:163-166 | As written, `get<Vec3>` keeps `z` only when it equals `y`; `(1,2,3)` reads as `(1,2,2)`. |
| Values.BlockPosGetVec3 | src/remote_call/api/value/Values.h:163-166 | Corrected `get<Vec3>`: each coordinate converted to a float. |
| Values.MakeWorldPosType | src/remote_call/api/value/Values.h:117-121 | `WorldPosType(pos)` defaults the dimension to 3 (Undefined). |
| Values.TruncToInt | src/remote_call/api/value/Values.h:129-136 | `static_cast<int>` of a float truncates toward zero. |
| Values.WorldPosGetBlockPosAsWrittenLosesZ | src/remote_call/api/value/Values.h:129-136 | As written, `get<BlockPos>` reads `z` correctly only when the position is within one block of `z == 0`; `(1,2,3)` reads as `(1,2,0)`. |
| Values.WorldPosGetBlockPos | src/remote_call/api/value/Values.h:129-136 | Corrected `get<BlockPos>`: each coordinate truncated. |
| Values.BlockWorldBlockRoundTrip | src/remote_call/api/value/Values.h:129-166 | With the corrected getters, block position to `Vec3` to block position is the identity; as written it fails for every `z != 0`. |
| Values.MakeBlockType | src/remote_call/api/value/Values.h:69-74 | `BlockType(block)` keeps the block and zero position and dimension. |
| DynamicValues.Default | src/remote_call/api/value/DynamicValue.h:35 | A default-constructed value is Null, of size 0. |
| DynamicValues.EmptyObject | src/remote_call/api/value/DynamicValue.h:76-77 | `object()` is an empty Object. |
| DynamicValues.EmptyArray | src/remote_call/api/value/DynamicValue.h:76-77 | `array()` is an empty Array. |
| DynamicValues.Size | src/remote_call/api/value/DynamicValue.h:210-218 | `size()` is the element count for Array and Object; for every other alternative it is at most 1, and 0 exactly for Null. |
| DynamicValues.Contains | src/remote_call/api/value/DynamicValue.h:220-223 | `contains` is false on anything but an Object and is key membership on an Object. |
| DynamicValues.KeyConst | src/remote_call/api/value/DynamicValue.h:224-229 | Const `[key]` succeeds exactly when `contains` holds and returns the stored value; otherwise it throws. |
| DynamicValues.KeyMut | src/remote_call/api/value/DynamicValue.h:230-238 | Mutable `[key]` works on Null and Object only. Null becomes `{key: Null}`; a missing key is inserted as Null without touching other keys; an existing slot is returned unchanged. |
| DynamicValues.SetKey | src/remote_call/api/value/DynamicValue.h:230-238 | `dv[key] = v` stores `v` under `key`, keeps every other key, and turns Null into an object. |
| DynamicValues.LiteralKey | src/remote_call/api/value/DynamicValue.h:240-244 | A string-literal key includes the terminating NUL: the literal's characters followed by `'\0'`. |
| DynamicValues.Items | src/remote_call/api/value/DynamicValue.h:245-256 | `items()` succeeds on Objects only, with as many entries as `size()`. |
| DynamicValues.IndexConst | src/remote_call/api/value/DynamicValue.h:258-263 | Const `[i]` succeeds exactly on an Array with `i` in bounds. |
| DynamicValues.IndexMut | src/remote_call/api/value/DynamicValue.h:264-269 | Mutable `[i]` throws on a non-Array; its caller keeps `i` in bounds. |
| DynamicValues.EmplaceBack | src/remote_call/api/value/DynamicValue.h:270-278 | `emplace_back` works on Null and Array only, grows the length by one, appends the value last, and keeps the old elements. |
| DynamicValues.GetTo | src/remote_call/api/value/DynamicValue.h:112-123 | `getTo` succeeds iff the value holds the target alternative, or the target is a pointer and the value is Null (a null handle); otherwise it fails with the `UnexpectedType` error naming both. |
| DynamicValues.KeyMutThenContains | src/remote_call/api/value/DynamicValue.h:230-238 | After mutable `[key]` the key is contained, the size grows by one iff it was missing, and all other keys keep their values. |
| DynamicValues.KeyMutAgreesWithConst | src/remote_call/api/value/DynamicValue.h:224-238 | On a contained key the mutable and const accessors return the same slot. |
| DynamicValues.SetKeyThenGet | src/remote_call/api/value/DynamicValue.h:224-238 | A value stored under a key is read back by const `[key]`. |
| DynamicValues.LiteralKeyDiffers | src/remote_call/api/value/DynamicValue.h:240-244 | `dv["abc"]` addresses a key different from `std::string("abc")`. |
| DynamicValues.LiteralKeyNotContained | src/remote_call/api/value/DynamicValue.h:220-244 | After `obj["abc"]` on an empty object, `contains("abc")` is false, and the NUL-terminated key is contained. |
| DynamicValues.EmplaceBackThenIndex | src/remote_call/api/value/DynamicValue.h:258-278 | After `emplace_back(v)`, index `size` reads `v` and every earlier index reads what it read before. |
| DynamicValues.EmplaceBackOnDefault | src/remote_call/api/value/DynamicValue.h:35 | `emplace_back` on a default value gives an Array of one Null. |
| DynamicValues.GetToIdempotent | src/remote_call/api/value/DynamicValue.h:112-123 | Converting an already converted value again changes nothing. |
| ConversionTypes.EnumName | src/remote_call/api/conversions/DefaultConversions.h:252-271 | `enum_name` returns a name of an enumerator with that value, or `""` when there is none. |
| ConversionTypes.EnumCast | src/remote_call/api/conversions/DefaultConversions.h:280-293 | `enum_cast` finds the value of an enumerator with that name, or nothing when none has it. |
| ConversionTypes.EnumNameCast | src/remote_call/api/conversions/DefaultConversions.h:252-293 | For a well-formed enumeration, casting an enumerator's name gives back its value. |
| ConversionTypes.EnumNameInjective | src/remote_call/api/conversions/DefaultConversions.h:252-293 | Distinct named values have distinct names. |
| ConversionTypes.Resolve | src/remote_call/api/base/Meta.h:18-31 | The overload chosen through `priority::Hightest` is a viable rule that strictly outranks every other viable rule. |
| ConversionTypes.PositionPairWinsOverTuple | src/remote_call/api/conversions/DefaultConversions.h:178-189 | A `(position, X)` tuple is viable for the tuple rule. The position-pair rule (`DefaultTag`) wins over it (`PriorityTag<2>`) exactly when `X` is an integer, `bool` or unscoped enumeration type (the `std::is_convertible_v<X, int>` test). |
| Conversions.TypeError | src/remote_call/api/utils/ErrorUtils.h:204-215 | A conversion's type error has reason `UnexpectedType` and no fields. |
| Conversions.DimToInt | src/remote_call/api/conversions/DefaultConversions.h:187 | The stored dimension is an `int` congruent to an integer or enumeration element modulo 2^32, and is 0 exactly for `false`. |
| Conversions.DimFromInt | src/remote_call/api/conversions/DefaultConversions.h:201 | The second element read back has the declared type, is congruent to the dimension modulo the type's width, and is `true` exactly for a non-zero dimension. |
| Conversions.EncodePositionPair | src/remote_call/api/conversions/DefaultConversions.h:178-189 | A position pair is written as a single position value, not as an array. Its dimension is the second element's `static_cast<int>` (`DimToInt`: wrapped for integers, 0 or 1 for `bool`, the underlying value for an enumeration). |
| Conversions.EncodeTupleFrom | src/remote_call/api/conversions/DefaultContainerConversions.h:80-96 | Tuple encoding always produces an Array whose length is the arity, because `emplace_back` runs even after a failure. |
| Conversions.EncodeListFrom | src/remote_call/api/conversions/DefaultContainerConversions.h:161-183 | Sequence encoding produces an Array of at most the sequence's length. |
| Conversions.MapEntries | src/remote_call/api/conversions/DefaultContainerConversions.h:212-238 | A map is visited once per entry, with well-typed values. |
| Conversions.EncodeMapFrom | src/remote_call/api/conversions/DefaultContainerConversions.h:212-238 | Map encoding always produces an Object. |
| Conversions.EncodeStructFrom | src/remote_call/api/conversions/DefaultContainerConversions.h:270-292 | Struct encoding always produces an Object. |
| Conversions.FromNative | src/remote_call/api/value/DynamicValue.h:189-200 | `DynamicValue::from` succeeds iff the conversion passes, and returns the written value or the conversion's error. |
| Conversions.Decode | src/remote_call/api/conversions/detail/Detail.h:16-52 | For well-formed types and well-typed user converters, whatever `fromDynamic` produces has the target type. |
| Conversions.DecodeLeaf | src/remote_call/api/conversions/DefaultConversions.h:36-49 | A leaf decode that succeeds yields a value of the target type. |
| Conversions.DecodeEnum | src/remote_call/api/conversions/DefaultConversions.h:295-309 | An enum decode that succeeds yields a value of the enumeration. |
| Conversions.DecodePosAsWritten | src/remote_call/api/conversions/DefaultConversions.h:165-176 | The position rule with the header's getters: it succeeds exactly on the two position alternatives and then yields a position of the requested kind. |
| Conversions.DecodePosAsWrittenAgrees | src/remote_call/api/value/Values.h:129-136 | The as-written position rule agrees with the engine's exactly when no cross-type read loses `z`: `z == y` for a block position read as `Vec3`, `\|z\| < 1` for a world position read as `BlockPos`. |
| Conversions.DecodePosAsWrittenExamples | src/remote_call/api/value/Values.h:163-166 | `(1,2,3)` read across position types comes back as `(1,2,2)` or `(1,2,0)` as written, and unchanged through `Decode`. |
| Conversions.DecodePositionPair | src/remote_call/api/conversions/DefaultConversions.h:190-211 | A position-pair decode that succeeds yields a position and a second element of the declared type, cast back from the stored `int` (`DimFromInt`: any non-zero dimension is `true`). |
| Conversions.DecodeTupleFrom | src/remote_call/api/conversions/DefaultContainerConversions.h:97-116 | Tuple decoding from a well-typed prefix yields a well-typed tuple. |
| Conversions.DecodeTupleLenient | src/remote_call/api/conversions/DefaultContainerConversions.h:117-156 | The same for the non-default-constructible tuple path. |
| Conversions.DecodeListFrom | src/remote_call/api/conversions/DefaultContainerConversions.h:184-210 | Sequence decoding (`emplace_back`/`push_back` containers) yields a well-typed sequence. |
| Conversions.DecodeSetFrom | src/remote_call/api/conversions/DefaultContainerConversions.h:184-210 | The array-like rule for a set-like container (`emplace`/`insert`, lines 200-203): on success the result contains every element already inserted. |
| Conversions.DecodeStrMapFrom | src/remote_call/api/conversions/DefaultContainerConversions.h:239-268 | String-keyed map decoding yields a well-typed map. |
| Conversions.DecodeEnumMapFrom | src/remote_call/api/conversions/DefaultContainerConversions.h:239-268 | Enum-keyed map decoding yields a map with in-range keys and well-typed values. |
| Conversions.DecodeStructFrom | src/remote_call/api/conversions/DefaultContainerConversions.h:294-328 | Struct decoding yields a well-typed struct. |
| Conversions.DecodeMember | src/remote_call/api/conversions/DefaultContainerConversions.h:299-325 | One member's decode yields a value of the member's type. |
| ConversionLaws.WritesNonNull | src/remote_call/api/conversions/DefaultContainerConversions.h:19-26 | Only optionals, `nullopt`/`monostate`, `nullptr_t`, pointers and user converters can write Null; every other type writes a non-Null value. |
| ConversionLaws.RoundTrip | src/test/native/SimpleTypeTest.cpp:121-124 | `fromDynamic(toDynamic(x)) == x` for every well-typed value of nested integers, strings, enums, positions, optionals, tuples, lists, maps with string or enum keys and reflectable structs, whenever encoding passes and user converters round-trip. |
| ConversionLaws.RoundTripLeaf | src/remote_call/api/conversions/DefaultConversions.h:22-176 | Every leaf value (element, string-like, number, handle, position, enum, unit) round-trips. |
| ConversionLaws.DimRoundTrip | src/remote_call/api/conversions/DefaultConversions.h:187-206 | `static_cast<int>` of the pair's second element and `static_cast<DimType>` back give the element unchanged whenever its type fits in `int`; `bool` always survives. |
| ConversionLaws.RoundTripPositionPair | src/remote_call/api/conversions/DefaultConversions.h:178-211 | A `(position, X)` pair round-trips through one position value when every `X` value fits in `int` (`DimFits`); `bool` always does. |
| ConversionLaws.RoundTripTuple | src/remote_call/api/conversions/DefaultContainerConversions.h:80-116 | Tuples round-trip. |
| ConversionLaws.RoundTripList | src/remote_call/api/conversions/DefaultContainerConversions.h:161-210 | Sequences round-trip. |
| ConversionLaws.RoundTripMap | src/remote_call/api/conversions/DefaultContainerConversions.h:212-268 | Maps round-trip. |
| ConversionLaws.RoundTripStrMap | src/remote_call/api/conversions/DefaultContainerConversions.h:212-268 | String-keyed maps round-trip. |
| ConversionLaws.RoundTripEnumMap | src/remote_call/api/conversions/DefaultContainerConversions.h:212-268 | Enum-keyed maps whose keys are named enumerators round-trip through their names. |
| ConversionLaws.RoundTripStruct | src/test/native/CustomTypeTest.cpp:111-115 | Reflectable structs round-trip. |
| ConversionLaws.TupleEncodeShape | src/remote_call/api/conversions/DefaultContainerConversions.h:80-96 | The tuple encoding passes iff every element passes; elements written before keep their slots, and on success slot j holds element j's encoding. |
| ConversionLaws.TupleEncodePrefix | src/remote_call/api/conversions/DefaultContainerConversions.h:80-96 | Elements already written are never overwritten. |
| ConversionLaws.TupleEncodeStatus | src/remote_call/api/conversions/DefaultContainerConversions.h:80-96 | The tuple passes iff no element failed. |
| ConversionLaws.TupleEncodeSlots | src/remote_call/api/conversions/DefaultContainerConversions.h:80-96 | When every element passes, slot j holds element j's encoding. |
| ConversionLaws.TupleDecodeAll | src/remote_call/api/conversions/DefaultContainerConversions.h:97-116 | When every element decodes, the tuple decodes to exactly those elements in order. |
| ConversionLaws.TupleDecodeLenientAll | src/remote_call/api/conversions/DefaultContainerConversions.h:117-148 | The same for the non-default-constructible path. |
| ConversionLaws.ListEncodeShape | src/remote_call/api/conversions/DefaultContainerConversions.h:161-183 | A sequence encoding passes iff every element passes, and then has the sequence's length with element j's encoding at j. |
| ConversionLaws.ListDecodeAll | src/remote_call/api/conversions/DefaultContainerConversions.h:184-210 | When every element decodes, the sequence decodes to exactly those elements in order. |
| ConversionLaws.StructEncodeShape | src/remote_call/api/conversions/DefaultContainerConversions.h:270-292 | A struct encoding passes iff every member passes, and then each member's name maps to its encoding. |
| ConversionLaws.StructEncodeStatus | src/remote_call/api/conversions/DefaultContainerConversions.h:270-292 | The struct passes iff no member failed. |
| ConversionLaws.StructEncodeSlots | src/remote_call/api/conversions/DefaultContainerConversions.h:270-292 | When every member passes, each member's name maps to its encoding. |
| ConversionLaws.StructDecodeAll | src/remote_call/api/conversions/DefaultContainerConversions.h:294-328 | When every member decodes, the struct decodes to exactly those members in order. |
| MapLaws.NamedImageCard | src/remote_call/api/conversions/DefaultContainerConversions.h:225-236 | Distinct enumerator keys have distinct names, so the written object has one entry per map entry. |
| MapLaws.MapFromStatus | src/remote_call/api/conversions/DefaultContainerConversions.h:212-238 | Map encoding passes iff every value's encoding passes. |
| MapLaws.MapFromContents | src/remote_call/api/conversions/DefaultContainerConversions.h:212-238 | With distinct keys, the written object's keys are the entries' keys, and each key maps to its value's encoding. |
| MapLaws.MapFromKeys | src/remote_call/api/conversions/DefaultContainerConversions.h:212-238 | From an empty object, the written keys are exactly the entries' keys. |
| MapLaws.StrMapPassIff | src/remote_call/api/conversions/DefaultContainerConversions.h:212-238 | A string-keyed map encodes iff every value does. |
| MapLaws.StrMapKeys | src/remote_call/api/conversions/DefaultContainerConversions.h:212-238 | The written object has exactly the map's keys. |
| MapLaws.StrMapValues | src/remote_call/api/conversions/DefaultContainerConversions.h:212-238 | Each key maps to its value's encoding. |
| MapLaws.StrMapEncoded | src/remote_call/api/conversions/DefaultContainerConversions.h:212-238 | A string-keyed map is written as an Object with the same keys and encoded values, and passes iff every value passes. |
| MapLaws.StrMapDecoded | src/remote_call/api/conversions/DefaultContainerConversions.h:239-268 | An Object whose keys are exactly the map's and whose values each decode gives back that map. |
| MapLaws.StrMapDecodeFrom | src/remote_call/api/conversions/DefaultContainerConversions.h:256-264 | The key walk accumulates exactly the decoded entries. |
| MapLaws.EnumEntriesDistinct | src/remote_call/api/conversions/DefaultContainerConversions.h:225-226 | Named enumerator keys give distinct object keys. |
| MapLaws.EnumMapPassIff | src/remote_call/api/conversions/DefaultContainerConversions.h:212-238 | An enum-keyed map encodes iff every value does. |
| MapLaws.EnumMapKeys | src/remote_call/api/conversions/DefaultContainerConversions.h:212-238 | The written keys are exactly the enumerator names of the map's keys. |
| MapLaws.EnumMapValues | src/remote_call/api/conversions/DefaultContainerConversions.h:212-238 | Each enumerator's name maps to its value's encoding. |
| MapLaws.EnumMapNames | src/remote_call/api/conversions/DefaultContainerConversions.h:239-255 | Every written key casts back to a key of the map. |
| MapLaws.EnumMapEncoded | src/remote_call/api/conversions/DefaultContainerConversions.h:212-238 | An enum-keyed map is written as an Object keyed by enumerator names that cast back to the map's keys, with encoded values, and passes iff every value passes. |
| MapLaws.EnumMapDecoded | src/remote_call/api/conversions/DefaultContainerConversions.h:239-268 | An Object whose names cast to the map's keys and whose values decode gives back that map. |
| MapLaws.EnumMapDecodeFrom | src/remote_call/api/conversions/DefaultContainerConversions.h:239-268 | The name walk accumulates exactly the decoded entries. |
| ConversionErrors.LeafRule | src/remote_call/api/conversions/DefaultConversions.h:36-176 | A leaf decode succeeds iff the value holds an accepted alternative (an Actor target also takes a Player, a position takes either position type, a pointer takes Null, a unit takes anything); a pointer reading Null yields a null pointer. |
| ConversionErrors.LeafFailure | src/remote_call/api/conversions/DefaultConversions.h:36-49 | Any other alternative fails with `UnexpectedType` and no fields. |
| ConversionErrors.LeafEncoding | src/remote_call/api/conversions/DefaultConversions.h:22-35 | Leaves encode as an alternative their own decode accepts; a pointer writes Null iff it is null; units and `nullptr_t` write Null. |
| ConversionErrors.EnumDecode | src/remote_call/api/conversions/DefaultConversions.h:295-309 | A reflected (non-flags) enum reading a String succeeds iff the name is an enumerator, otherwise `UnsupportedValue`; a Number is cast; anything else is `UnexpectedType`. |
| ConversionErrors.EnumEncoding | src/remote_call/api/conversions/DefaultConversions.h:273-278 | Enums are written as a Number holding the underlying value. |
| ConversionErrors.PositionPairDecode | src/remote_call/api/conversions/DefaultConversions.h:190-211 | A position pair decodes iff the value is one of the two position types, otherwise `UnexpectedType`. |
| ConversionErrors.OptionalRule | src/remote_call/api/conversions/DefaultContainerConversions.h:27-40 | Null decodes to an empty optional; anything else decodes the payload, failing exactly as the payload fails. |
| ConversionErrors.OptionalEncoding | src/remote_call/api/conversions/DefaultContainerConversions.h:19-26 | An empty optional writes Null; a full one writes its payload. |
| ConversionErrors.TupleShapeErrors | src/remote_call/api/conversions/DefaultContainerConversions.h:97-105 | A tuple from a non-Array is `UnexpectedType`; from an Array of another length it is `IndexOutOfRange`. |
| ConversionErrors.TupleFirstFailure | src/remote_call/api/conversions/DefaultContainerConversions.h:106-115 | Elements before the first failing one decode; the result is that element's error tagged `[k]`; if none fails the tuple decodes. |
| ConversionErrors.LenientEmpty | src/remote_call/api/conversions/DefaultContainerConversions.h:117-148 | On an empty value the lenient tuple path succeeds iff every element is optional; otherwise the first non-optional element gives `IndexOutOfRange` tagged `[k]`. |
| ConversionErrors.LenientIgnoresExtra | src/remote_call/api/conversions/DefaultContainerConversions.h:117-148 | Extra array elements beyond the arity are not rejected. |
| ConversionErrors.ListShapeError | src/remote_call/api/conversions/DefaultContainerConversions.h:184-188 | A sequence from a non-Array is `UnexpectedType`. |
| ConversionErrors.ListFirstFailure | src/remote_call/api/conversions/DefaultContainerConversions.h:192-209 | The first failing element's error is returned tagged `[k]`, and all earlier elements decoded. |
| ConversionErrors.SetDecodeIsListDecode | src/remote_call/api/conversions/DefaultContainerConversions.h:192-209 | The set-like loop fails exactly when the sequence loop does, with the same `[k]`-tagged error, and otherwise holds exactly the sequence's elements with duplicates merged, since `insert` drops an equal element. |
| ConversionErrors.SetDropsDuplicates | src/remote_call/api/conversions/DefaultContainerConversions.h:196-203 | `Array[1, 1]` decodes to `[1, 1]` in a sequence container and to `{1}` in a set-like one. |
| ConversionErrors.MapShapeError | src/remote_call/api/conversions/DefaultContainerConversions.h:239-247 | A map from a non-Object is `UnexpectedType`. |
| ConversionErrors.StrMapFirstFailure | src/remote_call/api/conversions/DefaultContainerConversions.h:256-264 | The first failing value in key order is returned tagged `["key"]`. |
| ConversionErrors.EnumMapUnknownKey | src/remote_call/api/conversions/DefaultContainerConversions.h:249-255 | A key that is no enumerator name makes the decode fail with `UnsupportedValue`. |
| ConversionErrors.EnumMapRejectsUnknownName | src/remote_call/api/conversions/DefaultContainerConversions.h:249-255 | An Object holding an unknown enumerator name is rejected with `UnsupportedValue`. |
| ConversionErrors.StructShapeError | src/remote_call/api/conversions/DefaultContainerConversions.h:294-298 | A struct from a non-Object is `UnexpectedType`. |
| ConversionErrors.MemberRule | src/remote_call/api/conversions/DefaultContainerConversions.h:299-325 | A missing optional member is empty; another missing member is `KeyNotFound`; a present member succeeds iff its value decodes, and a failure is tagged `.name` with its reason kept. |
| ConversionErrors.StructFirstFailure | src/remote_call/api/conversions/DefaultContainerConversions.h:294-328 | The first failing member's error is the struct's error, and all earlier members decoded. |
| ConversionErrors.StructIgnoresExtraKeys | src/remote_call/api/conversions/DefaultContainerConversions.h:294-328 | Keys that name no member do not affect the result. |
| ConversionErrors.BuiltInEncodeNeverFails | src/remote_call/api/conversions/DefaultConversions.h:22-35 | Without user converters, and with every enum-map key a named enumerator, encoding never fails; failures come only from user code. |
| ConversionErrors.StructEncodePasses | src/remote_call/api/conversions/DefaultContainerConversions.h:270-292 | A struct passes when all its remaining members pass. |
| Registry.KeyNameInjective | src/remote_call/api/ABI.cpp:63-71 | Within one namespace, distinct names give distinct keys. |
| Registry.KeyNotInjective | src/remote_call/api/ABI.cpp:60-71 | Across namespaces the `::` check does not make the key injective: `("a:", "b")` and `("a", ":b")` both pass it and share the key `a:::b`. |
| Registry.ExportFunc | src/remote_call/api/ABI.cpp:53-75 | Export fails with `InvalidName` iff the namespace has `::`, else with `AlreadyExists` iff the key exists, leaving the table unchanged; otherwise it adds exactly one enabled entry and keeps every other one. |
| Registry.GetProvider | src/remote_call/api/ABI.cpp:92-96 | `getProvider` is the stored provider, or none for an absent key. |
| Registry.ImportFunc | src/remote_call/api/ABI.cpp:77-83 | Import fails with `NotExported` iff the key is absent, with `ProviderDisabled` iff it is disabled and disabled entries are excluded, and otherwise returns the stored callable. |
| Registry.HasFuncIffImport | src/remote_call/api/ABI.cpp:77-90 | `hasFunc` holds exactly when `importFunc` would succeed. |
| Registry.ExportThenImport | src/remote_call/api/ABI.cpp:53-83 | After a successful export, import returns the callable, `hasFunc` holds and the provider is recorded. |
| Registry.RemoveKey | src/remote_call/api/ABI.cpp:98 | Removing a key reports whether it was present, removes exactly that key and keeps the rest. |
| Registry.RemoveFunc | src/remote_call/api/ABI.cpp:100-102 | The same for the key of `(ns, name)`. |
| Registry.RemoveFuncs | src/remote_call/api/ABI.cpp:116-122 | `removeFuncs` removes exactly the listed keys and keeps the rest. |
| Registry.RemoveFuncsCount | src/remote_call/api/ABI.cpp:116-122 | The count is the number of listed keys that were present. |
| Registry.RemoveNameSpaceAsWrittenNoop | src/remote_call/api/ABI.cpp:104-114 | As written, `removeNameSpace` removes nothing and returns 0 for every table. |
| Registry.RemoveNameSpace | src/remote_call/api/ABI.cpp:104-114 | Corrected: exactly the keys starting with `ns::` are removed, the rest kept, and the count is how many went. |
| Registry.RemoveNameSpaceRemovesAll | src/remote_call/api/ABI.cpp:104-114 | After the corrected removal no function of the namespace is found, disabled or not. |
| Registry.RemoveAllFunc | src/remote_call/api/ABI.cpp:124 | After `removeAllFunc` no function is found. |
| Registry.ClearMod | src/remote_call/api/ABI.cpp:22-29 | `clearMod(name)` removes exactly the entries whose provider expired or has that name; every other entry is untouched. |
| Registry.SwitchMod | src/remote_call/api/ABI.cpp:31-43 | `switchMod(name, enable)` erases entries with expired providers, sets `disabled = !enable` on that mod's entries, and changes nothing else. |
| Registry.SwitchModImport | src/remote_call/api/ABI.cpp:31-43 | After disabling a mod its function is `ProviderDisabled` to import but still found when disabled entries are included; re-enabling makes it importable again. |
| Registry.NameKeys | src/test/native/ABITest.cpp:28-30 | The keys of a list of names in one namespace are exactly their `ns::name` keys. |
| Registry.ExportAll | src/test/native/ABITest.cpp:28-30 | Exporting a list of fresh names adds exactly their keys and keeps the old entries. |
| Registry.ExportTwice | src/remote_call/api/ABI.cpp:63-68 | Exporting a key a second time fails with `AlreadyExists` and leaves the first entry in place. |
| Registry.ExportThenRemove | src/remote_call/api/ABI.cpp:98-102 | Removing a just-exported function reports true and restores the table. |
| Registry.NameKeysCard | src/test/native/ABITest.cpp:28-30 | Distinct names give as many keys as names. |
| Registry.RegistryTestSingle | src/test/native/ABITest.cpp:19-27 | In a fresh namespace, `hasFunc` is false before the export and the export succeeds. |
| Registry.RegistryTestRemoveFuncs | src/test/native/ABITest.cpp:32-39 | Removing three pairs of which one was never exported returns 2. |
| Registry.RegistryTestAfterRemoveFuncs | src/test/native/ABITest.cpp:40-41 | Afterwards `abi5` is gone and `abi3` remains. |
| Registry.RegistryTestRemoveNameSpace | src/test/native/ABITest.cpp:42-43 | The corrected `removeNameSpace` returns the 8 the test expects; as written it returns 0. |
| Registry.TestSetupHolds | src/test/native/ABITest.cpp:14-30 | The generic test lemmas apply to the test's namespace `RemoteCall`, names `abi0`..`abi9` and the missing `abi115`. |
| ExportImpl.NonOptionalArgsCount | src/remote_call/api/impl/ExportImpl.h:35-50 | The largest 1-based position up to `Max` whose parameter is neither optional nor `nullptr_t`, or 0: every later position is omittable. |
| ExportImpl.NonOptionalArgsCountUnique | src/remote_call/api/impl/ExportImpl.h:35-50 | That count is the only number with this property. |
| ExportImpl.RequiredArgsCount | src/remote_call/api/impl/ExportImpl.h:52-75 | One more than the largest `I < n` for which the function is not invocable with `I` arguments, or 0; it is invocable with every count from there up to `n`. |
| ExportImpl.CountsOfCommentExample | src/remote_call/api/impl/ExportImpl.h:233-238 | For `int, optional<int>, int = 2`: Required is 2 and NonOptional is 1, as the source comment says. |
| ExportImpl.Resize | src/remote_call/api/impl/ExportImpl.h:214 | `resize(n)` keeps the first `n` elements and pads with Null. |
| ExportImpl.TrailingNulls | src/remote_call/api/impl/ExportImpl.h:198-209 | The number of Nulls at the end: all trailing elements counted are Null and the one before is not. |
| ExportImpl.Normalize | src/remote_call/api/impl/ExportImpl.h:190-217 | Normalization fails iff `NonOptional > 0` and fewer arguments were given; with Required 0 the arguments are unchanged; otherwise the result has between Required and ArgsCount elements and is the arguments extended with Null. |
| ExportImpl.NormalizeArgs | src/remote_call/api/impl/ExportImpl.h:190-217 | The in-place loop version agrees with `Normalize`, and leaves the arguments untouched on failure, so the count error reports the original count. |
| ExportImpl.NormalizeNoTrailingNull | src/remote_call/api/impl/ExportImpl.h:197-215 | With at most ArgsCount arguments, a result longer than Required does not end in Null. |
| ExportImpl.NormalizeKeepsValues | src/remote_call/api/impl/ExportImpl.h:197-215 | Every non-Null argument survives at its position. |
| ExportImpl.NormalizeIdempotent | src/remote_call/api/impl/ExportImpl.h:190-217 | With at most ArgsCount arguments, normalizing twice equals normalizing once. |
| ExportImpl.NormalizeExact | src/remote_call/api/impl/ExportImpl.h:190-217 | Arguments of an acceptable count that do not end in Null beyond Required are left as they are. |
| ExportImpl.NormalizeOverlongKeepsNull | src/remote_call/api/impl/ExportImpl.h:198-209 | With more than ArgsCount arguments the Null scan reads the untruncated tail: `[1, Null, true]` for ArgsCount 2 leaves `[1, Null]`, which a second pass shortens. |
| ExportImpl.MissingSlotError | src/remote_call/api/impl/ExportImpl.h:104-110 | A missing argument is `IndexOutOfRange` tagged `[idx]`. |
| ExportImpl.DecodeSlot | src/remote_call/api/impl/ExportImpl.h:85-113 | A present non-Null slot is decoded, a failure tagged `[idx]`. An absent or Null slot takes its default, or is an empty optional, and is otherwise `IndexOutOfRange`, even for an explicit Null. |
| ExportImpl.FirstFailing | src/remote_call/api/impl/ExportImpl.h:91-92 | Slots are evaluated in the given order; the first failing one is found and all before it succeeded. |
| ExportImpl.DecodeArgs | src/remote_call/api/impl/ExportImpl.h:78-118 | The arguments decode iff every slot does, to exactly the slot values in order; a failure is some slot's error. |
| ExportImpl.DecodeArgsOrder | src/remote_call/api/impl/ExportImpl.h:114-117 | With at most one failing slot, the evaluation order of the `make_tuple` arguments does not change the result. |
| ExportImpl.DecodeArgsAllSucceed | src/remote_call/api/impl/ExportImpl.h:78-118 | When every slot decodes, the argument tuple is those values. |
| ExportImpl.DecodeArgsAllPresent | src/remote_call/api/impl/ExportImpl.h:85-97 | When every argument is present, non-Null and decodes, the tuple is the decoded values. |
| ExportImpl.CallAndEncode | src/remote_call/api/impl/ExportImpl.h:141-159 | An exception thrown by the exported function (of any return type) propagates unchanged. Otherwise a `void` function returns Null, a failing fallible function gives a call error, and any other result is encoded, with an encode failure flushed under `"ret"`. |
| ExportImpl.ExportCall | src/remote_call/api/impl/ExportImpl.h:120-160 | A decode failure is flushed under `"args"` and the function is not called; otherwise the decoded arguments are passed to the call. |
| ExportImpl.ExportClosure | src/remote_call/api/impl/ExportImpl.h:219-254 | The `exportAs` closure reports `ArgsCountNotMatch` with the original count when too few arguments are given; otherwise it runs the call on the normalized arguments. |
| ExportImpl.ExportClosureExact | src/remote_call/api/impl/ExportImpl.h:219-254 | Given exactly one present, decodable argument per parameter, the closure calls the function on exactly the decoded values. |
| ExportImpl.ExArity | src/remote_call/api/impl/ExportImpl.h:162-188 | `exportEx` picks the arity `max(Required, min(n, ArgsCount))`. |
| ExportImpl.ExArityInvocable | src/remote_call/api/impl/ExportImpl.h:162-188 | The chosen arity is always one the function can be invoked with. |
| ExportImpl.ExportExClosure | src/remote_call/api/impl/ExportImpl.h:256-287 | The `exportEx` closure counts like `exportAs` and calls the function on the prefix of parameters of the chosen arity. |
| ExportImpl.ExportExClosureExact | src/remote_call/api/impl/ExportImpl.h:256-287 | Given between Required and ArgsCount decodable arguments, it calls the function with exactly those. |
| ExportImpl.ExportOptionalOmitted | src/test/native/InvokeTest.cpp:200-213 | An omitted or Null `optional<string>` argument reaches the function as an empty optional. |
| ExportImpl.ExportOptionalGiven | src/test/native/InvokeTest.cpp:214-218 | A given string reaches the function as a full optional. |
| ExportImpl.ExportMissingArgument | src/test/native/InvokeTest.cpp:142-152 | Calling a one-string function with no arguments is `ArgsCountNotMatch`, "requires 1 args, but 0 provided". |
| ExportImpl.ExportSingleDecodeFails | src/remote_call/api/impl/ExportImpl.h:85-134 | A single argument that fails to decode fails the call with that failure's reason. |
| ExportImpl.StringFromNumber | src/remote_call/api/conversions/DefaultConversions.h:36-49 | A Number does not decode as a string: `UnexpectedType`. |
| ExportImpl.ExportWrongType | src/test/native/InvokeTest.cpp:153-163 | Passing a number to a string parameter fails with `UnexpectedType`. |
| ExportImpl.ExportNullArgumentMissing | src/remote_call/api/impl/ExportImpl.h:93-110 | An explicit Null for a `nullptr_t` or pointer parameter is treated as a missing argument and fails with `IndexOutOfRange`, although the pointer rule itself would accept Null. |
| ExportImpl.ExportFallibleFails | src/test/native/InvokeTest.cpp:190-199 | A fallible function's failure keeps its reason through the call error. |
| ImportImpl.RealReturn | src/remote_call/api/impl/ImportImpl.h:12-28 | `corrected_return` maps `void` to no value and a bare type to itself. |
| ImportImpl.RealReturnQualified | src/remote_call/api/impl/ImportImpl.h:12-28 | However a return type is wrapped in `const`, `&&`, `&` and `Expected`, the result is decoded into the bare type. |
| ImportImpl.DeclaredOf | src/remote_call/api/impl/ImportImpl.h:27-28 | The declared return of an exported signature decodes into the same type, and is void exactly when the export is void. |
| ImportImpl.EncodeArgs | src/remote_call/api/impl/ImportImpl.h:41-46 | The arguments encode iff each does, into an array of one slot per argument in order; a failure is the first failing argument's error tagged `[k]`. |
| ImportImpl.ReadReturn | src/remote_call/api/impl/ImportImpl.h:51-53 | A void import always succeeds with nothing; otherwise the result succeeds iff it decodes into the real return type, and a failure is flushed under `"ret"`. |
| ImportImpl.CallAndRead | src/remote_call/api/impl/ImportImpl.h:48-53 | A failing callee gives a call error; otherwise its result is read back. |
| ImportImpl.ImportCall | src/remote_call/api/impl/ImportImpl.h:30-54 | A lookup failure is forwarded unchanged. An encode failure is flushed under `"args"` and nothing is called. Otherwise the stored closure is called on the encoded arguments and its result read. |
| ImportImpl.ImportLookupFirst | src/test/native/InvokeTest.cpp:133-141 | Importing an absent or disabled function gives `NotExported` or `ProviderDisabled` respectively, whatever the codec and closures. |
| ImportImpl.ImportArgumentFails | src/remote_call/api/impl/ImportImpl.h:45-46 | An argument that fails to encode fails the import with its reason, and the closure plays no part. |
| ImportImpl.ImportCallAsWritten | src/remote_call/api/impl/ImportImpl.h:30-54 | The import as written, which converts the argument tuple as one value: a lookup failure is forwarded unchanged. Its other behaviour is stated by `ImportAsWrittenAgrees`, `ImportAsWrittenFailsAlike` and `ImportPositionPairAsWritten`. |
| ImportImpl.ImportPositionPairAsWritten | src/remote_call/api/impl/ImportImpl.h:41-48 | As written, importing a function of `(BlockPos or Vec3, X)` with `X` an integer, `bool` or unscoped enumeration aborts: the tuple is written as a position, and `get<DynamicArray>` throws. |
| ImportImpl.PositionPairNotArray | src/remote_call/api/conversions/DefaultConversions.h:178-189 | The argument tuple `(position, X)`, for every `X` convertible to `int`, encodes without error, but not as an array. |
| ImportImpl.PositionPairArgsEncode | src/remote_call/api/impl/ImportImpl.h:41-46 | Encoded element by element, the same arguments form a two-slot array. |
| ImportImpl.ImportPositionPairCorrected | src/remote_call/api/impl/ImportImpl.h:41-53 | Corrected: the same import encodes its two arguments and calls the closure on them. |
| ImportImpl.EngineEncodesArgs | src/remote_call/api/conversions/DefaultContainerConversions.h:80-96 | For every other signature the tuple rule and element-wise encoding agree: both pass iff every argument passes, and then give the same array. |
| ImportImpl.ImportAsWrittenAgrees | src/remote_call/api/impl/ImportImpl.h:41-46 | Except for position pairs, the import as written and the corrected one give the same result whenever the arguments encode. |
| ImportImpl.ImportAsWrittenFailsAlike | src/remote_call/api/impl/ImportImpl.h:45-46 | And both fail when an argument fails to encode. |
| ImportImpl.ProxyBeforeExport | src/remote_call/api/impl/ImportImpl.h:56-64 | A proxy built before the export fails with `NotExported` when called; the same proxy finds the function once it is exported, because lookup happens at each call. |
| ImportImpl.SlotsReadBack | src/remote_call/api/impl/ImportImpl.h:41-46 | Arguments that cross the codec are read back by the exporter's slot decoding as exactly the values sent. |
| ImportImpl.ArgumentsArrive | src/remote_call/api/impl/ExportImpl.h:219-254 | The exporter's closure, given the importer's encoded array, calls the function on exactly the importer's arguments. |
| ImportImpl.ImportOfExport | src/test/native/InvokeTest.cpp:96-104 | Importing an exported function under the same parameter types runs it on exactly the importer's arguments. An exception it throws reaches the importer unchanged, a void function that returns gives nothing, a result that comes back intact is returned, and a failing fallible function's reason is kept across both sides. |
| ImportImpl.EngineCrosses | src/remote_call/api/conversions/DefaultContainerConversions.h:80-116 | With the real engine, every round-trippable argument that cannot be mistaken for a missing one crosses intact. |
| ImportImpl.EngineComesBack | src/remote_call/api/impl/ImportImpl.h:51-53 | With the real engine, every round-trippable result comes back intact. |

## Left out

- Floating point: the `double` half of `NumberType`, and `Vec3` and `WorldPosType` coordinates, are exact reals. Float rounding and float-to-int overflow are not modelled.
- `magic_enum` and `boost::pfr`: an enumeration is a finite name/value table (`EnumDesc`), and a reflectable struct is a field list. Flags enumerations (magic_enum's `enum_subtype::flags`) are not modelled; see `Conversions.DecodeEnum` below.
- `type_raw_name_v` and `fmt` rendering: raw type names are fixed strings in MSVC's spelling.
- The `corrected_arg` reference machinery and the reference conversions (`DefaultConversions.h` 213-250): arguments and returns of `T&` type are not modelled.
- `registerOnModUnload` and `NativeMod::current()` (`ABI.cpp` 45-51): the provider is a parameter, and `clearMod` and `switchMod` are operations the caller invokes.
- The `returnExpected` parameter declared in `ABI.h` is not stored by `ABI.cpp` and is not modelled.
- `RemoteCall.h`/`RemoteCall.cpp`, `API.h`, `legacy/Compatibility.*`, `IdentifierMap.h`, `core/LegacyRemoteCall.*` and the stale `conversion/` directory are not part of this model. They are duplicates, thin wrappers or unused snapshots of the code modelled here.
- `importEx` (`ImportImpl.h` 75-91) is not modelled separately. Its closure takes `auto&&... args` where `importAs`'s takes the declared `Args...` (`ImportImpl.h` 61, 70, 79, 88), so the arguments are encoded at the caller's own types. Both closures then run the same `importCallImpl`, so `ImportCall` covers `importEx` when the parameter list of its `ImportSignature` is the caller's argument types.
- `std::unordered_map` iteration order: keys are visited in sorted order. This only decides which of several failing entries is reported.
- The `make_tuple` evaluation order of the export slots is the parameter `order`. The non-default-constructible tuple and struct paths (`fromDynamicTupleImpl` and `fromDynamicReflectableImpl`, `DefaultContainerConversions.h` 150 and 360) also build their elements with `std::make_tuple`, whose argument order C++ leaves unspecified. The model evaluates them left to right. Only the default-constructible tuple path (111-113) and the tuple `toDynamic` (91-93) use a comma fold, which is left to right.
- Conversions.DecodeTupleLenient: elements are read left to right. In C++ the order is unspecified, so when several elements fail, the reported error may be a different failing element's.
- ConversionErrors.LenientEmpty: the "first non-optional element" reported assumes left-to-right evaluation of the `make_tuple` arguments; C++ only guarantees that some missing non-optional element is reported.
- ConversionErrors.StructFirstFailure: for a non-default-constructible struct, the first failing member is first in left-to-right order, which C++ does not guarantee; for a default-constructible struct, `forEachMember` does visit members in order.
- Conversions.Decode: an ill-typed value given to the `Codec` built from the engine is `Abort(IllTyped)`. In C++ this cannot be compiled, so the case has no counterpart.
- `toDynamicEnumName` (`DefaultConversions.h` 252-271) is never reached by the `toDynamic` dispatch. Enums encode as a Number, and only its name lookup is modelled (`EnumName`).
- The per-component vector rule (`PriorityTag<2>`, `DefaultContainerConversions.h` 54-78) is represented only as a candidate that the position rule outranks.
- The `Block*`, `ItemType` and `NbtType` conversions (`DefaultConversions.h` 311-318) and their payloads are represented only as opaque alternatives.
- C++ exceptions from `std::variant::get`, the DynamicValue accessors and the exported callback itself become `Abort` errors. An `Abort` passes unchanged through every `Expected` wrapper. An exported callback is assumed to return an error value only when its return type is `Expected` (`Conforms`), as the C++ type system ensures.
- `tryGet<void>` is represented by `ReadReturn`'s void case, which always succeeds.
- ExportImpl.NormalizeOverlongKeepsNull: `normalizeArgs` with more than `ArgsCount` arguments is modelled as written. The idempotence lemma is stated only for at most `ArgsCount` arguments, because beyond that it does not hold.
- ConversionTypes.IntLike: a floating-point second element of a position pair (also `convertible_to<int>`) is not modelled, because the model has no floating-point types.
- Conversions.Decode: reads positions through the corrected getters `BlockPosGetVec3` and `WorldPosGetBlockPos`, not the header's (`Values.h` 129-136 and 163-166). For a block position read as `Vec3` with `z != y`, or a world position read as `BlockPos` with `|z| >= 1`, it does not return what the unmodified code returns; `DecodePosAsWritten` does.
- Conversions.DecodeLeaf: the position case uses the corrected getters, as `Decode` does.
- Conversions.DecodePositionPair: the position half uses the corrected getters, as `Decode` does.
- Conversions.DecodeEnum: flags enumerations are not modelled. For them the source reads a String with `enum_flags_cast` (`DefaultConversions.h` 284-285), so a composite name such as `"A|B"` decodes to the bitwise or of the named flags; the model has only the single-name `enum_cast`, and gives `UnsupportedValue` there.
- ConversionErrors.EnumDecode: its "succeeds iff the name is an enumerator" holds for non-flags enumerations only; a flags enumeration also accepts composite `|`-separated names, which the model does not cover.
- Conversions.DecodeListFrom: `TList` is decoded as a sequence container (`emplace_back`/`push_back`). Set-like containers (`insert`/`emplace`, `DefaultContainerConversions.h` 200-203) are modelled only by `DecodeSetFrom`, which `Decode` does not reach because `TypeDesc` has no set type; their encoding and native set values are not modelled.
- Values.NumberFromInt: construction from `double` and `float` (truncation to `__int64`) is not modelled, because floating point is out of scope.

## Findings

| source | as written | input that shows it | evidently intended | confidence | as-written member | corrected member |
|---|---|---|---|---|---|---|
| src/remote_call/api/ABI.cpp:104-114 | `removeNameSpace` tests whether the namespace string starts with `nameSpace + "::"`. That is never true, so nothing is removed and 0 is returned. | The ABITest table: 8 entries left in `RemoteCall`, and `removeNameSpace("RemoteCall")` returns 0. | Test each key against `ns + "::"`, remove the matches and count them; the test expects 8. | high, not executed | Registry.RemoveNameSpaceAsWrittenNoop | Registry.RemoveNameSpace |
| src/remote_call/api/impl/ImportImpl.h:41-48 | The argument tuple is converted with `toDynamic` as one value. For `(BlockPos, X)` or `(Vec3, X)` with `X` an integer, `bool` or unscoped enumeration type, the position-pair rule (`DefaultTag`) outranks the tuple rule (`PriorityTag<2>`), so `params` holds a position and `get<DynamicArray>()` throws. | Importing `void(BlockPos, int)` and calling it with `(BlockPos{1,2,3}, 0)`. | Encode the arguments into an array with one slot each, as for every other signature. | medium, not executed | ImportImpl.ImportPositionPairAsWritten | ImportImpl.ImportPositionPairCorrected |
| src/remote_call/api/value/Values.h:163-166 | `BlockPosType::get<Vec3>()` copies `pos.y` into `z`. | `BlockPosType({1,2,3})` read as `Vec3` gives `(1,2,2)`; through the position rule, `Conversions.DecodePosAsWrittenExamples` shows the as-written decode yields `Vec3(1,2,2)` where `Decode` yields `Vec3(1,2,3)`. | Use `pos.z` for `z`. | high, not executed | Values.BlockPosGetVec3AsWrittenLosesZ | Values.BlockWorldBlockRoundTrip |
| src/remote_call/api/value/Values.h:129-136 | `WorldPosType::get<BlockPos>()` assigns `y` twice and leaves `z` at 0. | `WorldPosType({1,2,3})` read as `BlockPos` gives `(1,2,0)`; through the position rule, `Conversions.DecodePosAsWrittenExamples` shows the as-written decode yields `BlockPos(1,2,0)` where `Decode` yields `BlockPos(1,2,3)`. | Assign `z` from `pos.z`. | high, not executed | Values.WorldPosGetBlockPosAsWrittenLosesZ | Values.BlockWorldBlockRoundTrip |
