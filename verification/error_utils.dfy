/** The error taxonomy of utils/ErrorUtils.h: `ErrorReason`, the
    `RemoteCallError` record with its message, optional origin error and
    field-path stack, and the `make*Error` constructors used by the conversion
    rules and the call pipelines.

    An `ll::Error` is either a `RemoteCallError`, some other (foreign) error,
    of which only the message matters, or, in this model, `Abort`: a C++
    exception or `__debugbreak` that leaves the Expected-based error flow
    altogether.  Every wrapper below passes `Abort` through unchanged. */
module ErrorUtils {

  import opened Wrappers
  import opened Strings
  import opened Base

  datatype ErrorReason =
    | Unknown | InvalidName | AlreadyExists | NotExported | ProviderDisabled
    | ArgsCountNotMatch | UnexpectedType | UnsupportedValue | IndexOutOfRange | KeyNotFound

  /** A `RemoteCallError`.  The origin, when present, is the message of a
      foreign error: the constructor's assertion that the origin is not itself
      a `RemoteCallError` holds by construction of this type. */
  datatype RemoteCallError = RemoteCallError(
    reason: ErrorReason,
    msg: string,
    fields: seq<string>,
    origin: Option<string>)

  datatype Error =
    | Remote(err: RemoteCallError)
    | Foreign(text: string)
    | Abort(what: string)

  // ---------------------------------------------------------------------------
  // RemoteCallError members
  // ---------------------------------------------------------------------------

  /** A fresh error with an empty field stack. */
  function NewError(reason: ErrorReason, msg: string): (e: RemoteCallError)
    ensures e.reason == reason && e.msg == msg
    ensures e.fields == [] && e.origin.None?
  {
    RemoteCallError(reason, msg, [], None)
  }

  /** `message()`: the stored message, followed by the origin's message when
      there is an origin. */
  function Message(e: RemoteCallError): (r: string)
    ensures StartsWith(r, e.msg)
    ensures e.origin.None? ==> r == e.msg
    ensures e.origin.Some? ==> r[|e.msg|..] == "\nOrigin Error: " + e.origin.value
  {
    match e.origin
    case None => e.msg
    case Some(o) =>
      var r := e.msg + "\nOrigin Error: " + o;
      assert r[..|e.msg|] == e.msg;
      r
  }

  /** `ll::Error::message()`. */
  function ErrorMessage(e: Error): string {
    match e
    case Remote(r) => Message(r)
    case Foreign(t) => t
    case Abort(w) => w
  }

  /** The message with a `"\n"` added unless it already ends with one. */
  function EnsureNewline(s: string): (r: string)
    ensures EndsWithNewline(r)
    ensures StartsWith(r, s)
    ensures |r| <= |s| + 1
    ensures EndsWithNewline(s) <==> r == s
  {
    if EndsWithNewline(s) then s
    else
      var r := s + "\n";
      assert r[..|s|] == s;
      r
  }

  lemma EnsureNewlineIdempotent(s: string)
    ensures EnsureNewline(EnsureNewline(s)) == EnsureNewline(s)
  {
  }

  /** `append(text)`: the text always starts on a fresh line, and at most one
      `"\n"` is inserted before it. */
  function Append(e: RemoteCallError, text: string): (r: RemoteCallError)
    ensures r.reason == e.reason && r.fields == e.fields && r.origin == e.origin
    ensures StartsWith(r.msg, e.msg)
    ensures |r.msg| >= |text| + 1 && r.msg[|r.msg| - |text|..] == text
    ensures r.msg[|r.msg| - |text| - 1] == '\n'
    ensures |e.msg| + |text| <= |r.msg| <= |e.msg| + |text| + 1
  {
    var head := EnsureNewline(e.msg);
    var m := head + text;
    assert m[..|e.msg|] == head[..|e.msg|];
    assert m[|m| - |text|..] == text;
    assert m[|m| - |text| - 1] == head[|head| - 1];
    e.(msg := m)
  }

  /** The raw name of the `UnknownFn` placeholder signature. */
  const UnknownFnSignature: string := "struct remote_call::error_utils::UnknownFn"

  /** The provider line appended by `append<Fn>(ns, func)`; a missing or
      expired provider is named `UnknownMod`. */
  function FunctionLine(ns: string, func: string, signature: string, provider: Option<string>): string {
    "Function: [" + ns + "::" + func + "](signature " + signature + ") provided by <"
      + provider.GetOr("UnknownMod") + ">.\n"
  }

  /** `append<Fn>(ns, func)`, with the provider looked up by the caller. */
  function AppendFunction(e: RemoteCallError, ns: string, func: string, signature: string,
                          provider: Option<string>): (r: RemoteCallError)
    ensures r.reason == e.reason && r.fields == e.fields && r.origin == e.origin
    ensures StartsWith(r.msg, e.msg)
    ensures EndsWithNewline(r.msg)
    ensures r.msg == EnsureNewline(e.msg) + ("Function: [" + ns + "::" + func + "](signature " + signature
      + ") provided by <" + (if provider.Some? then provider.value else "UnknownMod") + ">.\n")
  {
    Append(e, FunctionLine(ns, func, signature, provider))
  }

  /** `joinField`: pushes one segment on the field stack. */
  function JoinField(e: RemoteCallError, segment: string): (r: RemoteCallError)
    ensures r.reason == e.reason && r.msg == e.msg && r.origin == e.origin
    ensures |r.fields| == |e.fields| + 1
    ensures r.fields[..|e.fields|] == e.fields && r.fields[|e.fields|] == segment
  {
    e.(fields := e.fields + [segment])
  }

  /** The field stack rendered most recent segment first
      (`for (auto&& f : mFiled | std::views::reverse)`). */
  function FieldPath(fields: seq<string>): string {
    if |fields| == 0 then "" else fields[|fields| - 1] + FieldPath(fields[..|fields| - 1])
  }

  /** The segment pushed last is rendered first. */
  lemma FieldPathPush(fields: seq<string>, segment: string)
    ensures FieldPath(fields + [segment]) == segment + FieldPath(fields)
  {
    assert (fields + [segment])[..|fields|] == fields;
  }

  /** `msg` without one trailing `"\n"` (`remove_suffix(1)`). */
  function StripNewline(s: string): (r: string)
    ensures EndsWithNewline(s) ==> r + "\n" == s
    ensures !EndsWithNewline(s) ==> r == s
  {
    if EndsWithNewline(s) then s[..|s| - 1] else s
  }

  /** `flushFields(text, valueName)`: appends a line naming the failing value
      by its path and empties the field stack. */
  function FlushFields(e: RemoteCallError, text: string, valueName: string): (r: RemoteCallError)
    ensures r.reason == e.reason && r.origin == e.origin
    ensures r.fields == []
    ensures StartsWith(r.msg, EnsureNewline(e.msg))
    ensures var tail := " Field: " + (valueName + FieldPath(e.fields)) + "\n";
      |r.msg| >= |tail| && r.msg[|r.msg| - |tail|..] == tail
    ensures var tail := " Field: " + (valueName + FieldPath(e.fields)) + "\n";
      |r.msg| == |EnsureNewline(e.msg)| + |StripNewline(text)| + |tail|
      && r.msg[|EnsureNewline(e.msg)|..|r.msg| - |tail|] == StripNewline(text)
  {
    var head := EnsureNewline(e.msg) + StripNewline(text);
    var tail := " Field: " + (valueName + FieldPath(e.fields)) + "\n";
    var m := head + tail;
    assert m[..|EnsureNewline(e.msg)|] == EnsureNewline(e.msg);
    assert m[|m| - |tail|..] == tail;
    assert m[|EnsureNewline(e.msg)|..|m| - |tail|] == StripNewline(text);
    RemoteCallError(e.reason, m, [], e.origin)
  }

  /** `convertUnknownError(msg, error)`: wraps a foreign error once. */
  function ConvertUnknownError(text: string, origin: string): (r: RemoteCallError)
    ensures r.reason == Unknown && r.fields == [] && r.origin == Some(origin)
    ensures r.msg == text + ": " + origin
  {
    RemoteCallError(Unknown, text + ": " + origin, [], Some(origin))
  }

  // ---------------------------------------------------------------------------
  // make*Error constructors
  // ---------------------------------------------------------------------------

  function MakeError(reason: ErrorReason, msg: string): (r: Error)
    ensures r.Remote? && r.err == NewError(reason, msg)
  {
    Remote(NewError(reason, msg))
  }

  /** `makeError(ns, func, reason, msg)`: the message is followed by the
      provider line with the `UnknownFn` signature. */
  function MakeErrorAt(ns: string, func: string, reason: ErrorReason, msg: string,
                       provider: Option<string>): (r: Error)
    ensures r.Remote? && r.err.reason == reason && r.err.fields == [] && r.err.origin.None?
    ensures StartsWith(r.err.msg, msg)
  {
    Remote(AppendFunction(NewError(reason, msg), ns, func, UnknownFnSignature, provider))
  }

  /** `makeUnknownError<Fn>(ns, func, msg, error)`. */
  function MakeUnknownError(ns: string, func: string, signature: string, text: string,
                            origin: string, provider: Option<string>): (r: Error)
    ensures r.Remote? && r.err.reason == Unknown && r.err.origin == Some(origin)
    ensures StartsWith(r.err.msg, text + ": " + origin)
  {
    Remote(AppendFunction(ConvertUnknownError(text, origin), ns, func, signature, provider))
  }

  function MakeNotFoundError(ns: string, func: string, provider: Option<string>): (r: Error)
    ensures r.Remote? && r.err.reason == NotExported
    ensures StartsWith(r.err.msg, "Fail to import! Function has not been exported.")
  {
    MakeErrorAt(ns, func, NotExported, "Fail to import! Function has not been exported.", provider)
  }

  /** The message text is the source's own wording. */
  function MakeDisabledError(ns: string, func: string, provider: Option<string>): (r: Error)
    ensures r.Remote? && r.err.reason == ProviderDisabled
    ensures StartsWith(r.err.msg, "Fail to import! Provider has not been disabled.")
  {
    MakeErrorAt(ns, func, ProviderDisabled, "Fail to import! Provider has not been disabled.", provider)
  }

  function ArgsCountMessage(required: nat, provided: nat): string {
    "Fail to invoke! function requires " + NatToString(required) + " args, but "
      + NatToString(provided) + " provided."
  }

  /** `makeArgsCountError<Ret, Args...>(ns, func, provided)`; `required` is
      `sizeof...(Args)`. */
  function MakeArgsCountError(ns: string, func: string, signature: string, required: nat,
                              provided: nat, provider: Option<string>): (r: Error)
    ensures r.Remote? && r.err.reason == ArgsCountNotMatch && r.err.fields == []
    ensures StartsWith(r.err.msg, ArgsCountMessage(required, provided))
  {
    Remote(AppendFunction(NewError(ArgsCountNotMatch, ArgsCountMessage(required, provided)),
                          ns, func, signature, provider))
  }

  /** Shared shape of `makeSerializeError` and `makeDeserializeError`: a
      `RemoteCallError` keeps its reason, has its field path flushed under
      `valueName` and gains the provider line; a foreign error is wrapped as
      `Unknown`. */
  function FlushAndAppend(ns: string, func: string, signature: string, valueName: string,
                          text: string, unknownText: string, err: Error,
                          provider: Option<string>): (r: Error)
    ensures err.Abort? ==> r == err
    ensures err.Foreign? ==> r.Remote? && r.err.reason == Unknown && r.err.origin == Some(err.text)
    ensures err.Remote? ==> (r.Remote? && r.err.reason == err.err.reason
      && r.err.origin == err.err.origin && r.err.fields == [])
    ensures err.Remote? ==> StartsWith(r.err.msg, FlushFields(err.err, text, valueName).msg)
  {
    match err
    case Remote(e) => Remote(AppendFunction(FlushFields(e, text, valueName), ns, func, signature, provider))
    case Foreign(t) => MakeUnknownError(ns, func, signature, unknownText, t, provider)
    case Abort(_) => err
  }

  function MakeSerializeError(ns: string, func: string, signature: string, valueName: string,
                              err: Error, provider: Option<string>): (r: Error)
    ensures err.Abort? ==> r == err
    ensures err.Foreign? ==> r.Remote? && r.err.reason == Unknown && r.err.origin == Some(err.text)
    ensures err.Remote? ==> r.Remote? && r.err.reason == err.err.reason && r.err.fields == []
    ensures err.Remote? ==> (
      StartsWith(r.err.msg, FlushFields(err.err, "Failed to serialize value.", valueName).msg))
  {
    FlushAndAppend(ns, func, signature, valueName, "Failed to serialize value.",
                   "Unknown Serialization Error: ", err, provider)
  }

  function MakeDeserializeError(ns: string, func: string, signature: string, valueName: string,
                                err: Error, provider: Option<string>): (r: Error)
    ensures err.Abort? ==> r == err
    ensures err.Foreign? ==> r.Remote? && r.err.reason == Unknown && r.err.origin == Some(err.text)
    ensures err.Remote? ==> r.Remote? && r.err.reason == err.err.reason && r.err.fields == []
    ensures err.Remote? ==> (
      StartsWith(r.err.msg, FlushFields(err.err, "Failed to deserialize value.", valueName).msg))
  {
    FlushAndAppend(ns, func, signature, valueName, "Failed to deserialize value.",
                   "Unknown Deserialization Error: {}", err, provider)
  }

  /** `makeCallError`: a `RemoteCallError` keeps its reason and its field
      stack (nothing is flushed) and gains two lines. */
  function MakeCallError(ns: string, func: string, signature: string, err: Error,
                         provider: Option<string>): (r: Error)
    ensures err.Abort? ==> r == err
    ensures err.Foreign? ==> r.Remote? && r.err.reason == Unknown && r.err.origin == Some(err.text)
    ensures err.Remote? ==> (r.Remote? && r.err.reason == err.err.reason
      && r.err.fields == err.err.fields && r.err.origin == err.err.origin)
    ensures err.Remote? ==> StartsWith(r.err.msg, err.err.msg)
  {
    match err
    case Remote(e) =>
      var r := AppendFunction(Append(e, "Failed to call function!"), ns, func, signature, provider);
      StartsWithTrans(r.msg, Append(e, "Failed to call function!").msg, e.msg);
      Remote(r)
    case Foreign(t) => MakeUnknownError(ns, func, signature, "Unknown Call Error: {}", t, provider)
    case Abort(_) => err
  }

  // ---------------------------------------------------------------------------
  // Type names in messages
  // ---------------------------------------------------------------------------

  /** `error_utils::typeName<T>()`: the two containers get fixed names, every
      other alternative its raw compiler name. */
  function ErrorTypeName(a: Alt): string {
    match a
    case AltObject => "class remote_call::ObjectType"
    case AltArray => "class remote_call::ArrayType"
    case _ => RawTypeName(a)
  }

  function RawNames(alts: seq<Alt>): (r: seq<string>)
    ensures |r| == |alts|
    ensures forall i :: 0 <= i < |alts| ==> r[i] == RawTypeName(alts[i])
  {
    if |alts| == 0 then [] else [RawTypeName(alts[0])] + RawNames(alts[1..])
  }

  /** `error_utils::typeListName<T...>()`: `void`, the single name, or the raw
      names as the compiler prints a parameter list (comma, no space). */
  function ErrorTypeListName(alts: seq<Alt>): (r: string)
    ensures |alts| == 0 ==> r == "void"
    ensures |alts| == 1 ==> r == ErrorTypeName(alts[0])
    ensures |alts| >= 2 ==> JoinedBy(r, RawNames(alts), ",")
  {
    if |alts| == 0 then "void"
    else if |alts| == 1 then ErrorTypeName(alts[0])
    else
      JoinLayout(RawNames(alts), ",");
      Join(RawNames(alts), ",")
  }

  /** `makeFromDynamicTypeError<Target, Expected...>(value)`; `holding` is the
      alternative `value` holds. */
  function MakeFromDynamicTypeError(target: string, expected: seq<Alt>, holding: Alt): (r: Error)
    ensures r.Remote? && r.err.reason == UnexpectedType && r.err.fields == [] && r.err.origin.None?
  {
    MakeError(UnexpectedType, FromDynamicTypeMessage(target, expected, holding))
  }

  function FromDynamicTypeMessage(target: string, expected: seq<Alt>, holding: Alt): string {
    "Failed to parse DynamicValue to " + target + ". Expected alternative " + ErrorTypeListName(expected)
      + ". Holding alternative " + ErrorTypeName(holding) + "."
  }

  /** `makeUnsupportedValueError<T, Target>(value, msg)`. */
  function MakeUnsupportedValueError(typeName: string, value: string, target: string, text: string): (r: Error)
    ensures r.Remote? && r.err.reason == UnsupportedValue && r.err.fields == [] && r.err.origin.None?
  {
    MakeError(UnsupportedValue,
              "Failed to convert " + typeName + "<" + value + "> to " + target + ". " + text)
  }

  // ---------------------------------------------------------------------------
  // Field tagging
  // ---------------------------------------------------------------------------

  /** Shared shape of `makeSer{Member,Index,Key}Error`: a `RemoteCallError`
      gains one path segment and is otherwise unchanged; a foreign error is
      first wrapped as `Unknown`. */
  function TagError(segment: string, unknownText: string, err: Error): (r: Error)
    ensures err.Abort? ==> r == err
    ensures err.Remote? ==> r == Remote(JoinField(err.err, segment))
    ensures err.Foreign? ==> r == Remote(JoinField(ConvertUnknownError(unknownText, err.text), segment))
    ensures r.Remote? ==> |r.err.fields| >= 1 && r.err.fields[|r.err.fields| - 1] == segment
  {
    match err
    case Remote(e) => Remote(JoinField(e, segment))
    case Foreign(t) => Remote(JoinField(ConvertUnknownError(unknownText, t), segment))
    case Abort(_) => err
  }

  function MemberSegment(name: string): string {
    "." + name
  }

  function IndexSegment(idx: nat): string {
    "[" + NatToString(idx) + "]"
  }

  function KeySegment(key: string): string {
    "[\"" + key + "\"]"
  }

  function MakeSerMemberError(name: string, err: Error): (r: Error)
    ensures err.Abort? ==> r == err
    ensures err.Remote? ==> (r.Remote? && r.err.reason == err.err.reason && r.err.msg == err.err.msg
      && r.err.fields == err.err.fields + [MemberSegment(name)])
    ensures err.Foreign? ==> (r.Remote? && r.err.reason == Unknown
      && r.err.fields == [MemberSegment(name)])
  {
    TagError(MemberSegment(name), "Unknown Serialization Member Error", err)
  }

  function MakeSerIndexError(idx: nat, err: Error): (r: Error)
    ensures err.Abort? ==> r == err
    ensures err.Remote? ==> (r.Remote? && r.err.reason == err.err.reason && r.err.msg == err.err.msg
      && r.err.fields == err.err.fields + [IndexSegment(idx)])
    ensures err.Foreign? ==> (r.Remote? && r.err.reason == Unknown
      && r.err.fields == [IndexSegment(idx)])
  {
    TagError(IndexSegment(idx), "Unknown Serialization Index Error", err)
  }

  function MakeSerKeyError(key: string, err: Error): (r: Error)
    ensures err.Abort? ==> r == err
    ensures err.Remote? ==> (r.Remote? && r.err.reason == err.err.reason && r.err.msg == err.err.msg
      && r.err.fields == err.err.fields + [KeySegment(key)])
    ensures err.Foreign? ==> (r.Remote? && r.err.reason == Unknown
      && r.err.fields == [KeySegment(key)])
  {
    TagError(KeySegment(key), "Unknown Serialization Key Error", err)
  }

  /** The reason of an error, `Unknown` for anything that is not a
      `RemoteCallError`. */
  function ReasonOf(e: Error): ErrorReason {
    if e.Remote? then e.err.reason else Unknown
  }

  /** Tagging never changes the reason a `RemoteCallError` reports, however
      many segments are pushed. */
  lemma {:induction false} TaggingKeepsReason(e: RemoteCallError, segments: seq<string>)
    ensures ReasonOf(TagAll(Remote(e), segments)) == e.reason
    ensures TagAll(Remote(e), segments) == Remote(e.(fields := e.fields + segments))
  {
    if |segments| > 0 {
      var last := segments[|segments| - 1];
      var init := segments[..|segments| - 1];
      TaggingKeepsReason(e, init);
      assert segments == init + [last];
      assert e.fields + init + [last] == e.fields + segments;
    }
  }

  /** Pushes `segments` in order (innermost failure first). */
  function TagAll(err: Error, segments: seq<string>): Error {
    if |segments| == 0 then err
    else TagError(segments[|segments| - 1], "", TagAll(err, segments[..|segments| - 1]))
  }

  /** A piece of a suffix of a prefix of `m` is a piece of `m`. */
  lemma ContainsInSuffix(m: string, a: string, pre: string, p: string, post: string)
    requires StartsWith(m, a)
    requires |a| >= |pre| + |p| + |post| && a[|a| - |pre| - |p| - |post|..] == pre + p + post
    ensures Contains(m, p)
  {
    var i := |a| - |p| - |post|;
    assert a[i..i + |p|] == (pre + p + post)[|pre|..|pre| + |p|];
    assert m[i..i + |p|] == a[i..i + |p|];
    assert OccursAt(m, p, i);
  }

  /** After a (de)serialization failure is wrapped, the final message names
      the failing value by `valueName` followed by its whole field path. */
  lemma FlushedPathInMessage(ns: string, func: string, signature: string,
                             valueName: string, text: string, unknownText: string,
                             e: RemoteCallError, provider: Option<string>)
    ensures var r := FlushAndAppend(ns, func, signature, valueName, text, unknownText, Remote(e), provider);
      Contains(Message(r.err), valueName + FieldPath(e.fields))
  {
    var r := FlushAndAppend(ns, func, signature, valueName, text, unknownText, Remote(e), provider);
    var flushed := FlushFields(e, text, valueName);
    var p := valueName + FieldPath(e.fields);
    StartsWithTrans(Message(r.err), r.err.msg, flushed.msg);
    ContainsInSuffix(Message(r.err), flushed.msg, " Field: ", p, "\n");
  }

  /** The five segments pushed while unwinding from `Root::node.property.value.pos`
      back to the first argument. */
  function NestedTags(inner: Error): Error {
    MakeSerIndexError(0, MakeSerMemberError("node", MakeSerMemberError("property",
      MakeSerMemberError("value", MakeSerMemberError("pos", inner)))))
  }

  lemma NestedTagsFields(e: RemoteCallError)
    ensures NestedTags(Remote(e)).Remote?
    ensures NestedTags(Remote(e)).err.reason == e.reason
    ensures NestedTags(Remote(e)).err.fields == e.fields + [".pos", ".value", ".property", ".node", "[0]"]
  {
    assert MemberSegment("pos") == ".pos";
    assert MemberSegment("value") == ".value";
    assert MemberSegment("property") == ".property";
    assert MemberSegment("node") == ".node";
    assert IndexSegment(0) == "[0]" by {
      assert NatToString(0) == "0";
    }
  }

  lemma NestedPath()
    ensures FieldPath([".pos", ".value", ".property", ".node", "[0]"]) == "[0].node.property.value.pos"
  {
    var f1 := [".pos"];
    assert f1[..0] == [];
    assert FieldPath(f1) == ".pos";
    var f2 := f1 + [".value"];
    FieldPathPush(f1, ".value");
    assert FieldPath(f2) == ".value.pos";
    var f3 := f2 + [".property"];
    FieldPathPush(f2, ".property");
    assert FieldPath(f3) == ".property.value.pos";
    var f4 := f3 + [".node"];
    FieldPathPush(f3, ".node");
    assert FieldPath(f4) == ".node.property.value.pos";
    var f5 := f4 + ["[0]"];
    FieldPathPush(f4, "[0]");
    assert f5 == [".pos", ".value", ".property", ".node", "[0]"];
  }

  lemma ArgsPathLiteral()
    ensures "args" + "[0].node.property.value.pos" == "args[0].node.property.value.pos"
  {
  }

  /** The nested decode failure of the invocation test: a leaf type mismatch
      (in the test, a string where a position is expected) four members deep
      in the first argument keeps its `UnexpectedType` reason and the final
      message carries the full path `args[0].node.property.value.pos`. */
  lemma NestedPathOracle(inner: RemoteCallError, provider: Option<string>)
    requires inner.reason == UnexpectedType && inner.fields == []
    ensures var r := MakeDeserializeError("ns", "f", "sig", "args", NestedTags(Remote(inner)), provider);
      r.Remote? && r.err.reason == UnexpectedType
      && Contains(Message(r.err), "args[0].node.property.value.pos")
  {
    NestedTagsFields(inner);
    var tagged := NestedTags(Remote(inner));
    var fields := tagged.err.fields;
    assert fields == [".pos", ".value", ".property", ".node", "[0]"];
    NestedPath();
    ArgsPathLiteral();
    assert tagged == Remote(tagged.err);
    FlushedPathInMessage("ns", "f", "sig", "args", "Failed to deserialize value.",
                         "Unknown Deserialization Error: {}", tagged.err, provider);
  }
}
