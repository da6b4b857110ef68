/** The import side of a call (impl/ImportImpl.h): the proxy `importAs`
    returns looks the function up when it is called, encodes the
    arguments into one array, calls the stored closure and decodes its
    result.

    The registry's closures are given by `funcs`, which maps the opaque
    callable of an entry to the function it computes on an argument array. */
module ImportImpl {

  import opened Wrappers
  import opened Strings
  import opened Values
  import opened ErrorUtils
  import opened DynamicValues
  import opened ConversionTypes
  import opened Conversions
  import opened ConversionLaws
  import opened Marshal
  import opened Registry
  import opened ExportImpl

  type Closures = Callable -> (seq<DynamicValue> -> Result<DynamicValue, Error>)

  // ---------------------------------------------------------------------------
  // corrected_return
  // ---------------------------------------------------------------------------

  /** A return type as declared in the imported signature. */
  datatype Declared =
    | DVoid
    | DType(t: TypeDesc)
    | DConst(of: Declared)
    | DRvalueRef(of: Declared)
    | DLvalueRef(of: Declared)
    | DExpected(of: Declared)

  /** `corrected_return<Ret>::Real`: the type the result is decoded into,
      with `const`, `&&`, `&` and `ll::Expected` stripped; `None` for
      `void`. */
  function RealReturn(d: Declared): (r: Option<TypeDesc>)
    ensures d.DVoid? ==> r.None?
    ensures d.DType? ==> r == Some(d.t)
  {
    match d
    case DVoid => None
    case DType(t) => Some(t)
    case DConst(e) => RealReturn(e)
    case DRvalueRef(e) => RealReturn(e)
    case DLvalueRef(e) => RealReturn(e)
    case DExpected(e) => RealReturn(e)
  }

  datatype Qualifier = Const | RvalueRef | LvalueRef | ExpectedOf

  /** `d` wrapped in the qualifiers of `qs`, innermost first. */
  function Qualify(qs: seq<Qualifier>, d: Declared): Declared {
    if qs == [] then d
    else
      var inner := Qualify(qs[..|qs| - 1], d);
      match qs[|qs| - 1]
      case Const => DConst(inner)
      case RvalueRef => DRvalueRef(inner)
      case LvalueRef => DLvalueRef(inner)
      case ExpectedOf => DExpected(inner)
  }

  /** However a return type is qualified, the result is decoded into the
      bare type. */
  lemma {:induction false} RealReturnQualified(qs: seq<Qualifier>, d: Declared)
    ensures RealReturn(Qualify(qs, d)) == RealReturn(d)
    decreases |qs|
  {
    if qs != [] {
      RealReturnQualified(qs[..|qs| - 1], d);
    }
  }

  // ---------------------------------------------------------------------------
  // importCallImpl
  // ---------------------------------------------------------------------------

  /** The imported signature: declared return type, parameter types and
      the raw name of `Ret(Args...)` used in messages. */
  datatype ImportSignature = ImportSignature(ret: Declared, params: seq<TypeDesc>, text: string)

  /** The arguments of a call have the parameter types. */
  predicate ArgsTyped(ts: seq<TypeDesc>, xs: seq<Native>) {
    |xs| == |ts| && forall j :: 0 <= j < |ts| ==> WellTyped(ts[j], xs[j])
  }

  /** The tuple rule applied to the argument tuple: every argument encoded
      left to right into one array; the first failure is tagged with its
      index. */
  function EncodeArgs(c: Codec, ts: seq<TypeDesc>, xs: seq<Native>): (r: Result<seq<DynamicValue>, Error>)
    requires |xs| == |ts|
    ensures r.Success? <==> forall j :: 0 <= j < |ts| ==> c.enc(ts[j], xs[j]).Success?
    ensures r.Success? ==> |r.value| == |ts|
    ensures r.Success? ==> forall j :: 0 <= j < |ts| ==> c.enc(ts[j], xs[j]) == Success(r.value[j])
    ensures r.Failure? ==> exists k :: (0 <= k < |ts| && c.enc(ts[k], xs[k]).Failure?
      && r.error == MakeSerIndexError(k, c.enc(ts[k], xs[k]).error))
  {
    var slots := seq(|ts|, j requires 0 <= j < |ts| => c.enc(ts[j], xs[j]));
    var first := FirstFailing(slots, Ascending(|ts|), 0);
    if first.Some? then
      var k := Ascending(|ts|)[first.value];
      assert slots[k] == c.enc(ts[k], xs[k]);
      Failure(MakeSerIndexError(k, slots[k].error))
    else
      assert forall j :: 0 <= j < |ts| ==> slots[j].Success? by {
        forall j | 0 <= j < |ts|
          ensures slots[j].Success?
        {
          assert Ascending(|ts|)[j] == j;
        }
      }
      assert forall j :: 0 <= j < |ts| ==> slots[j] == c.enc(ts[j], xs[j]);
      Success(seq(|ts|, j requires 0 <= j < |ts| => slots[j].value))
  }

  /** `dynRet->tryGet<RealRet>()`: `void` always succeeds; otherwise the
      result is decoded, a failure flushed under "ret". */
  function ReadReturn(c: Codec, sig: ImportSignature, ns: string, name: string, provider: Option<string>,
                      dv: DynamicValue): (r: Result<Option<Native>, Error>)
    ensures RealReturn(sig.ret).None? ==> r == Success(None)
    ensures RealReturn(sig.ret).Some? ==>
      var d := c.dec(RealReturn(sig.ret).value, dv);
      (r.Success? <==> d.Success?)
      && (r.Success? ==> r.value == Some(d.value))
      && (r.Failure? ==> r.error == MakeDeserializeError(ns, name, sig.text, "ret", d.error, provider))
  {
    match RealReturn(sig.ret)
    case None => Success(None)
    case Some(t) =>
      var d := c.dec(t, dv);
      if d.Failure? then Failure(MakeDeserializeError(ns, name, sig.text, "ret", d.error, provider))
      else Success(Some(d.value))
  }

  /** The call of the stored closure on the encoded arguments and the
      reading of its result; a closure failure is a call error. */
  function CallAndRead(c: Codec, sig: ImportSignature, fn: seq<DynamicValue> -> Result<DynamicValue, Error>,
                       ns: string, name: string, provider: Option<string>, arr: seq<DynamicValue>)
    : (r: Result<Option<Native>, Error>)
    ensures fn(arr).Failure? ==> r == Failure(MakeCallError(ns, name, sig.text, fn(arr).error, provider))
    ensures fn(arr).Success? ==> r == ReadReturn(c, sig, ns, name, provider, fn(arr).value)
  {
    var ret := fn(arr);
    if ret.Failure? then Failure(MakeCallError(ns, name, sig.text, ret.error, provider))
    else ReadReturn(c, sig, ns, name, provider, ret.value)
  }

  /** `importCallImpl`, with the argument tuple encoded element by element:
      look the function up (disabled entries excluded) and forward a
      lookup error unchanged; encode the arguments, a failure flushed under
      "args"; call; read the result.  Errors name the provider the registry
      records. */
  function ImportCall(c: Codec, tab: Table, funcs: Closures, ns: string, name: string,
                      sig: ImportSignature, xs: seq<Native>): (r: Result<Option<Native>, Error>)
    requires |xs| == |sig.params|
    ensures ImportFunc(tab, ns, name, false).Failure? ==> r == Failure(ImportFunc(tab, ns, name, false).error)
    ensures ImportFunc(tab, ns, name, false).Success? ==>
      var provider := GetProvider(tab, ns, name);
      var args := EncodeArgs(c, sig.params, xs);
      && (args.Failure? ==> r == Failure(MakeSerializeError(ns, name, sig.text, "args", args.error, provider)))
      && (args.Success? ==>
            r == CallAndRead(c, sig, funcs(ImportFunc(tab, ns, name, false).value), ns, name, provider, args.value))
  {
    var provider := GetProvider(tab, ns, name);
    var found := ImportFunc(tab, ns, name, false);
    if found.Failure? then Failure(found.error)
    else
      var args := EncodeArgs(c, sig.params, xs);
      if args.Failure? then Failure(MakeSerializeError(ns, name, sig.text, "args", args.error, provider))
      else CallAndRead(c, sig, funcs(found.value), ns, name, provider, args.value)
  }

  /** A function that is not exported, or is disabled, is reported by the
      registry's own error; nothing is encoded or called, so the codec and
      the closures play no part. */
  lemma ImportLookupFirst(c1: Codec, c2: Codec, tab: Table, funcs1: Closures, funcs2: Closures,
                          ns: string, name: string, sig: ImportSignature, xs: seq<Native>)
    requires |xs| == |sig.params| && !HasFunc(tab, ns, name, false)
    ensures var r := ImportCall(c1, tab, funcs1, ns, name, sig, xs);
      && r == ImportCall(c2, tab, funcs2, ns, name, sig, xs)
      && r.Failure? && r.error.Remote?
      && (r.error.err.reason == NotExported <==> Key(ns, name) !in tab)
      && (r.error.err.reason == ProviderDisabled <==> Key(ns, name) in tab)
  {
    HasFuncIffImport(tab, ns, name, false);
  }

  /** An argument that fails to encode is reported as a serialization
      error with its reason, and the closure is not called. */
  lemma ImportArgumentFails(c: Codec, tab: Table, funcs1: Closures, funcs2: Closures, ns: string, name: string,
                            sig: ImportSignature, xs: seq<Native>, k: nat)
    requires |xs| == |sig.params| && HasFunc(tab, ns, name, false)
    requires k < |xs| && c.enc(sig.params[k], xs[k]).Failure? && c.enc(sig.params[k], xs[k]).error.Remote?
    requires forall j :: 0 <= j < |xs| ==> c.enc(sig.params[j], xs[j]).Failure? ==> ReasonOf(c.enc(sig.params[j], xs[j]).error) == ReasonOf(c.enc(sig.params[k], xs[k]).error)
    ensures var r := ImportCall(c, tab, funcs1, ns, name, sig, xs);
      && r == ImportCall(c, tab, funcs2, ns, name, sig, xs)
      && r.Failure? && ReasonOf(r.error) == ReasonOf(c.enc(sig.params[k], xs[k]).error)
  {
    HasFuncIffImport(tab, ns, name, false);
    var args := EncodeArgs(c, sig.params, xs);
    var k' :| 0 <= k' < |xs| && c.enc(sig.params[k'], xs[k']).Failure?
      && args.error == MakeSerIndexError(k', c.enc(sig.params[k'], xs[k']).error);
  }

  // ---------------------------------------------------------------------------
  // The argument tuple as the source encodes it
  // ---------------------------------------------------------------------------

  /** `importCallImpl` as written: the argument tuple goes through
      `toDynamic` as one value, so the highest-ranked rule for its type
      decides what `params` holds, and `get<DynamicArray>()` aborts on
      anything but an array. */
  function ImportCallAsWritten(h: Hooks, tab: Table, funcs: Closures, ns: string, name: string,
                               sig: ImportSignature, xs: seq<Native>): (r: Result<Option<Native>, Error>)
    requires ArgsTyped(sig.params, xs)
    ensures ImportFunc(tab, ns, name, false).Failure? ==> r == Failure(ImportFunc(tab, ns, name, false).error)
  {
    var provider := GetProvider(tab, ns, name);
    var found := ImportFunc(tab, ns, name, false);
    if found.Failure? then Failure(found.error)
    else
      var e := Encode(h, TTuple(sig.params, false), NTuple(xs));
      if e.status.Fail? then Failure(MakeSerializeError(ns, name, sig.text, "args", e.status.error, provider))
      else if !e.dv.Array? then Failure(Abort(NotArray))
      else CallAndRead(Engine(h), sig, funcs(found.value), ns, name, provider, e.dv.arr)
  }

  /** Importing a function of a position and an integer, e.g.
      `void(BlockPos, int)`: the argument tuple matches the position-pair
      rule, which outranks the tuple rule, so it is written as one position
      value and the call aborts. */
  lemma ImportPositionPairAsWritten(h: Hooks, tab: Table, funcs: Closures, ns: string, name: string,
                                    sig: ImportSignature, xs: seq<Native>)
    requires ArgsTyped(sig.params, xs) && PositionPairShape(sig.params) && HasFunc(tab, ns, name, false)
    ensures ImportCallAsWritten(h, tab, funcs, ns, name, sig, xs) == Failure(Abort(NotArray))
  {
    HasFuncIffImport(tab, ns, name, false);
    PositionPairNotArray(h, sig.params, xs);
  }

  /** The position-pair rule writes one position value. */
  lemma PositionPairNotArray(h: Hooks, ts: seq<TypeDesc>, xs: seq<Native>)
    requires ArgsTyped(ts, xs) && PositionPairShape(ts)
    ensures var e := Encode(h, TTuple(ts, false), NTuple(xs));
      e.status.Pass? && !e.dv.Array?
  {
    assert Resolve(TTuple(ts, false)) == PositionPairRule;
  }

  /** Element by element, a position and an integer always encode. */
  lemma PositionPairArgsEncode(h: Hooks, ts: seq<TypeDesc>, xs: seq<Native>)
    requires ArgsTyped(ts, xs) && PositionPairShape(ts)
    ensures var args := EncodeArgs(Engine(h), ts, xs);
      args.Success? && |args.value| == 2
  {
    assert Engine(h).enc(ts[0], xs[0]).Success?;
    assert Engine(h).enc(ts[1], xs[1]).Success?;
  }

  /** Encoded as a tuple, the position and the integer reach the closure as
      two values. */
  lemma ImportPositionPairCorrected(h: Hooks, tab: Table, funcs: Closures, ns: string, name: string,
                                    sig: ImportSignature, xs: seq<Native>)
    requires ArgsTyped(sig.params, xs) && PositionPairShape(sig.params) && HasFunc(tab, ns, name, false)
    ensures var args := EncodeArgs(Engine(h), sig.params, xs);
      args.Success? && |args.value| == 2
      && ImportCall(Engine(h), tab, funcs, ns, name, sig, xs)
         == CallAndRead(Engine(h), sig, funcs(tab[Key(ns, name)].callable), ns, name,
                        GetProvider(tab, ns, name), args.value)
  {
    HasFuncIffImport(tab, ns, name, false);
    PositionPairArgsEncode(h, sig.params, xs);
  }

  /** The tuple rule of the conversion engine and the element-wise encoding
      build the same array, and fail together. */
  lemma EngineEncodesArgs(h: Hooks, ts: seq<TypeDesc>, xs: seq<Native>)
    requires ArgsTyped(ts, xs) && !PositionPairShape(ts)
    ensures var e := Encode(h, TTuple(ts, false), NTuple(xs));
      var args := EncodeArgs(Engine(h), ts, xs);
      && (args.Success? <==> e.status.Pass?)
      && (args.Success? <==> forall j :: 0 <= j < |xs| ==> Encode(h, ts[j], xs[j]).status.Pass?)
      && (args.Success? ==> e.dv == Array(args.value))
  {
    var t := TTuple(ts, false);
    TupleEncodeShape(h, t, xs, 0, [], Pass);
    var e := Encode(h, t, NTuple(xs));
    assert e == EncodeTupleFrom(h, t, xs, 0, [], Pass);
    var args := EncodeArgs(Engine(h), ts, xs);
    if args.Success? {
      assert e.dv.arr == args.value;
    }
  }

  /** For every other signature the two encodings agree: when every
      argument encodes the results are equal. */
  lemma ImportAsWrittenAgrees(h: Hooks, tab: Table, funcs: Closures, ns: string, name: string,
                              sig: ImportSignature, xs: seq<Native>)
    requires ArgsTyped(sig.params, xs) && !PositionPairShape(sig.params)
    requires forall j :: 0 <= j < |xs| ==> Encode(h, sig.params[j], xs[j]).status.Pass?
    ensures ImportCallAsWritten(h, tab, funcs, ns, name, sig, xs) == ImportCall(Engine(h), tab, funcs, ns, name, sig, xs)
  {
    EngineEncodesArgs(h, sig.params, xs);
  }

  /** ... and when one argument does not encode, both calls fail. */
  lemma ImportAsWrittenFailsAlike(h: Hooks, tab: Table, funcs: Closures, ns: string, name: string,
                                  sig: ImportSignature, xs: seq<Native>, k: nat)
    requires ArgsTyped(sig.params, xs) && !PositionPairShape(sig.params) && HasFunc(tab, ns, name, false)
    requires k < |xs| && Encode(h, sig.params[k], xs[k]).status.Fail?
    ensures ImportCallAsWritten(h, tab, funcs, ns, name, sig, xs).Failure?
    ensures ImportCall(Engine(h), tab, funcs, ns, name, sig, xs).Failure?
  {
    HasFuncIffImport(tab, ns, name, false);
    EngineEncodesArgs(h, sig.params, xs);
  }

  // ---------------------------------------------------------------------------
  // The proxy
  // ---------------------------------------------------------------------------

  /** What `importAs` returns: a closure that only records where to look.
      Building it cannot fail; the lookup happens on each call. */
  datatype Proxy = Proxy(ns: string, name: string, sig: ImportSignature)

  /** Calling the proxy: the whole of `importCallImpl`, run afresh. */
  function Invoke(p: Proxy, c: Codec, tab: Table, funcs: Closures, xs: seq<Native>): Result<Option<Native>, Error>
    requires |xs| == |p.sig.params|
  {
    ImportCall(c, tab, funcs, p.ns, p.name, p.sig, xs)
  }

  /** A proxy built before its function is exported reports
      `NotExported`; once the function is exported the same proxy reaches
      the exported callable, and only that callable's closure matters. */
  lemma ProxyBeforeExport(p: Proxy, c: Codec, tab: Table, funcs1: Closures, funcs2: Closures,
                          callable: Callable, provider: Option<string>, xs: seq<Native>)
    requires |xs| == |p.sig.params| && !HasDoubleColon(p.ns) && Key(p.ns, p.name) !in tab
    requires funcs1(callable) == funcs2(callable)
    ensures var r := Invoke(p, c, tab, funcs1, xs);
      r.Failure? && r.error.Remote? && r.error.err.reason == NotExported
    ensures var tab' := ExportFunc(tab, p.ns, p.name, callable, provider).0;
      && ImportFunc(tab', p.ns, p.name, false) == Success(callable)
      && Invoke(p, c, tab', funcs1, xs) == Invoke(p, c, tab', funcs2, xs)
  {
    var tab' := ExportFunc(tab, p.ns, p.name, callable, provider).0;
    assert HasFunc(tab', p.ns, p.name, false);
    HasFuncIffImport(tab', p.ns, p.name, false);
  }

  // ---------------------------------------------------------------------------
  // Import of an exported function
  // ---------------------------------------------------------------------------

  /** The return type an importer declares for an exported function:
      `ll::Expected<T>` for a fallible one. */
  function DeclaredOf(ret: Returns): (d: Declared)
    ensures ret.RVoid? <==> RealReturn(d).None?
    ensures !ret.RVoid? ==> RealReturn(d) == Some(ret.t)
  {
    match ret
    case RVoid => DVoid
    case RPlain(t) => DType(t)
    case RFallible(t) => DExpected(DType(t))
  }

  /** An argument that crosses intact: it encodes, and the exporter reads
      it back, by decoding a non-Null encoding, and a Null one only as an
      empty optional. */
  predicate Crosses(c: Codec, t: TypeDesc, x: Native) {
    && c.enc(t, x).Success?
    && (if c.enc(t, x).value.Null? then t.TOptional? && x == NOpt(None)
        else c.dec(t, c.enc(t, x).value) == Success(x))
  }

  /** A result that comes back intact. */
  predicate ComesBack(c: Codec, t: TypeDesc, v: Native) {
    c.enc(t, v).Success? && c.dec(t, c.enc(t, v).value) == Success(v)
  }

  /** Every slot of the array built from arguments that cross intact is
      read back, by an exporter without defaults, as its argument. */
  lemma SlotsReadBack(c: Codec, ts: seq<TypeDesc>, xs: seq<Native>, arr: seq<DynamicValue>)
    requires |xs| == |ts| && EncodeArgs(c, ts, xs) == Success(arr)
    requires forall j :: 0 <= j < |xs| ==> Crosses(c, ts[j], xs[j])
    ensures forall j :: 0 <= j < |ts| ==> DecodeSlot(c, ts, [], arr, j) == Success(xs[j])
  {
    forall j | 0 <= j < |ts|
      ensures DecodeSlot(c, ts, [], arr, j) == Success(xs[j])
    {
      assert c.enc(ts[j], xs[j]) == Success(arr[j]);
    }
  }

  /** The array the importer builds from arguments that cross intact is
      read back by an `exportAs` closure without defaults as the arguments
      themselves. */
  lemma ArgumentsArrive(c: Codec, sig: Signature, f: seq<Native> -> Result<Native, Error>, order: seq<nat>,
                        ns: string, name: string, provider: Option<string>, xs: seq<Native>, arr: seq<DynamicValue>)
    requires Conforms(sig, f) && IsOrder(order, |sig.params|)
    requires |xs| == |sig.params| && EncodeArgs(c, sig.params, xs) == Success(arr)
    requires forall j :: 0 <= j < |xs| ==> Crosses(c, sig.params[j], xs[j])
    ensures ExportClosure(c, sig, f, [], order, ns, name, provider, arr) == CallAndEncode(c, sig, f, ns, name, provider, xs)
  {
    var required := |sig.params|;
    if required > 0 {
      NormalizeExact(arr, required, required, NonOptionalArgsCount(sig.params, required));
    }
    SlotsReadBack(c, sig.params, xs, arr);
    DecodeArgsAllSucceed(c, sig.params, [], arr, order, xs);
  }

  /** Importing a function exported with `exportAs` (no defaults) under
      the same parameter types: the exported function runs on exactly the
      importer's arguments; an exception it throws reaches the importer
      unchanged, a void function gives nothing, a result that comes back
      intact is returned, and a failure of a fallible function keeps its
      reason across both sides. */
  lemma ImportOfExport(c: Codec, tab: Table, funcs: Closures, ns: string, name: string, sig: Signature,
                       f: seq<Native> -> Result<Native, Error>, order: seq<nat>, text: string, xs: seq<Native>)
    requires HasFunc(tab, ns, name, false)
    requires Conforms(sig, f) && IsOrder(order, |sig.params|)
    requires forall arr :: (funcs(tab[Key(ns, name)].callable)(arr)
      == ExportClosure(c, sig, f, [], order, ns, name, GetProvider(tab, ns, name), arr))
    requires |xs| == |sig.params| && forall j :: 0 <= j < |xs| ==> Crosses(c, sig.params[j], xs[j])
    ensures var r := ImportCall(c, tab, funcs, ns, name, ImportSignature(DeclaredOf(sig.ret), sig.params, text), xs);
      && (f(xs).Failure? && f(xs).error.Abort? ==> r == Failure(f(xs).error))
      && (sig.ret.RVoid? && f(xs).Success? ==> r == Success(None))
      && (!sig.ret.RVoid? && f(xs).Success? && ComesBack(c, sig.ret.t, f(xs).value) ==> r == Success(Some(f(xs).value)))
      && (!sig.ret.RVoid? && f(xs).Failure? && f(xs).error.Remote? ==>
            r.Failure? && ReasonOf(r.error) == f(xs).error.err.reason)
  {
    HasFuncIffImport(tab, ns, name, false);
    var isig := ImportSignature(DeclaredOf(sig.ret), sig.params, text);
    var provider := GetProvider(tab, ns, name);
    var args := EncodeArgs(c, sig.params, xs);
    assert args.Success?;
    ArgumentsArrive(c, sig, f, order, ns, name, provider, xs, args.value);
    var ce := CallAndEncode(c, sig, f, ns, name, provider, xs);
    var r := ImportCall(c, tab, funcs, ns, name, isig, xs);
    assert r == CallAndRead(c, isig, funcs(tab[Key(ns, name)].callable), ns, name, provider, args.value);
    assert ce.Failure? ==> r == Failure(MakeCallError(ns, name, isig.text, ce.error, provider));
  }

  /** Arguments of round-trippable types cross intact through the
      conversion engine, when they encode and may only encode as Null as an
      optional. */
  lemma EngineCrosses(h: Hooks, t: TypeDesc, x: Native)
    requires WfType(t) && RoundTrippable(t) && HooksRoundTrip(h)
    requires WellTyped(t, x) && NamedKeys(t, x) && Encode(h, t, x).status.Pass?
    requires t.TOptional? || !MayWriteNull(t)
    ensures Crosses(Engine(h), t, x)
  {
    RoundTrip(h, t, x);
    if t.TOptional? {
      if x.opt.Some? {
        WritesNonNull(h, t.inner, x.opt.value);
      }
    } else {
      WritesNonNull(h, t, x);
    }
  }

  /** Results of round-trippable types come back intact through the
      conversion engine, when they encode. */
  lemma EngineComesBack(h: Hooks, t: TypeDesc, v: Native)
    requires WfType(t) && RoundTrippable(t) && HooksRoundTrip(h)
    requires WellTyped(t, v) && NamedKeys(t, v) && Encode(h, t, v).status.Pass?
    ensures ComesBack(Engine(h), t, v)
  {
    RoundTrip(h, t, v);
  }
}
