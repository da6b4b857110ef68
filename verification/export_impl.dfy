/** The export side of a call (impl/ExportImpl.h): the closure `exportAs`
    stores in the registry receives the caller's argument array, normalizes
    its length, decodes every parameter slot, calls the native function and
    encodes its result.

    A parameter list is a `seq<TypeDesc>`; the defaults given to `exportAs`
    belong to its last parameters.  The native function is a function of
    the decoded argument list.  The provider named by an error is the one
    the registry records for the function when the error is made; it is a
    parameter here. */
module ExportImpl {

  import opened Wrappers
  import opened Strings
  import opened Values
  import opened ErrorUtils
  import opened DynamicValues
  import opened ConversionTypes
  import opened Conversions
  import opened Marshal

  function Min(a: nat, b: nat): nat {
    if a <= b then a else b
  }

  function Max(a: nat, b: nat): nat {
    if a >= b then a else b
  }

  // ---------------------------------------------------------------------------
  // Counting parameters
  // ---------------------------------------------------------------------------

  /** A parameter a caller may leave out without a default: `std::optional`
      or `std::nullptr_t`. */
  predicate Omittable(t: TypeDesc) {
    t.TOptional? || t.TNullPtr?
  }

  /** Every 1-based position after `required`, up to `upto` and `max`, holds
      an omittable parameter (position `j + 1` is `ts[j]`). */
  predicate OmittableAfter(ts: seq<TypeDesc>, max: nat, required: nat, upto: nat)
    requires upto <= |ts|
  {
    forall j :: required <= j < upto && j < max ==> Omittable(ts[j])
  }

  /** The fold of `getNonOptionalArgsCount` from position `index` on, with
      `required` the count so far. */
  function NonOptionalFrom(ts: seq<TypeDesc>, max: nat, index: nat, required: nat): (r: nat)
    requires required <= index <= |ts| && required <= max
    requires required > 0 ==> !Omittable(ts[required - 1])
    requires OmittableAfter(ts, max, required, index)
    ensures r <= |ts| && r <= max
    ensures r > 0 ==> !Omittable(ts[r - 1])
    ensures OmittableAfter(ts, max, r, |ts|)
    decreases |ts| - index
  {
    if index == |ts| then required
    else if index + 1 > max then NonOptionalFrom(ts, max, index + 1, required)
    else if !Omittable(ts[index]) then NonOptionalFrom(ts, max, index + 1, index + 1)
    else NonOptionalFrom(ts, max, index + 1, required)
  }

  /** `getNonOptionalArgsCount<Max, Args...>()`: the last 1-based position,
      up to `max`, of a parameter that is neither optional nor `nullptr_t`;
      0 when there is none. */
  function NonOptionalArgsCount(ts: seq<TypeDesc>, max: nat): (r: nat)
    ensures r <= |ts| && r <= max
    ensures r > 0 ==> !Omittable(ts[r - 1])
    ensures OmittableAfter(ts, max, r, |ts|)
  {
    NonOptionalFrom(ts, max, 0, 0)
  }

  /** The three properties pin the count down: any count that has them is
      the one computed. */
  lemma NonOptionalArgsCountUnique(ts: seq<TypeDesc>, max: nat, n: nat)
    requires n <= |ts| && n <= max
    requires n > 0 ==> !Omittable(ts[n - 1])
    requires OmittableAfter(ts, max, n, |ts|)
    ensures n == NonOptionalArgsCount(ts, max)
  {
    var r := NonOptionalArgsCount(ts, max);
  }

  /** The fold of `getRequiredArgsCount` from `i` on. */
  function RequiredFrom(n: nat, invocable: nat -> bool, i: nat, required: nat): (r: nat)
    requires required <= i <= n
    requires required > 0 ==> !invocable(required - 1)
    requires forall j :: required <= j < i ==> invocable(j)
    ensures r <= n
    ensures r > 0 ==> !invocable(r - 1)
    ensures forall j :: r <= j < n ==> invocable(j)
    decreases n - i
  {
    if i == n then required
    else if !invocable(i) then RequiredFrom(n, invocable, i + 1, i + 1)
    else RequiredFrom(n, invocable, i + 1, required)
  }

  /** `getRequiredArgsCount<Args...>(Fn)` for `n` parameters, where
      `invocable(i)` tells whether the callable accepts its first `i`
      arguments: one more than the largest `i < n` it does not accept, or 0.
      It never exceeds `n`, and the callable accepts every count from the
      result on. */
  function RequiredArgsCount(n: nat, invocable: nat -> bool): (r: nat)
    ensures r <= n
    ensures r > 0 ==> !invocable(r - 1)
    ensures forall j :: r <= j < n ==> invocable(j)
  {
    RequiredFrom(n, invocable, 0, 0)
  }

  /** The defaults of `exportAs` sit at the end: the required count is the
      number of parameters without one. */
  function RequiredWithDefaults(ts: seq<TypeDesc>, defaults: seq<Native>): nat
    requires |defaults| <= |ts|
  {
    |ts| - |defaults|
  }

  /** The example of the source's comment: for `int, optional<int>, int = 2`
      two arguments are required and one is non-optional. */
  lemma CountsOfCommentExample()
    ensures var ts := [TInt(Int), TOptional(TInt(Int)), TInt(Int)];
      RequiredWithDefaults(ts, [NInt(2)]) == 2 && NonOptionalArgsCount(ts, 2) == 1
  {
    var ts := [TInt(Int), TOptional(TInt(Int)), TInt(Int)];
    NonOptionalArgsCountUnique(ts, 2, 1);
  }

  // ---------------------------------------------------------------------------
  // normalizeArgs
  // ---------------------------------------------------------------------------

  /** `args.resize(n)`: truncation, or padding with default-constructed
      (Null) values. */
  function Resize(args: seq<DynamicValue>, n: nat): (r: seq<DynamicValue>)
    ensures |r| == n
    ensures forall j :: 0 <= j < n ==> r[j] == if j < |args| then args[j] else Null
  {
    if n <= |args| then args[..n] else args + seq(n - |args|, _ => Null)
  }

  /** The number of Null values at the end of `args`. */
  function TrailingNulls(args: seq<DynamicValue>): (r: nat)
    ensures r <= |args|
    ensures forall j :: |args| - r <= j < |args| ==> args[j].Null?
    ensures r < |args| ==> !args[|args| - r - 1].Null?
  {
    if args == [] || !args[|args| - 1].Null? then 0 else 1 + TrailingNulls(args[..|args| - 1])
  }

  /** A Null suffix of a given length followed, on its left, by a non-Null
      value or nothing, is the whole Null tail. */
  lemma TrailingNullsExact(args: seq<DynamicValue>, k: nat)
    requires k <= |args|
    requires forall j :: k <= j < |args| ==> args[j].Null?
    requires k == 0 || !args[k - 1].Null?
    ensures TrailingNulls(args) == |args| - k
  {
    var t := TrailingNulls(args);
  }

  /** `normalizeArgs<ArgsCount, RequiredCount, NonOptionalArgsCount>(args)`
      as one formula: `None` when too few arguments are given; otherwise,
      when some arguments are required, the arguments cut to at most
      `argsCount`, with trailing Nulls dropped down to `required`, or padded
      with Null up to `required`.  The Null scan counts the trailing Nulls
      of the whole list, even beyond `argsCount`. */
  function Normalize(args: seq<DynamicValue>, argsCount: nat, required: nat, nonOpt: nat)
    : (r: Option<seq<DynamicValue>>)
    requires nonOpt <= required <= argsCount
    ensures r.None? <==> nonOpt > 0 && |args| < nonOpt
    ensures r.Some? && required == 0 ==> r.value == args
    ensures r.Some? && required > 0 ==>
      && required <= |r.value| <= argsCount
      && forall j :: 0 <= j < |r.value| ==> r.value[j] == if j < |args| then args[j] else Null
  {
    if nonOpt > 0 && |args| < nonOpt then None
    else if required == 0 then Some(args)
    else
      var c := Min(|args|, argsCount);
      var keep: int := c - TrailingNulls(args);
      var n := if c > required && keep > required then keep else required;
      Some(Resize(args, n))
  }

  /** `normalizeArgs` as the source writes it: a reverse scan that stops at
      the first non-Null value or at the required count.  On failure the
      arguments are left alone. */
  method NormalizeArgs(args: seq<DynamicValue>, argsCount: nat, required: nat, nonOpt: nat)
    returns (ok: bool, out: seq<DynamicValue>)
    requires nonOpt <= required <= argsCount
    ensures ok == Normalize(args, argsCount, required, nonOpt).Some?
    ensures ok ==> out == Normalize(args, argsCount, required, nonOpt).value
    ensures !ok ==> out == args
  {
    out := args;
    if nonOpt > 0 && |args| < nonOpt {
      return false, args;
    }
    ok := true;
    if required > 0 {
      var count := Min(|args|, argsCount);
      if count > required {
        var k := |args|;
        while k > 0 && count > required && args[k - 1].Null?
          invariant 0 <= k <= |args|
          invariant count == Min(|args|, argsCount) - (|args| - k)
          invariant count >= required
          invariant forall j :: k <= j < |args| ==> args[j].Null?
          decreases k
        {
          count := count - 1;
          k := k - 1;
        }
        if k == 0 || !args[k - 1].Null? {
          TrailingNullsExact(args, k);
        }
      } else if count < required {
        count := required;
      }
      out := Resize(args, count);
    }
  }

  /** When no more than `argsCount` arguments are given, the normalized list
      never ends in a Null past the required count. */
  lemma NormalizeNoTrailingNull(args: seq<DynamicValue>, argsCount: nat, required: nat, nonOpt: nat)
    requires nonOpt <= required <= argsCount && |args| <= argsCount
    requires Normalize(args, argsCount, required, nonOpt).Some?
    ensures var out := Normalize(args, argsCount, required, nonOpt).value;
      required > 0 && |out| > required ==> !out[|out| - 1].Null?
  {
  }

  /** When no more than `argsCount` arguments are given, normalization
      drops no non-Null argument. */
  lemma NormalizeKeepsValues(args: seq<DynamicValue>, argsCount: nat, required: nat, nonOpt: nat, j: nat)
    requires nonOpt <= required <= argsCount && |args| <= argsCount
    requires Normalize(args, argsCount, required, nonOpt).Some?
    requires j < |args| && !args[j].Null?
    ensures var out := Normalize(args, argsCount, required, nonOpt).value;
      j < |out| && out[j] == args[j]
  {
  }

  /** When no more than `argsCount` arguments are given, normalizing twice
      is normalizing once. */
  lemma NormalizeIdempotent(args: seq<DynamicValue>, argsCount: nat, required: nat, nonOpt: nat)
    requires nonOpt <= required <= argsCount && |args| <= argsCount
    requires Normalize(args, argsCount, required, nonOpt).Some?
    ensures var out := Normalize(args, argsCount, required, nonOpt).value;
      Normalize(out, argsCount, required, nonOpt) == Some(out)
  {
    var out := Normalize(args, argsCount, required, nonOpt).value;
    if required > 0 && |out| > required {
      assert !out[|out| - 1].Null?;
      TrailingNullsExact(out, |out|);
    }
    assert out[..|out|] == out;
  }

  /** With more arguments than parameters the scan looks at the wrong end:
      for two parameters of which one is required, `[1, Null, true]` is cut
      to `[1, Null]`, which ends in a Null past the required count and
      normalizes again to `[1]`. */
  lemma NormalizeOverlongKeepsNull()
    ensures var args := [Number(NumberType(1)), Null, Bool(true)];
      var out := Normalize(args, 2, 1, 1);
      out == Some([Number(NumberType(1)), Null])
      && Normalize(out.value, 2, 1, 1) == Some([Number(NumberType(1))])
  {
    var args := [Number(NumberType(1)), Null, Bool(true)];
    var out := [Number(NumberType(1)), Null];
    TrailingNullsExact(args, 3);
    assert args[..2] == out;
    TrailingNullsExact(out, 1);
    assert out[..1] == [Number(NumberType(1))];
  }

  // ---------------------------------------------------------------------------
  // Decoding the parameter slots
  // ---------------------------------------------------------------------------

  /** The error of a slot that has no value: `IndexOutOfRange` tagged with
      the slot. */
  function MissingSlotError(idx: nat): (e: Error)
    ensures e.Remote? && e.err.reason == IndexOutOfRange && e.err.fields == [IndexSegment(idx)]
  {
    MakeSerIndexError(idx, MakeError(IndexOutOfRange, "index \"" + NatToString(idx) + "\" outof range"))
  }

  /** The `getElement` step of `fromDynamicTupleWithDefaultImpl` for slot
      `idx`: a present non-Null value is decoded, its failure tagged with
      the slot; an absent or Null value takes the parameter's default, or
      an empty optional, or is an error. */
  function DecodeSlot(c: Codec, ts: seq<TypeDesc>, defaults: seq<Native>, arr: seq<DynamicValue>, idx: nat)
    : (r: Result<Native, Error>)
    requires idx < |ts| && |defaults| <= |ts|
    ensures idx < |arr| && !arr[idx].Null? ==>
      var d := c.dec(ts[idx], arr[idx]);
      (r.Success? <==> d.Success?) && (r.Failure? ==> r.error == MakeSerIndexError(idx, d.error))
    ensures (idx >= |arr| || arr[idx].Null?) ==>
      && (r.Success? <==> idx >= RequiredWithDefaults(ts, defaults) || ts[idx].TOptional?)
      && (r.Failure? ==> r.error == MissingSlotError(idx))
  {
    var req := RequiredWithDefaults(ts, defaults);
    if idx < |arr| && !arr[idx].Null? then
      var d := c.dec(ts[idx], arr[idx]);
      if d.Failure? then Failure(MakeSerIndexError(idx, d.error)) else d
    else if idx >= req then Success(defaults[idx - req])
    else if ts[idx].TOptional? then Success(NOpt(None))
    else Failure(MissingSlotError(idx))
  }

  /** An evaluation order of `n` slots: each slot exactly once. */
  predicate IsOrder(order: seq<nat>, n: nat) {
    |order| == n && (forall k :: 0 <= k < n ==> order[k] < n) && (forall j :: 0 <= j < n ==> j in order)
  }

  /** Left to right. */
  function Ascending(n: nat): (order: seq<nat>)
    ensures IsOrder(order, n)
    ensures forall j :: 0 <= j < n ==> order[j] == j
  {
    var order := seq(n, j => j);
    forall j | 0 <= j < n
      ensures j in order
    {
      assert order[j] == j;
    }
    order
  }

  /** The position, in evaluation order from `i` on, of the first slot
      whose result is a failure; the later slots are not evaluated. */
  function FirstFailing<T, E>(slots: seq<Result<T, E>>, order: seq<nat>, i: nat): (r: Option<nat>)
    requires IsOrder(order, |slots|) && i <= |order|
    ensures r.None? <==> forall k :: i <= k < |order| ==> slots[order[k]].Success?
    ensures r.Some? ==> i <= r.value < |order| && slots[order[r.value]].Failure?
    ensures r.Some? ==> forall k :: i <= k < r.value ==> slots[order[k]].Success?
    decreases |order| - i
  {
    if i == |order| then None
    else if slots[order[i]].Failure? then Some(i)
    else FirstFailing(slots, order, i + 1)
  }

  /** Every slot of `ts` decoded, independently of the others. */
  function DecodeSlots(c: Codec, ts: seq<TypeDesc>, defaults: seq<Native>, arr: seq<DynamicValue>)
    : (r: seq<Result<Native, Error>>)
    requires |defaults| <= |ts|
    ensures |r| == |ts| && forall j :: 0 <= j < |ts| ==> r[j] == DecodeSlot(c, ts, defaults, arr, j)
  {
    seq(|ts|, j requires 0 <= j < |ts| => DecodeSlot(c, ts, defaults, arr, j))
  }

  /** `fromDynamicTupleWithDefaultImpl`: every slot decoded, in the order
      the compiler evaluates the `make_tuple` arguments; the first failure
      in that order is the result. */
  function DecodeArgs(c: Codec, ts: seq<TypeDesc>, defaults: seq<Native>, arr: seq<DynamicValue>, order: seq<nat>)
    : (r: Result<seq<Native>, Error>)
    requires IsOrder(order, |ts|) && |defaults| <= |ts|
    ensures r.Success? <==> forall j :: 0 <= j < |ts| ==> DecodeSlot(c, ts, defaults, arr, j).Success?
    ensures r.Success? ==> |r.value| == |ts|
    ensures r.Success? ==> forall j :: 0 <= j < |ts| ==> DecodeSlot(c, ts, defaults, arr, j) == Success(r.value[j])
    ensures r.Failure? ==> exists j :: 0 <= j < |ts| && DecodeSlot(c, ts, defaults, arr, j) == Failure(r.error)
  {
    var slots := DecodeSlots(c, ts, defaults, arr);
    var first := FirstFailing(slots, order, 0);
    if first.Some? then Failure(slots[order[first.value]].error)
    else
      assert forall j :: 0 <= j < |ts| ==> slots[j].Success? by {
        forall j | 0 <= j < |ts|
          ensures slots[j].Success?
        {
          assert j in order;
        }
      }
      Success(seq(|ts|, j requires 0 <= j < |ts| => slots[j].value))
  }

  /** Whether the arguments decode does not depend on the evaluation order,
      and when only one slot fails its error is reported whatever the
      order. */
  lemma DecodeArgsOrder(c: Codec, ts: seq<TypeDesc>, defaults: seq<Native>, arr: seq<DynamicValue>,
                        order1: seq<nat>, order2: seq<nat>, bad: nat)
    requires IsOrder(order1, |ts|) && IsOrder(order2, |ts|) && |defaults| <= |ts|
    requires bad < |ts| && forall j :: 0 <= j < |ts| && j != bad ==> DecodeSlot(c, ts, defaults, arr, j).Success?
    ensures DecodeArgs(c, ts, defaults, arr, order1) == DecodeArgs(c, ts, defaults, arr, order2)
  {
    var r1 := DecodeArgs(c, ts, defaults, arr, order1);
    var r2 := DecodeArgs(c, ts, defaults, arr, order2);
    if r1.Success? {
      assert r2.Success?;
      assert r1.value == r2.value;
    } else {
      var j1 :| 0 <= j1 < |ts| && DecodeSlot(c, ts, defaults, arr, j1) == Failure(r1.error);
      var j2 :| 0 <= j2 < |ts| && DecodeSlot(c, ts, defaults, arr, j2) == Failure(r2.error);
      assert j1 == bad && j2 == bad;
    }
  }

  // ---------------------------------------------------------------------------
  // The call
  // ---------------------------------------------------------------------------

  /** The return type of the exported function: `void`, a plain type, or
      `ll::Expected<T>`. */
  datatype Returns = RVoid | RPlain(t: TypeDesc) | RFallible(t: TypeDesc)

  /** The exported function: its return type, parameter types and the raw
      name of its type (used in messages). */
  datatype Signature = Signature(ret: Returns, params: seq<TypeDesc>, text: string)

  /** The native function returns values of its declared type. It may
      throw (`Abort`) whatever its return type, and returns an error value
      only when its return type is `Expected`. */
  ghost predicate Conforms(sig: Signature, f: seq<Native> -> Result<Native, Error>) {
    forall xs :: (!sig.ret.RFallible? && f(xs).Failure? ==> f(xs).error.Abort?)
      && (f(xs).Success? && !sig.ret.RVoid? ==> WellTyped(sig.ret.t, f(xs).value))
  }

  /** The native call and the encoding of its result, for decoded
      arguments `xs`: an exception thrown by the function propagates
      unchanged; otherwise `void` gives Null, a failing `Expected` gives a
      call error, and an encoding failure is flushed under "ret". */
  function CallAndEncode(c: Codec, sig: Signature, f: seq<Native> -> Result<Native, Error>, ns: string,
                         name: string, provider: Option<string>, xs: seq<Native>): (r: Result<DynamicValue, Error>)
    requires Conforms(sig, f)
    ensures f(xs).Failure? && f(xs).error.Abort? ==> r == Failure(f(xs).error)
    ensures sig.ret.RVoid? ==> (r.Success? <==> f(xs).Success?) && (r.Success? ==> r.value == Null)
    ensures !sig.ret.RVoid? && f(xs).Failure? ==> r == Failure(MakeCallError(ns, name, sig.text, f(xs).error, provider))
    ensures !sig.ret.RVoid? && f(xs).Success? ==>
      var e := c.enc(sig.ret.t, f(xs).value);
      (r.Success? <==> e.Success?)
      && (r.Success? ==> r.value == e.value)
      && (r.Failure? ==> r.error == MakeSerializeError(ns, name, sig.text, "ret", e.error, provider))
  {
    var ret := f(xs);
    if ret.Failure? && ret.error.Abort? then Failure(ret.error)
    else if sig.ret.RVoid? then Success(Null)
    else if ret.Failure? then Failure(MakeCallError(ns, name, sig.text, ret.error, provider))
    else
      var e := c.enc(sig.ret.t, ret.value);
      if e.Failure? then Failure(MakeSerializeError(ns, name, sig.text, "ret", e.error, provider))
      else e
  }

  /** `exportCallImpl`: decode the slots, then call; a decoding failure is
      flushed under "args" and the native function is not called. */
  function ExportCall(c: Codec, sig: Signature, f: seq<Native> -> Result<Native, Error>, defaults: seq<Native>,
                      order: seq<nat>, ns: string, name: string, provider: Option<string>, args: seq<DynamicValue>)
    : (r: Result<DynamicValue, Error>)
    requires Conforms(sig, f) && |defaults| <= |sig.params| && IsOrder(order, |sig.params|)
    ensures var d := DecodeArgs(c, sig.params, defaults, args, order);
      && (d.Failure? ==> r == Failure(MakeDeserializeError(ns, name, sig.text, "args", d.error, provider)))
      && (d.Success? ==> r == CallAndEncode(c, sig, f, ns, name, provider, d.value))
  {
    var d := DecodeArgs(c, sig.params, defaults, args, order);
    if d.Failure? then Failure(MakeDeserializeError(ns, name, sig.text, "args", d.error, provider))
    else CallAndEncode(c, sig, f, ns, name, provider, d.value)
  }

  /** Too few arguments for the non-optional parameters. */
  predicate TooFew(args: seq<DynamicValue>, nonOpt: nat) {
    nonOpt > 0 && |args| < nonOpt
  }

  /** The closure `exportAs` registers (`exportImpl`): normalize, then call.
      Too few arguments give an `ArgsCountNotMatch` error that reports the
      count the caller gave; otherwise the normalized arguments are decoded
      and the native function is called. */
  function ExportClosure(c: Codec, sig: Signature, f: seq<Native> -> Result<Native, Error>, defaults: seq<Native>,
                         order: seq<nat>, ns: string, name: string, provider: Option<string>,
                         args: seq<DynamicValue>): (r: Result<DynamicValue, Error>)
    requires Conforms(sig, f) && |defaults| <= |sig.params| && IsOrder(order, |sig.params|)
    ensures var required := RequiredWithDefaults(sig.params, defaults);
      var nonOpt := NonOptionalArgsCount(sig.params, required);
      && (TooFew(args, nonOpt) ==>
            r == Failure(MakeArgsCountError(ns, name, sig.text, |sig.params|, |args|, provider)))
      && (!TooFew(args, nonOpt) ==>
            r == ExportCall(c, sig, f, defaults, order, ns, name, provider,
                            Normalize(args, |sig.params|, required, nonOpt).value))
  {
    var required := RequiredWithDefaults(sig.params, defaults);
    var norm := Normalize(args, |sig.params|, required, NonOptionalArgsCount(sig.params, required));
    if norm.None? then Failure(MakeArgsCountError(ns, name, sig.text, |sig.params|, |args|, provider))
    else ExportCall(c, sig, f, defaults, order, ns, name, provider, norm.value)
  }

  /** The arity `exportExCallImpl` settles on: starting from all `argsCount`
      parameters it drops one while more than `required` remain and fewer
      than that many arguments are given. */
  function ExArity(argsCount: nat, required: nat, n: nat): (r: nat)
    requires required <= argsCount
    ensures required <= r <= argsCount
    ensures n >= argsCount ==> r == argsCount
    ensures n < argsCount ==> r == Max(required, n)
    decreases argsCount
  {
    if argsCount > required && n < argsCount then ExArity(argsCount - 1, required, n) else argsCount
  }

  /** The closure `exportEx` registers (`exportExImpl`): the required count
      is where the callable starts to accept its leading arguments, the
      arguments are normalized as in `exportAs`, and the callable is called
      with as many leading parameters as `ExArity` picks, without defaults.
      `texts(a)` is the raw name of the signature cut to `a` parameters and
      `orders(a)` the evaluation order of its slots. */
  function ExportExClosure(c: Codec, sig: Signature, f: seq<Native> -> Result<Native, Error>,
                           invocable: nat -> bool, orders: nat -> seq<nat>, texts: nat -> string,
                           ns: string, name: string, provider: Option<string>,
                           args: seq<DynamicValue>): (r: Result<DynamicValue, Error>)
    requires Conforms(sig, f) && forall a :: IsOrder(orders(a), a)
    ensures var required := RequiredArgsCount(|sig.params|, invocable);
      var nonOpt := NonOptionalArgsCount(sig.params, required);
      && (TooFew(args, nonOpt) ==>
            r == Failure(MakeArgsCountError(ns, name, sig.text, |sig.params|, |args|, provider)))
      && (!TooFew(args, nonOpt) ==>
            var norm := Normalize(args, |sig.params|, required, nonOpt).value;
            var a := Max(required, Min(|norm|, |sig.params|));
            r == ExportCall(c, Signature(sig.ret, sig.params[..a], texts(a)), f, [], orders(a),
                            ns, name, provider, norm))
  {
    var required := RequiredArgsCount(|sig.params|, invocable);
    var norm := Normalize(args, |sig.params|, required, NonOptionalArgsCount(sig.params, required));
    if norm.None? then Failure(MakeArgsCountError(ns, name, sig.text, |sig.params|, |args|, provider))
    else
      var a := ExArity(|sig.params|, required, |norm.value|);
      ExportCall(c, Signature(sig.ret, sig.params[..a], texts(a)), f, [], orders(a), ns, name, provider, norm.value)
  }

  /** The arity picked is one the callable accepts. */
  lemma ExArityInvocable(argsCount: nat, invocable: nat -> bool, n: nat)
    ensures var required := RequiredArgsCount(argsCount, invocable);
      var a := ExArity(argsCount, required, n);
      a == argsCount || invocable(a)
  {
  }

  // ---------------------------------------------------------------------------
  // Calls with well-formed arguments
  // ---------------------------------------------------------------------------

  /** Arguments of an acceptable count that do not end in a Null past the
      required count are left alone. */
  lemma NormalizeExact(args: seq<DynamicValue>, argsCount: nat, required: nat, nonOpt: nat)
    requires nonOpt <= required <= |args| <= argsCount
    requires |args| == required || !args[|args| - 1].Null?
    ensures Normalize(args, argsCount, required, nonOpt) == Some(args)
  {
    if required > 0 && |args| > required {
      TrailingNullsExact(args, |args|);
    }
    assert args[..|args|] == args;
  }

  /** When every slot decodes, the decoded arguments are the slots'
      values, whatever the order. */
  lemma DecodeArgsAllSucceed(c: Codec, ts: seq<TypeDesc>, defaults: seq<Native>, arr: seq<DynamicValue>,
                             order: seq<nat>, xs: seq<Native>)
    requires IsOrder(order, |ts|) && |defaults| <= |ts| && |xs| == |ts|
    requires forall j :: 0 <= j < |ts| ==> DecodeSlot(c, ts, defaults, arr, j) == Success(xs[j])
    ensures DecodeArgs(c, ts, defaults, arr, order) == Success(xs)
  {
    var r := DecodeArgs(c, ts, defaults, arr, order);
    assert r.value == xs;
  }

  /** When every slot holds a non-Null value that decodes, the decoded
      arguments are those values. */
  lemma DecodeArgsAllPresent(c: Codec, ts: seq<TypeDesc>, defaults: seq<Native>, arr: seq<DynamicValue>,
                             order: seq<nat>, xs: seq<Native>)
    requires IsOrder(order, |ts|) && |defaults| <= |ts| && |arr| == |ts| && |xs| == |ts|
    requires forall j :: 0 <= j < |ts| ==> !arr[j].Null? && c.dec(ts[j], arr[j]) == Success(xs[j])
    ensures DecodeArgs(c, ts, defaults, arr, order) == Success(xs)
  {
    DecodeArgsAllSucceed(c, ts, defaults, arr, order, xs);
  }

  /** An `exportAs` function called with one non-Null value per parameter,
      each of which decodes, calls the native function with the decoded
      values. */
  lemma ExportClosureExact(c: Codec, sig: Signature, f: seq<Native> -> Result<Native, Error>, defaults: seq<Native>,
                           order: seq<nat>, ns: string, name: string, provider: Option<string>,
                           args: seq<DynamicValue>, xs: seq<Native>)
    requires Conforms(sig, f) && |defaults| <= |sig.params| && IsOrder(order, |sig.params|)
    requires |args| == |sig.params| && |xs| == |args|
    requires forall j :: 0 <= j < |args| ==> !args[j].Null? && c.dec(sig.params[j], args[j]) == Success(xs[j])
    ensures ExportClosure(c, sig, f, defaults, order, ns, name, provider, args)
      == CallAndEncode(c, sig, f, ns, name, provider, xs)
  {
    var required := RequiredWithDefaults(sig.params, defaults);
    var nonOpt := NonOptionalArgsCount(sig.params, required);
    if |args| > 0 {
      NormalizeExact(args, |sig.params|, required, nonOpt);
    }
    DecodeArgsAllPresent(c, sig.params, defaults, args, order, xs);
  }

  /** An `exportEx` function called with `k` non-Null values, `k` between
      the required count and the number of parameters, calls the callable
      with exactly those `k` decoded values. */
  lemma ExportExClosureExact(c: Codec, sig: Signature, f: seq<Native> -> Result<Native, Error>,
                             invocable: nat -> bool, orders: nat -> seq<nat>, texts: nat -> string,
                             ns: string, name: string, provider: Option<string>,
                             args: seq<DynamicValue>, xs: seq<Native>)
    requires Conforms(sig, f) && forall a :: IsOrder(orders(a), a)
    requires RequiredArgsCount(|sig.params|, invocable) <= |args| <= |sig.params| && |xs| == |args|
    requires forall j :: 0 <= j < |args| ==> !args[j].Null? && c.dec(sig.params[j], args[j]) == Success(xs[j])
    ensures var k := |args|;
      ExportExClosure(c, sig, f, invocable, orders, texts, ns, name, provider, args)
      == CallAndEncode(c, Signature(sig.ret, sig.params[..k], texts(k)), f, ns, name, provider, xs)
  {
    var k := |args|;
    var required := RequiredArgsCount(|sig.params|, invocable);
    var nonOpt := NonOptionalArgsCount(sig.params, required);
    if k > 0 {
      NormalizeExact(args, |sig.params|, required, nonOpt);
    }
    DecodeArgsAllPresent(c, sig.params[..k], [], args, orders(k), xs);
  }

  // ---------------------------------------------------------------------------
  // The calls of the invocation tests
  // ---------------------------------------------------------------------------

  /** A function of one `std::optional<std::string>` called with no
      argument or with an explicit Null receives an empty optional. */
  lemma ExportOptionalOmitted(c: Codec, ret: Returns, f: seq<Native> -> Result<Native, Error>, text: string,
                              order: seq<nat>, ns: string, name: string, provider: Option<string>)
    requires Conforms(Signature(ret, [TOptional(TString)], text), f) && IsOrder(order, 1)
    ensures var sig := Signature(ret, [TOptional(TString)], text);
      && ExportClosure(c, sig, f, [], order, ns, name, provider, [])
           == CallAndEncode(c, sig, f, ns, name, provider, [NOpt(None)])
      && ExportClosure(c, sig, f, [], order, ns, name, provider, [Null])
           == CallAndEncode(c, sig, f, ns, name, provider, [NOpt(None)])
  {
    var sig := Signature(ret, [TOptional(TString)], text);
    assert NonOptionalArgsCount(sig.params, 1) == 0 by {
      NonOptionalArgsCountUnique(sig.params, 1, 0);
    }
    assert Normalize([], 1, 1, 0) == Some([Null]) by {
      assert Resize([], 1) == [Null];
    }
    NormalizeExact([Null], 1, 1, 0);
    assert DecodeSlot(c, sig.params, [], [Null], 0) == Success(NOpt(None));
    DecodeArgsAllSucceed(c, sig.params, [], [Null], order, [NOpt(None)]);
  }

  /** The same function called with a string receives that string. */
  lemma ExportOptionalGiven(h: Hooks, ret: Returns, f: seq<Native> -> Result<Native, Error>, text: string,
                            order: seq<nat>, ns: string, name: string, provider: Option<string>, s: string)
    requires Conforms(Signature(ret, [TOptional(TString)], text), f) && IsOrder(order, 1)
    ensures var sig := Signature(ret, [TOptional(TString)], text);
      ExportClosure(Engine(h), sig, f, [], order, ns, name, provider, [Str(s)])
        == CallAndEncode(Engine(h), sig, f, ns, name, provider, [NOpt(Some(NStr(s)))])
  {
    var sig := Signature(ret, [TOptional(TString)], text);
    assert Engine(h).dec(TOptional(TString), Str(s)) == Success(NOpt(Some(NStr(s))));
    ExportClosureExact(Engine(h), sig, f, [], order, ns, name, provider, [Str(s)], [NOpt(Some(NStr(s)))]);
  }

  /** A function of one string called with no argument reports
      `ArgsCountNotMatch`: one required, none provided. */
  lemma ExportMissingArgument(c: Codec, ret: Returns, f: seq<Native> -> Result<Native, Error>, text: string,
                              order: seq<nat>, ns: string, name: string, provider: Option<string>)
    requires Conforms(Signature(ret, [TString], text), f) && IsOrder(order, 1)
    ensures var r := ExportClosure(c, Signature(ret, [TString], text), f, [], order, ns, name, provider, []);
      r == Failure(MakeArgsCountError(ns, name, text, 1, 0, provider)) && ReasonOf(r.error) == ArgsCountNotMatch
  {
    assert NonOptionalArgsCount([TString], 1) == 1 by {
      NonOptionalArgsCountUnique([TString], 1, 1);
    }
  }

  /** A function of one parameter called with one non-Null value that
      does not decode fails with the reason of the decoding error, and does
      not run. */
  lemma ExportSingleDecodeFails(c: Codec, sig: Signature, f: seq<Native> -> Result<Native, Error>,
                                order: seq<nat>, ns: string, name: string, provider: Option<string>,
                                v: DynamicValue)
    requires |sig.params| == 1 && !Omittable(sig.params[0])
    requires Conforms(sig, f) && IsOrder(order, 1)
    requires !v.Null? && c.dec(sig.params[0], v).Failure? && c.dec(sig.params[0], v).error.Remote?
    ensures var r := ExportClosure(c, sig, f, [], order, ns, name, provider, [v]);
      r.Failure? && ReasonOf(r.error) == ReasonOf(c.dec(sig.params[0], v).error)
  {
    assert NonOptionalArgsCount(sig.params, 1) == 1 by {
      NonOptionalArgsCountUnique(sig.params, 1, 1);
    }
    NormalizeExact([v], 1, 1, 1);
    var d := DecodeArgs(c, sig.params, [], [v], order);
    assert d.Failure? && ReasonOf(d.error) == ReasonOf(c.dec(sig.params[0], v).error);
  }

  /** Decoding a number into a string parameter is a type error. */
  lemma StringFromNumber(h: Hooks, n: NumberType)
    ensures var d := Engine(h).dec(TString, Number(n));
      d.Failure? && d.error.Remote? && d.error.err.reason == UnexpectedType
  {
    assert Engine(h).dec(TString, Number(n)) == Decode(h, TString, Number(n));
  }

  /** A function of one string called with a number reports
      `UnexpectedType`, and does not run. */
  lemma ExportWrongType(h: Hooks, ret: Returns, f: seq<Native> -> Result<Native, Error>, text: string,
                        order: seq<nat>, ns: string, name: string, provider: Option<string>, n: NumberType)
    requires Conforms(Signature(ret, [TString], text), f) && IsOrder(order, 1)
    ensures var r := ExportClosure(Engine(h), Signature(ret, [TString], text), f, [], order, ns, name, provider, [Number(n)]);
      r.Failure? && ReasonOf(r.error) == UnexpectedType
  {
    StringFromNumber(h, n);
    ExportSingleDecodeFails(Engine(h), Signature(ret, [TString], text), f, order, ns, name, provider, Number(n));
  }

  /** A parameter of type `std::nullptr_t` or a pointer cannot be given as
      Null unless it has a default: an explicit Null is treated as a missing
      argument and reported as `IndexOutOfRange` for slot 0. */
  lemma ExportNullArgumentMissing(c: Codec, ret: Returns, f: seq<Native> -> Result<Native, Error>, text: string,
                                  order: seq<nat>, ns: string, name: string, provider: Option<string>,
                                  t: TypeDesc)
    requires t.TNullPtr? || t.TPtr?
    requires Conforms(Signature(ret, [t], text), f) && IsOrder(order, 1)
    ensures var r := ExportClosure(c, Signature(ret, [t], text), f, [], order, ns, name, provider, [Null]);
      r.Failure? && ReasonOf(r.error) == IndexOutOfRange
  {
    var sig := Signature(ret, [t], text);
    var nonOpt := NonOptionalArgsCount(sig.params, 1);
    NormalizeExact([Null], 1, 1, nonOpt);
    assert DecodeSlot(c, sig.params, [], [Null], 0) == Failure(MissingSlotError(0));
  }

  /** A fallible function that fails is reported as a call error that keeps
      the reason of the function's own error. */
  lemma ExportFallibleFails(c: Codec, t: TypeDesc, f: seq<Native> -> Result<Native, Error>, text: string,
                            ns: string, name: string, provider: Option<string>, xs: seq<Native>)
    requires Conforms(Signature(RFallible(t), [], text), f) && f(xs).Failure? && f(xs).error.Remote?
    ensures var r := CallAndEncode(c, Signature(RFallible(t), [], text), f, ns, name, provider, xs);
      r.Failure? && ReasonOf(r.error) == f(xs).error.err.reason
  {
  }
}
