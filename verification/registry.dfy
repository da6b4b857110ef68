/** The function registry of api/ABI.cpp: one global table from the key
    `ns + "::" + name` to the exported callable, the mod that provides it and
    a disabled flag.  The table is a value here and every operation returns
    the table it leaves behind.

    The provider is a weak pointer in the source; here it is the provider's
    name while the mod is alive and `None` once the pointer has expired.
    The callable is an opaque identifier. */
module Registry {

  import opened Wrappers
  import opened Strings
  import opened Ordering
  import opened ErrorUtils

  /** An exported callable, known only by identity. */
  type Callable = nat

  /** `ExportedFuncData`; a fresh export is enabled. */
  datatype Entry = Entry(callable: Callable, provider: Option<string>, disabled: bool)

  type Table = map<string, Entry>

  /** The table key `fmt::format("{}::{}", ns, name)`. */
  function Key(ns: string, name: string): string {
    ns + "::" + name
  }

  const InvalidNameMessage: string := "Namespace can't includes \"::\""

  function AlreadyExistsMessage(ns: string, name: string): string {
    "Fail to export! Function [" + ns + "::" + name + "] already exists"
  }

  // ---------------------------------------------------------------------------
  // Keys
  // ---------------------------------------------------------------------------

  /** Within one namespace the key determines the function name. */
  lemma KeyNameInjective(ns: string, a: string, b: string)
    requires Key(ns, a) == Key(ns, b)
    ensures a == b
  {
    assert a == Key(ns, a)[|ns| + 2..];
    assert b == Key(ns, b)[|ns| + 2..];
  }

  /** The `"::"` check on the namespace does not make the key injective: two
      different pairs, both accepted by `exportFunc`, share a key. */
  lemma KeyNotInjective()
    ensures !HasDoubleColon("a:") && !HasDoubleColon("a")
    ensures ("a:", "b") != ("a", ":b") && Key("a:", "b") == Key("a", ":b")
  {
    assert Key("a:", "b") == "a:::b";
    assert Key("a", ":b") == "a:::b";
  }

  // ---------------------------------------------------------------------------
  // Export, import, lookup
  // ---------------------------------------------------------------------------

  /** `exportFunc`: a namespace containing `"::"` is refused first, then an
      existing key; otherwise one enabled entry is added. */
  function ExportFunc(tab: Table, ns: string, name: string, callable: Callable, provider: Option<string>)
    : (r: (Table, Outcome<Error>))
    ensures r.1.Fail? ==> r.0 == tab && r.1.error.Remote?
    ensures r.1.Fail? && r.1.error.err.reason == InvalidName <==> HasDoubleColon(ns)
    ensures r.1.Fail? && r.1.error.err.reason == AlreadyExists <==> !HasDoubleColon(ns) && Key(ns, name) in tab
    ensures r.1.Pass? <==> !HasDoubleColon(ns) && Key(ns, name) !in tab
    ensures r.1.Pass? ==>
      && r.0.Keys == tab.Keys + {Key(ns, name)}
      && r.0[Key(ns, name)] == Entry(callable, provider, false)
      && forall k :: k in tab ==> r.0[k] == tab[k]
  {
    if HasDoubleColon(ns) then (tab, Fail(MakeError(InvalidName, InvalidNameMessage)))
    else if Key(ns, name) in tab then (tab, Fail(MakeError(AlreadyExists, AlreadyExistsMessage(ns, name))))
    else (tab[Key(ns, name) := Entry(callable, provider, false)], Pass)
  }

  /** `getProvider`: the provider of the entry, expired when there is none. */
  function GetProvider(tab: Table, ns: string, name: string): (r: Option<string>)
    ensures Key(ns, name) !in tab ==> r.None?
    ensures Key(ns, name) in tab ==> r == tab[Key(ns, name)].provider
  {
    if Key(ns, name) in tab then tab[Key(ns, name)].provider else None
  }

  /** `importFunc`: the stored callable, unless the key is absent or the
      entry is disabled and disabled entries are not wanted.  The error
      names the provider the table records for the key. */
  function ImportFunc(tab: Table, ns: string, name: string, includeDisabled: bool): (r: Result<Callable, Error>)
    ensures r.Failure? ==> r.error.Remote? && r.error.err.fields == []
    ensures r.Failure? && r.error.err.reason == NotExported <==> Key(ns, name) !in tab
    ensures r.Failure? && r.error.err.reason == ProviderDisabled
        <==> Key(ns, name) in tab && !includeDisabled && tab[Key(ns, name)].disabled
    ensures r.Success? ==> Key(ns, name) in tab && r.value == tab[Key(ns, name)].callable
  {
    var key := Key(ns, name);
    if key !in tab then Failure(MakeNotFoundError(ns, name, GetProvider(tab, ns, name)))
    else if !includeDisabled && tab[key].disabled then Failure(MakeDisabledError(ns, name, GetProvider(tab, ns, name)))
    else Success(tab[key].callable)
  }

  /** `hasFunc`. */
  function HasFunc(tab: Table, ns: string, name: string, includeDisabled: bool): bool {
    Key(ns, name) in tab && (includeDisabled || !tab[Key(ns, name)].disabled)
  }

  /** `hasFunc` answers whether `importFunc` would succeed. */
  lemma HasFuncIffImport(tab: Table, ns: string, name: string, includeDisabled: bool)
    ensures HasFunc(tab, ns, name, includeDisabled) <==> ImportFunc(tab, ns, name, includeDisabled).Success?
  {
  }

  /** Once exported, a function can be imported, and it is the callable that
      was exported. */
  lemma ExportThenImport(tab: Table, ns: string, name: string, callable: Callable, provider: Option<string>,
                         includeDisabled: bool)
    requires ExportFunc(tab, ns, name, callable, provider).1.Pass?
    ensures var tab' := ExportFunc(tab, ns, name, callable, provider).0;
      ImportFunc(tab', ns, name, includeDisabled) == Success(callable)
      && HasFunc(tab', ns, name, includeDisabled)
      && GetProvider(tab', ns, name) == provider
  {
  }

  // ---------------------------------------------------------------------------
  // Removal
  // ---------------------------------------------------------------------------

  /** `removeFunc(key)`: whether the key was there; it is gone afterwards. */
  function RemoveKey(tab: Table, key: string): (r: (Table, bool))
    ensures r.1 <==> key in tab
    ensures r.0.Keys == tab.Keys - {key}
    ensures forall k :: k in r.0 ==> r.0[k] == tab[k]
  {
    (tab - {key}, key in tab)
  }

  function RemoveFunc(tab: Table, ns: string, name: string): (r: (Table, bool))
    ensures r.1 <==> Key(ns, name) in tab
    ensures r.0.Keys == tab.Keys - {Key(ns, name)}
    ensures forall k :: k in r.0 ==> r.0[k] == tab[k]
  {
    RemoveKey(tab, Key(ns, name))
  }

  /** The keys of a list of pairs. */
  function KeysOf(funcs: seq<(string, string)>): (r: set<string>)
    ensures forall i :: 0 <= i < |funcs| ==> Key(funcs[i].0, funcs[i].1) in r
    ensures forall k :: k in r ==> exists i :: 0 <= i < |funcs| && k == Key(funcs[i].0, funcs[i].1)
  {
    if funcs == [] then {}
    else
      var rest := KeysOf(funcs[1..]);
      assert forall i :: 1 <= i < |funcs| ==> funcs[i] == funcs[1..][i - 1];
      {Key(funcs[0].0, funcs[0].1)} + rest
  }

  /** `removeFuncs`: removes the listed functions in order and counts the
      removals that found their key. */
  function RemoveFuncs(tab: Table, funcs: seq<(string, string)>): (r: (Table, nat))
    ensures r.0.Keys == tab.Keys - KeysOf(funcs)
    ensures forall k :: k in r.0 ==> r.0[k] == tab[k]
    ensures r.1 <= |funcs|
  {
    if funcs == [] then (tab, 0)
    else
      var step := RemoveFunc(tab, funcs[0].0, funcs[0].1);
      var rest := RemoveFuncs(step.0, funcs[1..]);
      (rest.0, rest.1 + (if step.1 then 1 else 0))
  }

  /** The count `removeFuncs` returns is the number of distinct listed keys
      that were in the table: a missing name or a repeated pair counts
      nothing. */
  lemma {:induction false} RemoveFuncsCount(tab: Table, funcs: seq<(string, string)>)
    ensures RemoveFuncs(tab, funcs).1 == |tab.Keys * KeysOf(funcs)|
    decreases |funcs|
  {
    if funcs == [] {
      assert tab.Keys * KeysOf(funcs) == {};
    } else {
      var k := Key(funcs[0].0, funcs[0].1);
      RemoveFuncsCount(RemoveFunc(tab, funcs[0].0, funcs[0].1).0, funcs[1..]);
      SplitCount(tab.Keys, k, KeysOf(funcs[1..]));
    }
  }

  /** Splitting off one element of a set intersection. */
  lemma SplitCount(a: set<string>, k: string, rest: set<string>)
    ensures |a * ({k} + rest)| == (if k in a then 1 else 0) + |(a - {k}) * rest|
  {
    var lhs := a * ({k} + rest);
    var tail := (a - {k}) * rest;
    if k in a {
      assert lhs == {k} + tail;
      assert k !in tail;
    } else {
      assert lhs == tail;
    }
  }

  /** `removeNameSpace` as written: the loop tests
      `nameSpace.starts_with(nameSpace + "::")` instead of testing the key,
      so no entry is ever erased. */
  function RemoveNameSpaceAsWritten(tab: Table, ns: string): (r: (Table, nat))
  {
    var drop := set k | k in tab && StartsWith(ns, ns + "::");
    (tab - drop, |drop|)
  }

  /** As written, `removeNameSpace` removes nothing and returns 0. */
  lemma RemoveNameSpaceAsWrittenNoop(tab: Table, ns: string)
    ensures RemoveNameSpaceAsWritten(tab, ns) == (tab, 0)
  {
    assert !StartsWith(ns, ns + "::");
    var drop := set k | k in tab && StartsWith(ns, ns + "::");
    assert drop == {};
    assert tab - drop == tab;
  }

  /** The keys a corrected `removeNameSpace` erases. */
  function InNameSpace(tab: Table, ns: string): set<string> {
    set k | k in tab && StartsWith(k, ns + "::")
  }

  /** `removeNameSpace` with the test on the key that the test suite
      expects: every entry of the namespace goes, and the count says how
      many did. */
  function RemoveNameSpace(tab: Table, ns: string): (r: (Table, nat))
    ensures forall k :: k in r.0 <==> k in tab && !StartsWith(k, ns + "::")
    ensures forall k :: k in r.0 ==> r.0[k] == tab[k]
    ensures r.1 == |tab.Keys| - |r.0.Keys|
  {
    var drop := InNameSpace(tab, ns);
    assert tab.Keys - drop == (tab - drop).Keys;
    assert |tab.Keys - drop| == |tab.Keys| - |drop|;
    (tab - drop, |drop|)
  }

  /** Every function exported under the namespace is among those removed. */
  lemma RemoveNameSpaceRemovesAll(tab: Table, ns: string, name: string)
    ensures !HasFunc(RemoveNameSpace(tab, ns).0, ns, name, true)
  {
    assert StartsWith(Key(ns, name), ns + "::");
  }

  /** `removeAllFunc`. */
  function RemoveAllFunc(tab: Table): (r: Table)
    ensures forall ns, name, inc :: !HasFunc(r, ns, name, inc)
  {
    map[]
  }

  // ---------------------------------------------------------------------------
  // Lifecycle sweeps
  // ---------------------------------------------------------------------------

  /** Whether a provider is alive and not the named mod. */
  predicate Survives(e: Entry, name: string) {
    e.provider.Some? && e.provider.value != name
  }

  /** `clearMod(name)`, run when a mod unloads: erases the entries whose
      provider has expired or is that mod.  The table is unordered in the
      source; the sweep below visits keys in ascending order, and the result
      does not depend on the order. */
  method ClearMod(tab: Table, name: string) returns (out: Table)
    ensures forall k :: k in out <==> k in tab && Survives(tab[k], name)
    ensures forall k :: k in out ==> out[k] == tab[k]
  {
    out := tab;
    var todo := tab.Keys;
    while todo != {}
      invariant todo <= tab.Keys
      invariant forall k :: k in out <==> k in tab && (k !in todo ==> Survives(tab[k], name))
      invariant forall k :: k in out ==> out[k] == tab[k]
      decreases |todo|
    {
      var k := MinString(todo);
      if !Survives(tab[k], name) {
        out := out - {k};
      }
      todo := todo - {k};
    }
  }

  /** What one step of `switchMod` does to an entry: an expired entry is
      erased, an entry of the named mod gets its flag set. */
  function Switched(e: Entry, name: string, enable: bool): Option<Entry> {
    if e.provider.None? then None
    else if e.provider.value == name then Some(e.(disabled := !enable))
    else Some(e)
  }

  /** `switchMod(name, enable)`, run when a mod is enabled or disabled:
      erases the entries whose provider has expired and sets the flag of
      that mod's entries to `!enable`. */
  method SwitchMod(tab: Table, name: string, enable: bool) returns (out: Table)
    ensures forall k :: k in out <==> k in tab && tab[k].provider.Some?
    ensures forall k :: k in out ==>
      out[k].callable == tab[k].callable && out[k].provider == tab[k].provider
      && out[k].disabled == (if tab[k].provider.value == name then !enable else tab[k].disabled)
  {
    out := tab;
    var todo := tab.Keys;
    while todo != {}
      invariant todo <= tab.Keys
      invariant forall k :: k in out <==> k in tab && (k !in todo ==> Switched(tab[k], name, enable).Some?)
      invariant forall k :: k in out ==>
        out[k] == if k in todo then tab[k] else Switched(tab[k], name, enable).value
      decreases |todo|
    {
      var k := MinString(todo);
      var e := Switched(tab[k], name, enable);
      if e.None? {
        out := out - {k};
      } else {
        out := out[k := e.value];
      }
      todo := todo - {k};
    }
  }

  /** After a mod is disabled its functions cannot be imported unless
      disabled entries are asked for; after it is enabled again they can. */
  method SwitchModImport(tab: Table, ns: string, name: string, provider: string)
    returns (off: Result<Callable, Error>, offAll: Result<Callable, Error>, on: Result<Callable, Error>)
    requires Key(ns, name) in tab && tab[Key(ns, name)].provider == Some(provider)
    ensures off.Failure? && off.error.Remote? && off.error.err.reason == ProviderDisabled
    ensures offAll == Success(tab[Key(ns, name)].callable)
    ensures on == Success(tab[Key(ns, name)].callable)
  {
    var disabled := SwitchMod(tab, provider, false);
    off := ImportFunc(disabled, ns, name, false);
    offAll := ImportFunc(disabled, ns, name, true);
    var enabled := SwitchMod(disabled, provider, true);
    on := ImportFunc(enabled, ns, name, false);
  }

  // ---------------------------------------------------------------------------
  // The registry test
  // ---------------------------------------------------------------------------

  /** The keys of `names` under one namespace. */
  function NameKeys(ns: string, names: seq<string>): (r: set<string>)
    ensures forall i :: 0 <= i < |names| ==> Key(ns, names[i]) in r
    ensures forall k :: k in r ==> exists i :: 0 <= i < |names| && k == Key(ns, names[i])
  {
    if names == [] then {}
    else
      var rest := NameKeys(ns, names[1..]);
      assert forall i :: 1 <= i < |names| ==> names[i] == names[1..][i - 1];
      {Key(ns, names[0])} + rest
  }

  /** Exports `names` one after the other under `ns`, ignoring results. */
  function ExportAll(tab: Table, ns: string, names: seq<string>, callable: Callable, provider: Option<string>)
    : (r: Table)
    ensures !HasDoubleColon(ns) ==> r.Keys == tab.Keys + NameKeys(ns, names)
    ensures forall k :: k in tab ==> k in r && r[k] == tab[k]
    ensures forall k :: k in r && k !in tab ==> r[k] == Entry(callable, provider, false)
    decreases |names|
  {
    if names == [] then tab
    else ExportAll(ExportFunc(tab, ns, names[0], callable, provider).0, ns, names[1..], callable, provider)
  }

  /** A second export of the same function is refused and leaves the
      table alone. */
  lemma ExportTwice(tab: Table, ns: string, name: string, callable: Callable, provider: Option<string>,
                    callable': Callable, provider': Option<string>)
    requires ExportFunc(tab, ns, name, callable, provider).1.Pass?
    ensures var tab' := ExportFunc(tab, ns, name, callable, provider).0;
      var again := ExportFunc(tab', ns, name, callable', provider');
      again.0 == tab' && again.1.Fail? && again.1.error.Remote? && again.1.error.err.reason == AlreadyExists
  {
  }

  /** Removing a function just exported gives back the table from before. */
  lemma ExportThenRemove(tab: Table, ns: string, name: string, callable: Callable, provider: Option<string>)
    requires ExportFunc(tab, ns, name, callable, provider).1.Pass?
    ensures var rm := RemoveFunc(ExportFunc(tab, ns, name, callable, provider).0, ns, name);
      rm.1 && rm.0 == tab && !HasFunc(rm.0, ns, name, true)
  {
    assert ExportFunc(tab, ns, name, callable, provider).0 - {Key(ns, name)} == tab;
  }

  /** Keys of a namespace that the table must not hold beforehand. */
  predicate FreeOf(tab: Table, ns: string) {
    forall k :: k in tab ==> !StartsWith(k, ns + "::")
  }

  lemma KeyInNameSpace(ns: string, name: string)
    ensures StartsWith(Key(ns, name), ns + "::")
  {
    assert Key(ns, name) == (ns + "::") + name;
    StartsWithConcat(ns + "::", name);
  }

  predicate DistinctNames(names: seq<string>) {
    forall i, j :: 0 <= i < j < |names| ==> names[i] != names[j]
  }

  /** A key lies among the keys of `names` exactly when its name is listed. */
  lemma NameKeysMember(ns: string, names: seq<string>, name: string)
    ensures Key(ns, name) in NameKeys(ns, names) <==> name in names
  {
    if Key(ns, name) in NameKeys(ns, names) {
      var i :| 0 <= i < |names| && Key(ns, name) == Key(ns, names[i]);
      KeyNameInjective(ns, name, names[i]);
    }
  }

  /** Every key of `names` lies in the namespace. */
  lemma NameKeysInNameSpace(ns: string, names: seq<string>)
    ensures forall k :: k in NameKeys(ns, names) ==> StartsWith(k, ns + "::")
  {
    forall k | k in NameKeys(ns, names)
      ensures StartsWith(k, ns + "::")
    {
      var i :| 0 <= i < |names| && k == Key(ns, names[i]);
      KeyInNameSpace(ns, names[i]);
    }
  }

  /** The first key is not among the keys of the other names. */
  lemma FirstKeyFresh(ns: string, names: seq<string>)
    requires names != [] && DistinctNames(names)
    ensures Key(ns, names[0]) !in NameKeys(ns, names[1..])
  {
    NameKeysMember(ns, names[1..], names[0]);
  }

  /** Distinct names give as many keys as there are names. */
  lemma {:induction false} NameKeysCard(ns: string, names: seq<string>)
    requires DistinctNames(names)
    ensures |NameKeys(ns, names)| == |names|
    decreases |names|
  {
    if names != [] {
      var tail := names[1..];
      assert DistinctNames(tail) by {
        forall i, j | 0 <= i < j < |tail|
          ensures tail[i] != tail[j]
        {
          assert tail[i] == names[i + 1] && tail[j] == names[j + 1];
        }
      }
      NameKeysCard(ns, tail);
      FirstKeyFresh(ns, names);
      assert NameKeys(ns, names) == {Key(ns, names[0])} + NameKeys(ns, tail);
    }
  }

  // The registry test exports `abi` in the namespace `RemoteCall`, then
  // `abi0` … `abi9`, removes `abi4`, `abi115` and `abi5` with one
  // `removeFuncs` call and finally removes the namespace.  The lemmas below
  // state its steps for any namespace and names with the same shape;
  // `TestSetupHolds` shows the test's own values have that shape.

  /** The first half of the registry test: `abi` is exported into a
      namespace the table does not use. */
  lemma RegistryTestSingle(tab: Table, ns: string, name: string, callable: Callable, provider: Option<string>)
    requires !HasDoubleColon(ns) && FreeOf(tab, ns)
    ensures !HasFunc(tab, ns, name, false)
    ensures ExportFunc(tab, ns, name, callable, provider).1.Pass?
  {
    KeyInNameSpace(ns, name);
  }

  /** The shape of the test's bulk phase: ten distinct names in an unused,
      valid namespace, and one extra name that was never exported. */
  predicate TestSetup(tab: Table, ns: string, names: seq<string>, extra: string) {
    !HasDoubleColon(ns) && FreeOf(tab, ns) && |names| == 10 && DistinctNames(names) && extra !in names
  }

  /** The list given to `removeFuncs`: the fifth name, the extra name, the
      sixth name. */
  function Removed(ns: string, names: seq<string>, extra: string): (r: seq<(string, string)>)
    requires |names| == 10
    ensures KeysOf(r) == {Key(ns, names[4]), Key(ns, extra), Key(ns, names[5])}
  {
    var r := [(ns, names[4]), (ns, extra), (ns, names[5])];
    assert r[1..][1..][1..] == [];
    assert KeysOf(r[1..][1..]) == {Key(ns, names[5])};
    r
  }

  /** `removeFuncs` finds the two exported names and not the extra one. */
  lemma RegistryTestRemoveFuncs(tab: Table, ns: string, names: seq<string>, extra: string,
                                callable: Callable, provider: Option<string>)
    requires TestSetup(tab, ns, names, extra)
    ensures RemoveFuncs(ExportAll(tab, ns, names, callable, provider), Removed(ns, names, extra)).1 == 2
  {
    var t2 := ExportAll(tab, ns, names, callable, provider);
    RemoveFuncsCount(t2, Removed(ns, names, extra));
    NameKeysMember(ns, names, extra);
    KeyInNameSpace(ns, extra);
    KeyNameNotEqual(ns, names[4], names[5]);
    CountTwoOfThree(t2.Keys, Key(ns, names[4]), Key(ns, extra), Key(ns, names[5]));
  }

  lemma CountTwoOfThree(a: set<string>, x: string, y: string, z: string)
    requires x in a && y !in a && z in a && x != z
    ensures |a * {x, y, z}| == 2
  {
    assert a * {x, y, z} == {x, z};
  }

  lemma KeyNameNotEqual(ns: string, a: string, b: string)
    requires a != b
    ensures Key(ns, a) != Key(ns, b)
  {
    if Key(ns, a) == Key(ns, b) {
      KeyNameInjective(ns, a, b);
    }
  }

  /** After `removeFuncs` the sixth name is gone and the fourth is still
      there, enabled. */
  lemma RegistryTestAfterRemoveFuncs(tab: Table, ns: string, names: seq<string>, extra: string,
                                     callable: Callable, provider: Option<string>)
    requires TestSetup(tab, ns, names, extra)
    ensures var t3 := RemoveFuncs(ExportAll(tab, ns, names, callable, provider), Removed(ns, names, extra)).0;
      !HasFunc(t3, ns, names[5], false) && HasFunc(t3, ns, names[3], false)
  {
    KeyInNameSpace(ns, names[3]);
    KeyNameNotEqual(ns, names[3], names[4]);
    KeyNameNotEqual(ns, names[3], extra);
    KeyNameNotEqual(ns, names[3], names[5]);
  }

  /** The namespace keys left after `removeFuncs` are those of the eight
      other names. */
  lemma TestLeftInNameSpace(tab: Table, ns: string, names: seq<string>, extra: string,
                            callable: Callable, provider: Option<string>)
    requires TestSetup(tab, ns, names, extra)
    ensures InNameSpace(RemoveFuncs(ExportAll(tab, ns, names, callable, provider), Removed(ns, names, extra)).0, ns)
      == NameKeys(ns, names) - {Key(ns, names[4]), Key(ns, names[5])}
  {
    NameKeysMember(ns, names, extra);
    NameKeysInNameSpace(ns, names);
  }

  lemma CountRemoveTwo(a: set<string>, x: string, z: string)
    requires x in a && z in a && x != z
    ensures |a - {x, z}| == |a| - 2
  {
    assert a == (a - {x, z}) + {x, z};
  }

  /** With the test on the key, `removeNameSpace` erases the eight
      functions left; as written it erases nothing and returns 0, where the
      test expects 8. */
  lemma RegistryTestRemoveNameSpace(tab: Table, ns: string, names: seq<string>, extra: string,
                                    callable: Callable, provider: Option<string>)
    requires TestSetup(tab, ns, names, extra)
    ensures var t3 := RemoveFuncs(ExportAll(tab, ns, names, callable, provider), Removed(ns, names, extra)).0;
      RemoveNameSpace(t3, ns).1 == 8 && RemoveNameSpaceAsWritten(t3, ns).1 == 0
  {
    var t3 := RemoveFuncs(ExportAll(tab, ns, names, callable, provider), Removed(ns, names, extra)).0;
    TestLeftInNameSpace(tab, ns, names, extra, callable, provider);
    NameKeysMember(ns, names, names[4]);
    NameKeysMember(ns, names, names[5]);
    KeyNameNotEqual(ns, names[4], names[5]);
    NameKeysCard(ns, names);
    CountRemoveTwo(NameKeys(ns, names), Key(ns, names[4]), Key(ns, names[5]));
    RemoveNameSpaceAsWrittenNoop(t3, ns);
  }

  /** `fmt::format("{}{}", "abi", i)`. */
  function TestName(i: nat): string {
    "abi" + NatToString(i)
  }

  lemma TestNameInjective(i: nat, j: nat)
    requires TestName(i) == TestName(j)
    ensures i == j
  {
    assert NatToString(i) == TestName(i)[3..];
    assert NatToString(j) == TestName(j)[3..];
    NatToStringRoundTrip(i);
    NatToStringRoundTrip(j);
  }

  /** `abi0` … `abi9`. */
  function TestNames(): (r: seq<string>)
    ensures |r| == 10 && forall i :: 0 <= i < 10 ==> r[i] == TestName(i)
  {
    seq(10, i requires 0 <= i => TestName(i))
  }

  lemma TestNamesDistinct()
    ensures DistinctNames(TestNames())
  {
    var names := TestNames();
    forall i, j | 0 <= i < j < |names|
      ensures names[i] != names[j]
    {
      if names[i] == names[j] {
        TestNameInjective(i, j);
      }
    }
  }

  /** The test's own values: namespace `RemoteCall`, names `abi0` …
      `abi9`, extra name `abi115`. */
  lemma TestSetupHolds(tab: Table)
    requires FreeOf(tab, "RemoteCall")
    ensures TestSetup(tab, "RemoteCall", TestNames(), TestName(115))
  {
    TestNamesDistinct();
  }
}
