/** Laws of the associative rule of conversions/DefaultContainerConversions.h:
    which Object a map encodes to, when the `dv.size() != map.size()` check
    fires, and which map an Object decodes to. */
module MapLaws {

  import opened Wrappers
  import opened Ordering
  import opened ErrorUtils
  import opened DynamicValues
  import opened ConversionTypes
  import opened Conversions

  // ---------------------------------------------------------------------------
  // Enum names
  // ---------------------------------------------------------------------------

  /** With distinct values, the name of an entry's value is that entry's name. */
  lemma {:induction false} EnumNameOfEntry(entries: seq<EnumEntry>, i: nat)
    requires i < |entries|
    requires forall a, b :: 0 <= a < b < |entries| ==> entries[a].value != entries[b].value
    ensures EnumName(entries, entries[i].value) == entries[i].name
    decreases i
  {
    if i > 0 {
      assert entries[0].value != entries[i].value;
      assert entries[i] == entries[1..][i - 1];
      EnumNameOfEntry(entries[1..], i - 1);
    }
  }

  /** The value a name casts to is named by it. */
  lemma CastName(e: EnumDesc, n: string)
    requires WfEnum(e) && EnumCast(e.entries, n).Some?
    ensures EnumName(e.entries, EnumCast(e.entries, n).value) == n
  {
    var i :| 0 <= i < |e.entries| && e.entries[i].name == n && e.entries[i].value == EnumCast(e.entries, n).value;
    EnumNameOfEntry(e.entries, i);
  }

  /** Names and casts put a set of named values and a set of names in
      one-to-one correspondence. */
  predicate NamedPair(e: EnumDesc, xs: set<int>, ns: set<string>) {
    && (forall x :: x in xs ==> EnumName(e.entries, x) != "" && EnumName(e.entries, x) in ns)
    && (forall n {:trigger EnumCast(e.entries, n)} :: n in ns ==>
          EnumCast(e.entries, n).Some? && EnumCast(e.entries, n).value in xs)
  }

  /** Removing one value and its name keeps the correspondence. */
  lemma NamedPairRemove(e: EnumDesc, xs: set<int>, ns: set<string>, x: int)
    requires WfEnum(e) && NamedPair(e, xs, ns) && x in xs
    ensures EnumName(e.entries, x) in ns
    ensures NamedPair(e, xs - {x}, ns - {EnumName(e.entries, x)})
  {
    var n := EnumName(e.entries, x);
    forall y | y in xs - {x}
      ensures EnumName(e.entries, y) in ns - {n}
    {
      if EnumName(e.entries, y) == n {
        EnumNameInjective(e, x, y);
      }
    }
    forall n' | n' in ns - {n}
      ensures EnumCast(e.entries, n').Some? && EnumCast(e.entries, n').value in xs - {x}
    {
      CastName(e, n');
    }
  }

  /** Nothing corresponds to no value. */
  lemma NamedEmpty(e: EnumDesc, ns: set<string>)
    requires NamedPair(e, {}, ns)
    ensures ns == {}
  {
    if ns != {} {
      var n := MinString(ns);
      var c := EnumCast(e.entries, n);
      assert false;
    }
  }

  /** Sets that are equally large after removing one element each are
      equally large. */
  lemma CardStep<A, B>(xs: set<A>, ns: set<B>, x: A, n: B)
    requires x in xs && n in ns && |xs - {x}| == |ns - {n}|
    ensures |xs| == |ns|
  {
    assert xs == (xs - {x}) + {x};
    assert ns == (ns - {n}) + {n};
  }

  /** Corresponding sets have the same size. */
  lemma {:induction false} NamedImageCard(e: EnumDesc, xs: set<int>, ns: set<string>)
    requires WfEnum(e) && NamedPair(e, xs, ns)
    ensures |xs| == |ns|
    decreases xs
  {
    if xs == {} {
      NamedEmpty(e, ns);
    } else {
      var x := MinInt(xs);
      var n := EnumName(e.entries, x);
      NamedPairRemove(e, xs, ns, x);
      NamedImageCard(e, xs - {x}, ns - {n});
      CardStep(xs, ns, x, n);
    }
  }

  // ---------------------------------------------------------------------------
  // The entry loop
  // ---------------------------------------------------------------------------

  /** No two entries share a key. */
  predicate DistinctKeys(es: seq<Entry>) {
    forall a, b :: 0 <= a < b < |es| ==> es[a].key != es[b].key
  }

  /** Every entry's value has type `ty`. */
  predicate EntriesTyped(ty: TypeDesc, es: seq<Entry>) {
    forall j :: 0 <= j < |es| ==> WellTyped(ty, es[j].val)
  }

  /** The keys the entry loop writes from entry `i` on. */
  function KeysFrom(es: seq<Entry>, i: nat): set<string> {
    set j | i <= j < |es| :: es[j].key
  }

  /** The loop succeeds exactly when every remaining value's encoding does. */
  lemma {:induction false} MapFromStatus(h: Hooks, t: TypeDesc, es: seq<Entry>, i: nat, obj: map<string, DynamicValue>)
    requires t.TMap? && i <= |es|
    requires EntriesTyped(t.val, es)
    ensures EncodeMapFrom(h, t, es, i, obj).status.Pass?
        <==> forall j :: i <= j < |es| ==> Encode(h, t.val, es[j].val).status.Pass?
    decreases |es| - i
  {
    if i < |es| {
      var e := Encode(h, t.val, es[i].val);
      MapFromStatus(h, t, es, i + 1, obj[es[i].key := e.dv]);
    }
  }

  /** With distinct keys, a successful loop adds exactly the remaining keys,
      each holding its value's encoding, and leaves the other entries alone. */
  lemma {:induction false} MapFromContents(h: Hooks, t: TypeDesc, es: seq<Entry>, i: nat, obj: map<string, DynamicValue>)
    requires t.TMap? && i <= |es|
    requires EntriesTyped(t.val, es)
    requires DistinctKeys(es)
    requires EncodeMapFrom(h, t, es, i, obj).status.Pass?
    ensures EncodeMapFrom(h, t, es, i, obj).dv.obj.Keys == obj.Keys + KeysFrom(es, i)
    ensures forall k :: k in obj && k !in KeysFrom(es, i) ==> EncodeMapFrom(h, t, es, i, obj).dv.obj[k] == obj[k]
    ensures forall j :: i <= j < |es| ==>
      (es[j].key in EncodeMapFrom(h, t, es, i, obj).dv.obj
       && EncodeMapFrom(h, t, es, i, obj).dv.obj[es[j].key] == Encode(h, t.val, es[j].val).dv)
    decreases |es| - i
  {
    if i == |es| {
      assert KeysFrom(es, i) == {};
    } else {
      var e := Encode(h, t.val, es[i].val);
      var obj' := obj[es[i].key := e.dv];
      MapFromContents(h, t, es, i + 1, obj');
      assert KeysFrom(es, i) == {es[i].key} + KeysFrom(es, i + 1);
      assert es[i].key !in KeysFrom(es, i + 1);
    }
  }

  /** A successful loop from the empty Object over entries with distinct
      keys writes exactly their keys. */
  lemma MapFromKeys(h: Hooks, t: TypeDesc, es: seq<Entry>)
    requires t.TMap?
    requires EntriesTyped(t.val, es)
    requires DistinctKeys(es)
    requires EncodeMapFrom(h, t, es, 0, map[]).status.Pass?
    ensures EncodeMapFrom(h, t, es, 0, map[]).dv.obj.Keys == KeysFrom(es, 0)
  {
    var empty: map<string, DynamicValue> := map[];
    MapFromContents(h, t, es, 0, empty);
    assert empty.Keys + KeysFrom(es, 0) == KeysFrom(es, 0);
  }

  // ---------------------------------------------------------------------------
  // String keys
  // ---------------------------------------------------------------------------

  /** Where a key of a string-keyed map sits among its entries. */
  lemma StrEntryAt(m: map<string, Native>, k: string) returns (j: nat)
    requires k in m
    ensures j < |StrEntries(m, SortedStrings(m.Keys))|
    ensures StrEntries(m, SortedStrings(m.Keys))[j] == Entry(k, m[k])
  {
    var keys := SortedStrings(m.Keys);
    assert k in keys;
    j :| j < |keys| && keys[j] == k;
  }

  /** Which key an entry of a string-keyed map carries. */
  lemma StrEntryOf(m: map<string, Native>, j: nat) returns (k: string)
    requires j < |StrEntries(m, SortedStrings(m.Keys))|
    ensures k in m && StrEntries(m, SortedStrings(m.Keys))[j] == Entry(k, m[k])
  {
    var keys := SortedStrings(m.Keys);
    k := keys[j];
    assert k in keys;
  }

  /** The entries of a string-keyed map carry exactly its keys. */
  lemma StrEntriesCover(m: map<string, Native>)
    ensures KeysFrom(StrEntries(m, SortedStrings(m.Keys)), 0) == m.Keys
  {
    StrKeysWritten(m);
    StrWrittenKeys(m);
  }

  lemma StrKeysWritten(m: map<string, Native>)
    ensures forall k :: k in m ==> k in KeysFrom(StrEntries(m, SortedStrings(m.Keys)), 0)
  {
    forall k | k in m
      ensures k in KeysFrom(StrEntries(m, SortedStrings(m.Keys)), 0)
    {
      var j := StrEntryAt(m, k);
    }
  }

  lemma StrWrittenKeys(m: map<string, Native>)
    ensures forall k :: k in KeysFrom(StrEntries(m, SortedStrings(m.Keys)), 0) ==> k in m
  {
    var es := StrEntries(m, SortedStrings(m.Keys));
    forall k | k in KeysFrom(es, 0)
      ensures k in m
    {
      var j :| 0 <= j < |es| && es[j].key == k;
      var k' := StrEntryOf(m, j);
    }
  }

  /** The entries of a map whose values have type `ty` have values of type `ty`. */
  lemma StrEntriesTyped(ty: TypeDesc, m: map<string, Native>)
    requires forall k :: k in m ==> WellTyped(ty, m[k])
    ensures EntriesTyped(ty, StrEntries(m, SortedStrings(m.Keys)))
  {
    var es := StrEntries(m, SortedStrings(m.Keys));
    forall j | 0 <= j < |es|
      ensures WellTyped(ty, es[j].val)
    {
      var k := StrEntryOf(m, j);
    }
  }

  /** The entries of a string-keyed map carry distinct keys. */
  lemma StrEntriesDistinct(m: map<string, Native>)
    ensures DistinctKeys(StrEntries(m, SortedStrings(m.Keys)))
  {
    var keys := SortedStrings(m.Keys);
    var es := StrEntries(m, keys);
    forall a, b | 0 <= a < b < |es|
      ensures es[a].key != es[b].key
    {
      assert es[a].key == keys[a] && es[b].key == keys[b];
    }
  }

  /** A property holds of every entry's value exactly when it holds of every
      value of the map. */
  lemma StrEntriesAll(m: map<string, Native>, p: Native -> bool)
    ensures (forall j :: 0 <= j < |StrEntries(m, SortedStrings(m.Keys))| ==> p(StrEntries(m, SortedStrings(m.Keys))[j].val))
        <==> forall k :: k in m ==> p(m[k])
  {
    var es := StrEntries(m, SortedStrings(m.Keys));
    if forall j :: 0 <= j < |es| ==> p(es[j].val) {
      forall k | k in m
        ensures p(m[k])
      {
        var j := StrEntryAt(m, k);
      }
    } else {
      var j :| 0 <= j < |es| && !p(es[j].val);
      var k := StrEntryOf(m, j);
    }
  }

  /** A property of every entry is one of every key and its value. */
  lemma StrEntriesAllPairs(m: map<string, Native>, q: (string, Native) -> bool)
    requires forall j :: 0 <= j < |StrEntries(m, SortedStrings(m.Keys))| ==>
      q(StrEntries(m, SortedStrings(m.Keys))[j].key, StrEntries(m, SortedStrings(m.Keys))[j].val)
    ensures forall k :: k in m ==> q(k, m[k])
  {
    forall k | k in m
      ensures q(k, m[k])
    {
      var j := StrEntryAt(m, k);
    }
  }

  /** The string-keyed loop succeeds exactly when every value's encoding does. */
  lemma StrMapPassIff(h: Hooks, t: TypeDesc, v: Native)
    requires t.TMap? && t.key.StringKey? && WellTyped(t, v)
    ensures EncodeMapFrom(h, t, MapEntries(t, v), 0, map[]).status.Pass?
        <==> forall k :: k in v.smap ==> Encode(h, t.val, v.smap[k]).status.Pass?
  {
    var m := v.smap;
    var es := StrEntries(m, SortedStrings(m.Keys));
    assert MapEntries(t, v) == es;
    MapFromStatus(h, t, es, 0, map[]);
    StrEntriesAll(m, x => WellTyped(t.val, x) && Encode(h, t.val, x).status.Pass?);
  }

  /** After a successful string-keyed loop the Object has the map's keys. */
  lemma StrMapKeysOf(h: Hooks, t: TypeDesc, m: map<string, Native>)
    requires t.TMap? && EntriesTyped(t.val, StrEntries(m, SortedStrings(m.Keys)))
    requires EncodeMapFrom(h, t, StrEntries(m, SortedStrings(m.Keys)), 0, map[]).status.Pass?
    ensures EncodeMapFrom(h, t, StrEntries(m, SortedStrings(m.Keys)), 0, map[]).dv.obj.Keys == m.Keys
  {
    StrEntriesCover(m);
    StrEntriesDistinct(m);
    MapFromKeys(h, t, StrEntries(m, SortedStrings(m.Keys)));
  }

  lemma StrMapKeys(h: Hooks, t: TypeDesc, v: Native)
    requires t.TMap? && t.key.StringKey? && WellTyped(t, v)
    requires EncodeMapFrom(h, t, MapEntries(t, v), 0, map[]).status.Pass?
    ensures EncodeMapFrom(h, t, MapEntries(t, v), 0, map[]).dv.obj.Keys == v.smap.Keys
  {
    assert MapEntries(t, v) == StrEntries(v.smap, SortedStrings(v.smap.Keys));
    StrEntriesTyped(t.val, v.smap);
    StrMapKeysOf(h, t, v.smap);
  }

  /** After a successful string-keyed loop each key holds its value's
      encoding. */
  lemma StrMapValueAt(h: Hooks, t: TypeDesc, m: map<string, Native>, k: string)
    requires t.TMap? && EntriesTyped(t.val, StrEntries(m, SortedStrings(m.Keys)))
    requires EncodeMapFrom(h, t, StrEntries(m, SortedStrings(m.Keys)), 0, map[]).status.Pass?
    requires k in m
    ensures k in EncodeMapFrom(h, t, StrEntries(m, SortedStrings(m.Keys)), 0, map[]).dv.obj
    ensures EncodeMapFrom(h, t, StrEntries(m, SortedStrings(m.Keys)), 0, map[]).dv.obj[k] == Encode(h, t.val, m[k]).dv
  {
    var j := StrEntryAt(m, k);
    StrEntriesDistinct(m);
    MapFromContents(h, t, StrEntries(m, SortedStrings(m.Keys)), 0, map[]);
  }

  lemma StrMapValues(h: Hooks, t: TypeDesc, v: Native)
    requires t.TMap? && t.key.StringKey? && WellTyped(t, v)
    requires EncodeMapFrom(h, t, MapEntries(t, v), 0, map[]).status.Pass?
    ensures forall k :: k in v.smap ==>
      (k in EncodeMapFrom(h, t, MapEntries(t, v), 0, map[]).dv.obj
       && EncodeMapFrom(h, t, MapEntries(t, v), 0, map[]).dv.obj[k] == Encode(h, t.val, v.smap[k]).dv)
  {
    assert MapEntries(t, v) == StrEntries(v.smap, SortedStrings(v.smap.Keys));
    StrEntriesTyped(t.val, v.smap);
    forall k | k in v.smap
      ensures k in EncodeMapFrom(h, t, MapEntries(t, v), 0, map[]).dv.obj
      ensures EncodeMapFrom(h, t, MapEntries(t, v), 0, map[]).dv.obj[k] == Encode(h, t.val, v.smap[k]).dv
    {
      StrMapValueAt(h, t, v.smap, k);
    }
  }

  /** A string-keyed map encodes to an Object holding each value's encoding
      under its own key, and succeeds exactly when every value's encoding
      does. */
  lemma StrMapEncoded(h: Hooks, t: TypeDesc, v: Native)
    requires t.TMap? && t.key.StringKey? && WellTyped(t, v)
    ensures Encode(h, t, v).dv.Object?
    ensures Encode(h, t, v).status.Pass? <==> forall k :: k in v.smap ==> Encode(h, t.val, v.smap[k]).status.Pass?
    ensures Encode(h, t, v).status.Pass? ==>
      (forall k :: k in Encode(h, t, v).dv.obj <==> k in v.smap)
      && forall k :: k in v.smap ==> Encode(h, t, v).dv.obj[k] == Encode(h, t.val, v.smap[k]).dv
  {
    assert Encode(h, t, v) == EncodeMap(h, t, v);
    var r := EncodeMapFrom(h, t, MapEntries(t, v), 0, map[]);
    StrMapPassIff(h, t, v);
    if r.status.Pass? {
      StrMapKeys(h, t, v);
      StrMapValues(h, t, v);
      assert |r.dv.obj| == |r.dv.obj.Keys| == |v.smap.Keys| == |v.smap|;
    }
  }

  /** An Object decodes, through its keys in order, to the map whose every
      value its entry decodes to. */
  lemma StrMapDecoded(h: Hooks, t: TypeDesc, obj: map<string, DynamicValue>, m: map<string, Native>)
    requires t.TMap? && t.key.StringKey?
    requires forall k :: k in obj <==> k in m
    requires forall k :: k in m ==> Decode(h, t.val, obj[k]) == Success(m[k])
    ensures Decode(h, t, Object(obj)) == Success(NStrMap(m))
  {
    var keys := SortedStrings(obj.Keys);
    assert keys[..0] == [];
    StrMapDecodeFrom(h, t, obj, keys, 0, map[], m);
  }

  lemma {:induction false} StrMapDecodeFrom(h: Hooks, t: TypeDesc, obj: map<string, DynamicValue>, keys: seq<string>,
                                            i: nat, acc: map<string, Native>, m: map<string, Native>)
    requires t.TMap? && t.key.StringKey? && i <= |keys|
    requires forall k :: k in keys ==> k in obj
    requires forall k :: k in m <==> k in keys
    requires forall k :: k in m ==> k in obj && Decode(h, t.val, obj[k]) == Success(m[k])
    requires forall k :: k in acc <==> k in keys[..i]
    requires forall k :: k in acc ==> k in m && acc[k] == m[k]
    ensures DecodeStrMapFrom(h, t, obj, keys, i, acc) == Success(NStrMap(m))
    decreases |keys| - i
  {
    if i == |keys| {
      assert keys[..i] == keys;
      assert acc == m;
    } else {
      var k := keys[i];
      assert keys[..i + 1] == keys[..i] + [k];
      var acc' := if k in acc then acc else acc[k := m[k]];
      StrMapDecodeFrom(h, t, obj, keys, i + 1, acc', m);
    }
  }

  // ---------------------------------------------------------------------------
  // Enum keys
  // ---------------------------------------------------------------------------

  /** Where a key of an enum-keyed map sits among its entries. */
  lemma EnumEntryAt(e: EnumDesc, m: map<int, Native>, x: int) returns (j: nat)
    requires x in m
    ensures j < |EnumEntries(e, m, SortedInts(m.Keys))|
    ensures EnumEntries(e, m, SortedInts(m.Keys))[j] == Entry(EnumName(e.entries, x), m[x])
  {
    var keys := SortedInts(m.Keys);
    assert x in keys;
    j :| j < |keys| && keys[j] == x;
  }

  /** Which key an entry of an enum-keyed map renders. */
  lemma EnumEntryOf(e: EnumDesc, m: map<int, Native>, j: nat) returns (x: int)
    requires j < |EnumEntries(e, m, SortedInts(m.Keys))|
    ensures x in m && EnumEntries(e, m, SortedInts(m.Keys))[j] == Entry(EnumName(e.entries, x), m[x])
  {
    var keys := SortedInts(m.Keys);
    x := keys[j];
    assert x in keys;
  }

  /** The entries of a map whose values have type `ty` have values of type `ty`. */
  lemma EnumEntriesTyped(ty: TypeDesc, e: EnumDesc, m: map<int, Native>)
    requires forall x :: x in m ==> WellTyped(ty, m[x])
    ensures EntriesTyped(ty, EnumEntries(e, m, SortedInts(m.Keys)))
  {
    var es := EnumEntries(e, m, SortedInts(m.Keys));
    forall j | 0 <= j < |es|
      ensures WellTyped(ty, es[j].val)
    {
      var x := EnumEntryOf(e, m, j);
    }
  }

  /** The entries of an enum-keyed map whose keys all have names carry
      distinct names. */
  lemma EnumEntriesDistinct(e: EnumDesc, m: map<int, Native>)
    requires WfEnum(e)
    requires forall x :: x in m ==> EnumName(e.entries, x) != ""
    ensures DistinctKeys(EnumEntries(e, m, SortedInts(m.Keys)))
  {
    var keys := SortedInts(m.Keys);
    var es := EnumEntries(e, m, keys);
    forall a, b | 0 <= a < b < |es|
      ensures es[a].key != es[b].key
    {
      if es[a].key == es[b].key {
        assert keys[a] in keys;
        EnumNameInjective(e, keys[a], keys[b]);
      }
    }
  }

  /** A property holds of every entry's value exactly when it holds of every
      value of the map. */
  lemma EnumEntriesAll(e: EnumDesc, m: map<int, Native>, p: Native -> bool)
    ensures (forall j :: 0 <= j < |EnumEntries(e, m, SortedInts(m.Keys))| ==> p(EnumEntries(e, m, SortedInts(m.Keys))[j].val))
        <==> forall x :: x in m ==> p(m[x])
  {
    var es := EnumEntries(e, m, SortedInts(m.Keys));
    if forall j :: 0 <= j < |es| ==> p(es[j].val) {
      forall x | x in m
        ensures p(m[x])
      {
        var j := EnumEntryAt(e, m, x);
      }
    } else {
      var j :| 0 <= j < |es| && !p(es[j].val);
      var x := EnumEntryOf(e, m, j);
    }
  }

  /** A property of every entry is one of every key's name and its value. */
  lemma EnumEntriesAllPairs(e: EnumDesc, m: map<int, Native>, q: (string, Native) -> bool)
    requires forall j :: 0 <= j < |EnumEntries(e, m, SortedInts(m.Keys))| ==>
      q(EnumEntries(e, m, SortedInts(m.Keys))[j].key, EnumEntries(e, m, SortedInts(m.Keys))[j].val)
    ensures forall x :: x in m ==> q(EnumName(e.entries, x), m[x])
  {
    forall x | x in m
      ensures q(EnumName(e.entries, x), m[x])
    {
      var j := EnumEntryAt(e, m, x);
    }
  }

  /** Every name among the entries of an enum-keyed map whose keys all have
      names casts back to a key of the map. */
  lemma EnumEntryNameCasts(e: EnumDesc, m: map<int, Native>, n: string)
    requires WfEnum(e)
    requires forall x :: x in m ==> EnumName(e.entries, x) != ""
    requires n in KeysFrom(EnumEntries(e, m, SortedInts(m.Keys)), 0)
    ensures EnumCast(e.entries, n).Some? && EnumCast(e.entries, n).value in m
  {
    var es := EnumEntries(e, m, SortedInts(m.Keys));
    var j :| 0 <= j < |es| && es[j].key == n;
    var x := EnumEntryOf(e, m, j);
    EnumNameCast(e, x);
  }

  /** The enum-keyed loop succeeds exactly when every value's encoding does. */
  lemma EnumMapPassIff(h: Hooks, t: TypeDesc, v: Native)
    requires t.TMap? && t.key.EnumKey? && WellTyped(t, v)
    ensures EncodeMapFrom(h, t, MapEntries(t, v), 0, map[]).status.Pass?
        <==> forall x :: x in v.emap ==> Encode(h, t.val, v.emap[x]).status.Pass?
  {
    var m := v.emap;
    var es := EnumEntries(t.key.e, m, SortedInts(m.Keys));
    assert MapEntries(t, v) == es;
    MapFromStatus(h, t, es, 0, map[]);
    EnumEntriesAll(t.key.e, m, x => WellTyped(t.val, x) && Encode(h, t.val, x).status.Pass?);
  }

  /** A successful enum-keyed loop over entries with distinct names writes a
      key's name with its value's encoding. */
  lemma EnumMapValueAt(h: Hooks, t: TypeDesc, e: EnumDesc, m: map<int, Native>, x: int)
    requires t.TMap? && EntriesTyped(t.val, EnumEntries(e, m, SortedInts(m.Keys)))
    requires DistinctKeys(EnumEntries(e, m, SortedInts(m.Keys)))
    requires EncodeMapFrom(h, t, EnumEntries(e, m, SortedInts(m.Keys)), 0, map[]).status.Pass?
    requires x in m
    ensures EnumName(e.entries, x) in EncodeMapFrom(h, t, EnumEntries(e, m, SortedInts(m.Keys)), 0, map[]).dv.obj
    ensures EncodeMapFrom(h, t, EnumEntries(e, m, SortedInts(m.Keys)), 0, map[]).dv.obj[EnumName(e.entries, x)]
         == Encode(h, t.val, m[x]).dv
  {
    var j := EnumEntryAt(e, m, x);
    MapFromContents(h, t, EnumEntries(e, m, SortedInts(m.Keys)), 0, map[]);
  }

  /** The entries of a well-typed enum-keyed map whose keys all have names:
      typed, with distinct names. */
  lemma EnumEntriesFacts(t: TypeDesc, v: Native)
    requires t.TMap? && t.key.EnumKey? && WfEnum(t.key.e) && WellTyped(t, v)
    requires forall x :: x in v.emap ==> EnumName(t.key.e.entries, x) != ""
    ensures MapEntries(t, v) == EnumEntries(t.key.e, v.emap, SortedInts(v.emap.Keys))
    ensures DistinctKeys(MapEntries(t, v)) && EntriesTyped(t.val, MapEntries(t, v))
    ensures forall x :: x in v.emap ==> WellTyped(t.val, v.emap[x])
  {
    EnumEntriesDistinct(t.key.e, v.emap);
    EnumEntriesTyped(t.val, t.key.e, v.emap);
  }

  /** After a successful enum-keyed loop the Object holds exactly the names
      of the entries. */
  lemma EnumMapKeys(h: Hooks, t: TypeDesc, v: Native)
    requires t.TMap? && t.key.EnumKey? && WfEnum(t.key.e) && WellTyped(t, v)
    requires forall x :: x in v.emap ==> EnumName(t.key.e.entries, x) != ""
    requires EncodeMapFrom(h, t, MapEntries(t, v), 0, map[]).status.Pass?
    ensures EncodeMapFrom(h, t, MapEntries(t, v), 0, map[]).dv.obj.Keys == KeysFrom(MapEntries(t, v), 0)
  {
    EnumEntriesFacts(t, v);
    MapFromKeys(h, t, MapEntries(t, v));
  }

  /** After a successful enum-keyed loop over entries with distinct names
      every key's name holds its value's encoding. */
  lemma EnumMapValuesOf(h: Hooks, t: TypeDesc, e: EnumDesc, m: map<int, Native>)
    requires t.TMap? && EntriesTyped(t.val, EnumEntries(e, m, SortedInts(m.Keys)))
    requires DistinctKeys(EnumEntries(e, m, SortedInts(m.Keys)))
    requires EncodeMapFrom(h, t, EnumEntries(e, m, SortedInts(m.Keys)), 0, map[]).status.Pass?
    requires forall x :: x in m ==> WellTyped(t.val, m[x])
    ensures forall x :: x in m ==>
      (EnumName(e.entries, x) in EncodeMapFrom(h, t, EnumEntries(e, m, SortedInts(m.Keys)), 0, map[]).dv.obj
       && EncodeMapFrom(h, t, EnumEntries(e, m, SortedInts(m.Keys)), 0, map[]).dv.obj[EnumName(e.entries, x)]
          == Encode(h, t.val, m[x]).dv)
  {
    forall x | x in m
      ensures EnumName(e.entries, x) in EncodeMapFrom(h, t, EnumEntries(e, m, SortedInts(m.Keys)), 0, map[]).dv.obj
      ensures EncodeMapFrom(h, t, EnumEntries(e, m, SortedInts(m.Keys)), 0, map[]).dv.obj[EnumName(e.entries, x)]
           == Encode(h, t.val, m[x]).dv
    {
      EnumMapValueAt(h, t, e, m, x);
    }
  }

  /** After a successful enum-keyed loop every key's name holds its value's
      encoding. */
  lemma EnumMapValues(h: Hooks, t: TypeDesc, v: Native)
    requires t.TMap? && t.key.EnumKey? && WfEnum(t.key.e) && WellTyped(t, v)
    requires forall x :: x in v.emap ==> EnumName(t.key.e.entries, x) != ""
    requires EncodeMapFrom(h, t, MapEntries(t, v), 0, map[]).status.Pass?
    ensures forall x :: x in v.emap ==>
      (EnumName(t.key.e.entries, x) in EncodeMapFrom(h, t, MapEntries(t, v), 0, map[]).dv.obj
       && EncodeMapFrom(h, t, MapEntries(t, v), 0, map[]).dv.obj[EnumName(t.key.e.entries, x)]
          == Encode(h, t.val, v.emap[x]).dv)
  {
    EnumEntriesFacts(t, v);
    EnumMapValuesOf(h, t, t.key.e, v.emap);
  }

  /** Every name the enum-keyed loop writes casts back to a key of the map. */
  lemma EnumMapNames(t: TypeDesc, v: Native)
    requires t.TMap? && t.key.EnumKey? && WfEnum(t.key.e) && WellTyped(t, v)
    requires forall x :: x in v.emap ==> EnumName(t.key.e.entries, x) != ""
    ensures forall n {:trigger EnumCast(t.key.e.entries, n)} :: n in KeysFrom(MapEntries(t, v), 0) ==>
      EnumCast(t.key.e.entries, n).Some? && EnumCast(t.key.e.entries, n).value in v.emap
  {
    var m := v.emap;
    assert MapEntries(t, v) == EnumEntries(t.key.e, m, SortedInts(m.Keys));
    forall n | n in KeysFrom(MapEntries(t, v), 0)
      ensures EnumCast(t.key.e.entries, n).Some? && EnumCast(t.key.e.entries, n).value in m
    {
      EnumEntryNameCasts(t.key.e, m, n);
    }
  }

  /** An enum-keyed map whose keys all have names encodes to an Object holding
      each value's encoding under its key's name, and succeeds exactly when
      every value's encoding does. */
  lemma EnumMapEncoded(h: Hooks, t: TypeDesc, v: Native)
    requires t.TMap? && t.key.EnumKey? && WfEnum(t.key.e) && WellTyped(t, v)
    requires forall x :: x in v.emap ==> EnumName(t.key.e.entries, x) != ""
    ensures Encode(h, t, v).dv.Object?
    ensures Encode(h, t, v).status.Pass? <==> forall x :: x in v.emap ==> Encode(h, t.val, v.emap[x]).status.Pass?
    ensures Encode(h, t, v).status.Pass? ==>
      (forall n {:trigger EnumCast(t.key.e.entries, n)} :: n in Encode(h, t, v).dv.obj ==>
         EnumCast(t.key.e.entries, n).Some? && EnumCast(t.key.e.entries, n).value in v.emap)
      && forall x :: x in v.emap ==>
           (EnumName(t.key.e.entries, x) in Encode(h, t, v).dv.obj
            && Encode(h, t, v).dv.obj[EnumName(t.key.e.entries, x)] == Encode(h, t.val, v.emap[x]).dv)
  {
    assert Encode(h, t, v) == EncodeMap(h, t, v);
    var r := EncodeMapFrom(h, t, MapEntries(t, v), 0, map[]);
    EnumMapPassIff(h, t, v);
    if r.status.Pass? {
      EnumMapKeys(h, t, v);
      EnumMapValues(h, t, v);
      EnumMapNames(t, v);
      NamedImageCard(t.key.e, v.emap.Keys, r.dv.obj.Keys);
      assert |r.dv.obj| == |r.dv.obj.Keys| == |v.emap.Keys| == |v.emap|;
    }
  }

  /** An Object whose keys all name values of the enum decodes to the map
      from each named value to what its entry decodes to. */
  lemma EnumMapDecoded(h: Hooks, t: TypeDesc, obj: map<string, DynamicValue>, m: map<int, Native>)
    requires t.TMap? && t.key.EnumKey? && WfEnum(t.key.e)
    requires forall n {:trigger EnumCast(t.key.e.entries, n)} :: n in obj ==> EnumCast(t.key.e.entries, n).Some? && EnumCast(t.key.e.entries, n).value in m
    requires forall x :: x in m ==>
      (EnumName(t.key.e.entries, x) != "" && EnumName(t.key.e.entries, x) in obj
       && Decode(h, t.val, obj[EnumName(t.key.e.entries, x)]) == Success(m[x]))
    ensures Decode(h, t, Object(obj)) == Success(NEnumMap(m))
  {
    var names := SortedStrings(obj.Keys);
    assert names[..0] == [];
    EnumMapDecodeFrom(h, t, obj, names, 0, map[], m);
  }

  /** Two maps with the same keys and the same values are equal. */
  lemma SameMap<K, V>(a: map<K, V>, b: map<K, V>)
    requires forall x :: x in a ==> x in b && a[x] == b[x]
    requires forall x :: x in b ==> x in a
    ensures a == b
  {
  }

  lemma EnumDecodeDone(E: EnumDesc, obj: map<string, DynamicValue>, names: seq<string>,
                       acc: map<int, Native>, m: map<int, Native>)
    requires forall n :: n in names <==> n in obj
    requires forall x :: x in m ==> EnumName(E.entries, x) in obj
    requires forall x :: x in acc ==> x in m && acc[x] == m[x]
    requires forall x :: x in m && EnumName(E.entries, x) in names ==> x in acc
    ensures acc == m
  {
    forall x | x in m
      ensures x in acc
    {
      assert EnumName(E.entries, x) in names;
    }
    forall x | x in acc
      ensures x in m && acc[x] == m[x]
    {
    }
    SameMap(acc, m);
  }

  /** Reading the next name keeps the accumulated map a part of the whole
      one holding every value whose name has been read. */
  lemma EnumDecodeStep(E: EnumDesc, obj: map<string, DynamicValue>, names: seq<string>, i: nat,
                       acc: map<int, Native>, m: map<int, Native>)
    requires WfEnum(E) && i < |names|
    requires forall n :: n in names <==> n in obj
    requires forall n {:trigger EnumCast(E.entries, n)} :: n in obj ==> EnumCast(E.entries, n).Some? && EnumCast(E.entries, n).value in m
    requires forall x :: x in m ==> EnumName(E.entries, x) != ""
    requires forall x :: x in acc ==> x in m && acc[x] == m[x]
    requires forall x :: x in m && EnumName(E.entries, x) in names[..i] ==> x in acc
    ensures names[i] in obj
    ensures var x := EnumCast(E.entries, names[i]).value;
      var acc' := if x in acc then acc else acc[x := m[x]];
      (forall y :: y in acc' ==> y in m && acc'[y] == m[y])
      && (forall y :: y in m && EnumName(E.entries, y) in names[..i + 1] ==> y in acc')
  {
    var n := names[i];
    assert n in names;
    var x := EnumCast(E.entries, n).value;
    CastName(E, n);
    assert names[..i + 1] == names[..i] + [n];
    forall y | y in m && EnumName(E.entries, y) == n
      ensures y == x
    {
      EnumNameInjective(E, x, y);
    }
  }

  lemma {:induction false} EnumMapDecodeFrom(h: Hooks, t: TypeDesc, obj: map<string, DynamicValue>,
                                             names: seq<string>, i: nat, acc: map<int, Native>, m: map<int, Native>)
    requires t.TMap? && t.key.EnumKey? && WfEnum(t.key.e) && i <= |names|
    requires forall n :: n in names <==> n in obj
    requires forall n {:trigger EnumCast(t.key.e.entries, n)} :: n in obj ==> EnumCast(t.key.e.entries, n).Some? && EnumCast(t.key.e.entries, n).value in m
    requires forall x :: x in m ==>
      (EnumName(t.key.e.entries, x) != "" && EnumName(t.key.e.entries, x) in obj
       && Decode(h, t.val, obj[EnumName(t.key.e.entries, x)]) == Success(m[x]))
    requires forall x :: x in acc ==> x in m && acc[x] == m[x]
    requires forall x :: x in m && EnumName(t.key.e.entries, x) in names[..i] ==> x in acc
    ensures DecodeEnumMapFrom(h, t, obj, names, i, acc) == Success(NEnumMap(m))
    decreases |names| - i
  {
    var E := t.key.e;
    if i == |names| {
      assert names[..i] == names;
      EnumDecodeDone(E, obj, names, acc, m);
    } else {
      var n := names[i];
      var x := EnumCast(E.entries, n).value;
      CastName(E, n);
      var acc' := if x in acc then acc else acc[x := m[x]];
      EnumDecodeStep(E, obj, names, i, acc, m);
      EnumMapDecodeFrom(h, t, obj, names, i + 1, acc', m);
    }
  }
}
