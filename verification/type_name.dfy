/** Display names of reflection/TypeName.h: a short fixed name per
    DynamicValue alternative, `typeListName` joining names with a separator
    (default `"|"`), and `typeName(dv)` naming what a value holds. */
module TypeNames {

  import opened Strings
  import opened Base
  import opened DynamicValues

  /** The `typeName<T>()` specialisation of each alternative. */
  function DisplayName(a: Alt): string {
    match a
    case AltBool => "bool"
    case AltString => "std::string"
    case AltNull => "NullType"
    case AltNumber => "NumberType"
    case AltPlayer => "Player*"
    case AltActor => "Actor*"
    case AltBlockActor => "BlockActor*"
    case AltContainer => "Container*"
    case AltWorldPos => "WorldPosType"
    case AltBlockPos => "BlockPosType"
    case AltItem => "ItemType"
    case AltBlock => "BlockType"
    case AltNbt => "NbtType"
    case AltObject => "ObjectType"
    case AltArray => "ArrayType"
  }

  /** No display name contains the default separator. */
  predicate FreeOf(s: string, c: char) {
    forall i :: 0 <= i < |s| ==> s[i] != c
  }

  lemma DisplayNameHasNoBar(a: Alt)
    ensures FreeOf(DisplayName(a), '|')
  {
  }

  /** `typeListName<sep, T...>()`: `"void"` for no types, otherwise the names
      in order with `sep` between neighbours. */
  function TypeListName(names: seq<string>, sep: string): (r: string)
    ensures |names| == 0 ==> r == "void"
    ensures |names| == 1 ==> r == names[0]
    ensures |names| >= 2 ==> StartsWith(r, names[0] + sep)
    ensures |names| >= 1 ==> JoinedBy(r, names, sep)
  {
    if |names| == 0 then "void"
    else
      JoinLayout(names, sep);
      Join(names, sep)
  }

  function DisplayNames(alts: seq<Alt>): (r: seq<string>)
    ensures |r| == |alts|
    ensures forall i :: 0 <= i < |alts| ==> r[i] == DisplayName(alts[i])
  {
    if |alts| == 0 then [] else [DisplayName(alts[0])] + DisplayNames(alts[1..])
  }

  /** With the default separator, a list of n >= 1 alternatives renders with
      exactly n - 1 separators, so the rendering can be split back into the
      names. */
  lemma AltListSeparatorCount(alts: seq<Alt>)
    requires |alts| >= 1
    ensures CountChar(TypeListName(DisplayNames(alts), "|"), '|') == |alts| - 1
  {
    var names := DisplayNames(alts);
    forall k, i | 0 <= k < |names| && 0 <= i < |names[k]|
      ensures names[k][i] != '|'
    {
      DisplayNameHasNoBar(alts[k]);
    }
    JoinSeparatorCount(names, '|');
  }

  /** `typeName(dv)`: the inner alternative's name for elements, `ArrayType`
      or `ObjectType` for containers. */
  function TypeNameOf(dv: DynamicValue): (r: string)
    ensures dv.Array? ==> r == "ArrayType"
    ensures dv.Object? ==> r == "ObjectType"
    ensures dv.Null? ==> r == "NullType"
    ensures IsElement(AltOf(dv)) ==> r == DisplayName(AltOf(dv))
  {
    DisplayName(AltOf(dv))
  }

  /** The three compile-time checks at the end of the header. */
  lemma TypeListNameExamples()
    ensures TypeListName(["bool"], "|") == "bool"
    ensures TypeListName([], "|") == "void"
    ensures TypeListName(["bool", "std::string"], "|") == "bool|std::string"
  {
    assert Join(["bool", "std::string"], "|") == "bool" + "|" + Join(["std::string"], "|");
  }
}
