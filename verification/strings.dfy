/** String helpers shared by the registry, the error messages and the type-name
    rendering: suffix/prefix tests, the `"::"` separator test, joining with a
    separator, and decimal rendering of indices (`fmt::format("{}", idx)`). */
module Strings {

  predicate EndsWithNewline(s: string) {
    |s| > 0 && s[|s| - 1] == '\n'
  }

  predicate StartsWith(s: string, prefix: string) {
    |prefix| <= |s| && s[..|prefix|] == prefix
  }

  lemma StartsWithConcat(a: string, b: string)
    ensures StartsWith(a + b, a)
  {
    assert (a + b)[..|a|] == a;
  }

  lemma StartsWithTrans(a: string, b: string, c: string)
    requires StartsWith(a, b) && StartsWith(b, c)
    ensures StartsWith(a, c)
  {
    assert a[..|c|] == a[..|b|][..|c|];
  }

  /** `p` occurs in `s` at position `i`. */
  predicate OccursAt(s: string, p: string, i: int) {
    0 <= i <= |s| - |p| && s[i..i + |p|] == p
  }

  /** `s` contains `p` as a contiguous piece (`find(p) != npos`). */
  ghost predicate Contains(s: string, p: string) {
    exists i :: OccursAt(s, p, i)
  }

  /** True iff `s` contains the two-character sequence "::" somewhere
      (`std::string_view::find("::") != npos`). */
  function HasDoubleColon(s: string): (r: bool)
    ensures r <==> exists i :: 0 <= i < |s| - 1 && s[i] == ':' && s[i + 1] == ':'
  {
    if |s| < 2 then false
    else if s[0] == ':' && s[1] == ':' then true
    else
      var rest := HasDoubleColon(s[1..]);
      if rest then
        var j :| 0 <= j < |s[1..]| - 1 && s[1..][j] == ':' && s[1..][j + 1] == ':';
        assert s[j + 1] == ':' && s[j + 2] == ':';
        true
      else
        assert forall i :: 1 <= i < |s| - 1 ==> !(s[i] == ':' && s[i + 1] == ':') by {
          forall i | 1 <= i < |s| - 1
            ensures !(s[i] == ':' && s[i + 1] == ':')
          {
            assert s[1..][i - 1] == s[i] && s[1..][i] == s[i + 1];
          }
        }
        false
  }

  /** Number of occurrences of the character `c` in `s`. */
  function CountChar(s: string, c: char): nat {
    if |s| == 0 then 0 else (if s[0] == c then 1 else 0) + CountChar(s[1..], c)
  }

  lemma {:induction false} CountCharAppend(a: string, b: string, c: char)
    ensures CountChar(a + b, c) == CountChar(a, c) + CountChar(b, c)
  {
    if |a| == 0 {
      assert a + b == b;
    } else {
      assert (a + b)[1..] == a[1..] + b;
      CountCharAppend(a[1..], b, c);
    }
  }

  lemma {:induction false} CountCharAbsent(s: string, c: char)
    requires forall i :: 0 <= i < |s| ==> s[i] != c
    ensures CountChar(s, c) == 0
  {
    if |s| > 0 {
      CountCharAbsent(s[1..], c);
    }
  }

  /** Total length of a list of strings. */
  function TotalLength(parts: seq<string>): nat {
    if |parts| == 0 then 0 else |parts[0]| + TotalLength(parts[1..])
  }

  /** `parts[0] + sep + parts[1] + ... + sep + parts[n-1]`; the empty list joins to "". */
  function Join(parts: seq<string>, sep: string): (r: string)
    ensures |parts| == 0 ==> r == ""
    ensures |parts| == 1 ==> r == parts[0]
    ensures |parts| >= 1 ==> |r| == TotalLength(parts) + (|parts| - 1) * |sep|
    ensures |parts| >= 2 ==> StartsWith(r, parts[0] + sep)
  {
    if |parts| == 0 then ""
    else if |parts| == 1 then parts[0]
    else
      var tail := Join(parts[1..], sep);
      assert (parts[0] + sep + tail)[..|parts[0] + sep|] == parts[0] + sep;
      parts[0] + sep + tail
  }

  /** Where part `i` begins in the joined string: after the `i` earlier parts,
      each followed by a separator. */
  function PartStart(parts: seq<string>, sep: string, i: nat): (k: nat)
    requires i <= |parts|
    ensures i >= 1 ==> k >= |sep|
  {
    if i == 0 then 0 else |parts[0]| + |sep| + PartStart(parts[1..], sep, i - 1)
  }

  /** `r` is laid out as `parts[0] sep parts[1] ... sep parts[n-1]`: every
      part sits at its start, a separator sits right before every part but
      the first, and `r` ends where the last part does. */
  predicate JoinedBy(r: string, parts: seq<string>, sep: string) {
    && |parts| >= 1
    && |r| == PartStart(parts, sep, |parts| - 1) + |parts[|parts| - 1]|
    && (forall i {:trigger PartStart(parts, sep, i)} :: 0 <= i < |parts| ==> OccursAt(r, parts[i], PartStart(parts, sep, i)))
    && (forall i {:trigger PartStart(parts, sep, i)} :: 1 <= i < |parts| ==> OccursAt(r, sep, PartStart(parts, sep, i) - |sep|))
  }

  /** An occurrence in a suffix is an occurrence in the whole string, shifted
      by where the suffix starts. */
  lemma OccursShift(r: string, off: nat, tail: string, p: string, x: nat)
    requires off <= |r| && r[off..] == tail
    ensures OccursAt(tail, p, x) <==> OccursAt(r, p, off + x)
  {
    if OccursAt(r, p, off + x) {
      assert tail[x..x + |p|] == r[off + x..off + x + |p|];
    }
  }

  /** `Join` splits into its first part, a separator and the join of the rest. */
  lemma JoinCons(parts: seq<string>, sep: string)
    requires |parts| >= 2
    ensures Join(parts, sep)[..|parts[0]|] == parts[0]
    ensures Join(parts, sep)[|parts[0]|..|parts[0]| + |sep|] == sep
    ensures Join(parts, sep)[|parts[0]| + |sep|..] == Join(parts[1..], sep)
  {
    var r := Join(parts, sep);
    assert r == parts[0] + sep + Join(parts[1..], sep);
  }

  lemma {:induction false} JoinLength(parts: seq<string>, sep: string)
    requires |parts| >= 1
    ensures |Join(parts, sep)| == PartStart(parts, sep, |parts| - 1) + |parts[|parts| - 1]|
  {
    if |parts| >= 2 {
      JoinCons(parts, sep);
      JoinLength(parts[1..], sep);
    }
  }

  lemma {:induction false} JoinPartAt(parts: seq<string>, sep: string, i: nat)
    requires i < |parts|
    ensures OccursAt(Join(parts, sep), parts[i], PartStart(parts, sep, i))
  {
    var r := Join(parts, sep);
    if |parts| == 1 {
      assert r[0..|parts[0]|] == parts[0];
    } else {
      JoinCons(parts, sep);
      if i >= 1 {
        JoinPartAt(parts[1..], sep, i - 1);
        OccursShift(r, |parts[0]| + |sep|, Join(parts[1..], sep), parts[i], PartStart(parts[1..], sep, i - 1));
      }
    }
  }

  lemma {:induction false} JoinSepAt(parts: seq<string>, sep: string, i: nat)
    requires 1 <= i < |parts|
    ensures OccursAt(Join(parts, sep), sep, PartStart(parts, sep, i) - |sep|)
  {
    var r := Join(parts, sep);
    JoinCons(parts, sep);
    if i >= 2 {
      JoinSepAt(parts[1..], sep, i - 1);
      OccursShift(r, |parts[0]| + |sep|, Join(parts[1..], sep), sep, PartStart(parts[1..], sep, i - 1) - |sep|);
    }
  }

  /** `Join` lays its result out as `JoinedBy` describes. */
  lemma JoinLayout(parts: seq<string>, sep: string)
    requires |parts| >= 1
    ensures JoinedBy(Join(parts, sep), parts, sep)
  {
    JoinLength(parts, sep);
    forall i | 0 <= i < |parts|
      ensures OccursAt(Join(parts, sep), parts[i], PartStart(parts, sep, i))
    {
      JoinPartAt(parts, sep, i);
    }
    forall i | 1 <= i < |parts|
      ensures OccursAt(Join(parts, sep), sep, PartStart(parts, sep, i) - |sep|)
    {
      JoinSepAt(parts, sep, i);
    }
  }

  /** A layout of two or more parts is its first part and a separator
      followed by a layout of the rest. */
  lemma JoinedByTail(r: string, parts: seq<string>, sep: string)
    requires JoinedBy(r, parts, sep) && |parts| >= 2
    ensures r[..|parts[0]|] == parts[0]
    ensures r[|parts[0]|..|parts[0]| + |sep|] == sep
    ensures JoinedBy(r[|parts[0]| + |sep|..], parts[1..], sep)
  {
    var off := |parts[0]| + |sep|;
    var rest := r[off..];
    var tl := parts[1..];
    assert OccursAt(r, parts[0], PartStart(parts, sep, 0));
    assert OccursAt(r, sep, PartStart(parts, sep, 1) - |sep|);
    assert |rest| == PartStart(tl, sep, |tl| - 1) + |tl[|tl| - 1]| by {
      assert PartStart(parts, sep, |parts| - 1) == off + PartStart(tl, sep, |tl| - 1);
      assert tl[|tl| - 1] == parts[|parts| - 1];
    }
    forall i | 0 <= i < |parts[1..]|
      ensures OccursAt(rest, parts[1..][i], PartStart(parts[1..], sep, i))
    {
      JoinedByTailPart(r, parts, sep, i);
    }
    forall i | 1 <= i < |parts[1..]|
      ensures OccursAt(rest, sep, PartStart(parts[1..], sep, i) - |sep|)
    {
      JoinedByTailSep(r, parts, sep, i);
    }
  }

  lemma JoinedByTailPart(r: string, parts: seq<string>, sep: string, i: nat)
    requires JoinedBy(r, parts, sep) && i + 1 < |parts|
    ensures |parts[0]| + |sep| <= |r|
    ensures OccursAt(r[|parts[0]| + |sep|..], parts[i + 1], PartStart(parts[1..], sep, i))
  {
    var k := PartStart(parts, sep, i + 1);
    assert OccursAt(r, parts[i + 1], k);
    OccursShift(r, |parts[0]| + |sep|, r[|parts[0]| + |sep|..], parts[i + 1], PartStart(parts[1..], sep, i));
  }

  lemma JoinedByTailSep(r: string, parts: seq<string>, sep: string, i: nat)
    requires JoinedBy(r, parts, sep) && 1 <= i && i + 1 < |parts|
    ensures |parts[0]| + |sep| <= |r|
    ensures OccursAt(r[|parts[0]| + |sep|..], sep, PartStart(parts[1..], sep, i) - |sep|)
  {
    var k := PartStart(parts, sep, i + 1);
    assert OccursAt(r, sep, k - |sep|);
    assert OccursAt(r, parts[i + 1], k);
    OccursShift(r, |parts[0]| + |sep|, r[|parts[0]| + |sep|..], sep, PartStart(parts[1..], sep, i) - |sep|);
  }

  /** Conversely, a string laid out as `JoinedBy` describes is the join: the
      layout determines the string. */
  lemma {:induction false} JoinedByIsJoin(r: string, parts: seq<string>, sep: string)
    requires JoinedBy(r, parts, sep)
    ensures r == Join(parts, sep)
  {
    if |parts| == 1 {
      JoinedBySingle(r, parts, sep);
    } else {
      var off := |parts[0]| + |sep|;
      JoinedByTail(r, parts, sep);
      JoinedByIsJoin(r[off..], parts[1..], sep);
      Reassemble(r, |parts[0]|, off);
    }
  }

  lemma JoinedBySingle(r: string, parts: seq<string>, sep: string)
    requires JoinedBy(r, parts, sep) && |parts| == 1
    ensures r == parts[0]
  {
    assert OccursAt(r, parts[0], PartStart(parts, sep, 0));
  }

  lemma Reassemble(r: string, a: nat, b: nat)
    requires a <= b <= |r|
    ensures r == r[..a] + r[a..b] + r[b..]
  {
  }

  /** Joining with a one-character separator that no part contains puts exactly
      `n - 1` separators into the result. */
  lemma {:induction false} JoinSeparatorCount(parts: seq<string>, c: char)
    requires |parts| >= 1
    requires forall k, i :: 0 <= k < |parts| && 0 <= i < |parts[k]| ==> parts[k][i] != c
    ensures CountChar(Join(parts, [c]), c) == |parts| - 1
  {
    CountCharAbsent(parts[0], c);
    if |parts| > 1 {
      JoinSeparatorCount(parts[1..], c);
      var tail := Join(parts[1..], [c]);
      CountCharAppend(parts[0] + [c], tail, c);
      CountCharAppend(parts[0], [c], c);
      assert CountChar([c], c) == 1 by {
        assert [c][1..] == [];
      }
    }
  }

  function DigitChar(d: nat): (c: char)
    requires d < 10
    ensures '0' <= c <= '9'
  {
    ['0', '1', '2', '3', '4', '5', '6', '7', '8', '9'][d]
  }

  /** Decimal rendering without leading zeros, as `fmt::format("{}", n)` does for an unsigned value. */
  function NatToString(n: nat): (r: string)
    ensures |r| >= 1
    ensures forall i :: 0 <= i < |r| ==> '0' <= r[i] <= '9'
    ensures r[0] == '0' ==> n == 0
    decreases n
  {
    if n < 10 then [DigitChar(n)] else NatToString(n / 10) + [DigitChar(n % 10)]
  }

  /** Reading back a string of decimal digits. */
  function ParseDecimal(s: string): nat
    requires forall i :: 0 <= i < |s| ==> '0' <= s[i] <= '9'
  {
    if |s| == 0 then 0 else 10 * ParseDecimal(s[..|s| - 1]) + ((s[|s| - 1] as int) - ('0' as int))
  }

  lemma DigitCharValue(d: nat)
    requires d < 10
    ensures (DigitChar(d) as int) - ('0' as int) == d
  {
  }

  /** The decimal rendering of an index is unambiguous: it reads back as the same number. */
  lemma {:induction false} NatToStringRoundTrip(n: nat)
    ensures ParseDecimal(NatToString(n)) == n
    decreases n
  {
    var r := NatToString(n);
    DigitCharValue(n % 10);
    if n >= 10 {
      NatToStringRoundTrip(n / 10);
      assert r[..|r| - 1] == NatToString(n / 10);
    }
  }
}
