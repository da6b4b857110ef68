/** Iteration order for `std::unordered_map`.  The C++ order is unspecified;
    the model fixes it to ascending key order (lexicographic for strings,
    numeric for integers) so that "the first failing entry" is well defined. */
module Ordering {

  /** Lexicographic order on strings, by code unit. */
  predicate StrLe(a: string, b: string)
    decreases |a|
  {
    |a| == 0 || (|b| > 0 && (a[0] < b[0] || (a[0] == b[0] && StrLe(a[1..], b[1..]))))
  }

  lemma StrLeRefl(a: string)
    ensures StrLe(a, a)
  {
  }

  lemma {:induction false} StrLeAntisym(a: string, b: string)
    requires StrLe(a, b) && StrLe(b, a)
    ensures a == b
    decreases |a|
  {
    if |a| > 0 {
      StrLeAntisym(a[1..], b[1..]);
      assert a == [a[0]] + a[1..] && b == [b[0]] + b[1..];
    }
  }

  lemma {:induction false} StrLeTrans(a: string, b: string, c: string)
    requires StrLe(a, b) && StrLe(b, c)
    ensures StrLe(a, c)
    decreases |a|
  {
    if |a| > 0 && a[0] == b[0] && b[0] == c[0] {
      StrLeTrans(a[1..], b[1..], c[1..]);
    }
  }

  lemma {:induction false} StrLeTotal(a: string, b: string)
    ensures StrLe(a, b) || StrLe(b, a)
    decreases |a|
  {
    if |a| > 0 && |b| > 0 && a[0] == b[0] {
      StrLeTotal(a[1..], b[1..]);
    }
  }

  lemma StrLeAntisymAll()
    ensures forall a, b :: StrLe(a, b) && StrLe(b, a) ==> a == b
  {
    forall a, b | StrLe(a, b) && StrLe(b, a)
      ensures a == b
    {
      StrLeAntisym(a, b);
    }
  }

  lemma {:induction false} MinStringExists(s: set<string>)
    requires s != {}
    ensures exists m :: m in s && forall x :: x in s ==> StrLe(m, x)
    decreases |s|
  {
    var y :| y in s;
    var rest := s - {y};
    if rest == {} {
      assert s == {y};
      StrLeRefl(y);
    } else {
      MinStringExists(rest);
      var m :| m in rest && forall x :: x in rest ==> StrLe(m, x);
      StrLeTotal(y, m);
      if StrLe(y, m) {
        forall x | x in s
          ensures StrLe(y, x)
        {
          if x == y { StrLeRefl(y); } else { StrLeTrans(y, m, x); }
        }
      } else {
        forall x | x in s
          ensures StrLe(m, x)
        {
          if x != y {
            assert x in rest;
          }
        }
      }
    }
  }

  /** The least key of a non-empty set of strings. */
  function MinString(s: set<string>): (m: string)
    requires s != {}
    ensures m in s
    ensures forall x :: x in s ==> StrLe(m, x)
  {
    MinStringExists(s);
    StrLeAntisymAll();
    var m :| m in s && forall x :: x in s ==> StrLe(m, x);
    m
  }

  /** The keys of a string-keyed map in ascending order, each exactly once. */
  function SortedStrings(s: set<string>): (r: seq<string>)
    ensures |r| == |s|
    ensures forall x :: x in s <==> x in r
    ensures forall i, j :: 0 <= i < j < |r| ==> r[i] != r[j] && StrLe(r[i], r[j])
    decreases |s|
  {
    if s == {} then []
    else
      var m := MinString(s);
      [m] + SortedStrings(s - {m})
  }

  lemma {:induction false} MinIntExists(s: set<int>)
    requires s != {}
    ensures exists m :: m in s && forall x :: x in s ==> m <= x
    decreases |s|
  {
    if forall z :: z !in s {
      assert false;
    }
    var y :| y in s;
    var rest := s - {y};
    if rest == {} {
      assert s == {y};
    } else {
      MinIntExists(rest);
      var m :| m in rest && forall x :: x in rest ==> m <= x;
      var least := if y <= m then y else m;
      forall x | x in s
        ensures least <= x
      {
        if x != y {
          assert x in rest;
        }
      }
      assert least in s;
    }
  }

  /** The least element of a non-empty set of integers. */
  function MinInt(s: set<int>): (m: int)
    requires s != {}
    ensures m in s
    ensures forall x :: x in s ==> m <= x
  {
    MinIntExists(s);
    var m :| m in s && forall x :: x in s ==> m <= x;
    m
  }

  /** The keys of an integer-keyed map in ascending order, each exactly once. */
  function SortedInts(s: set<int>): (r: seq<int>)
    ensures |r| == |s|
    ensures forall x :: x in s <==> x in r
    ensures forall i, j :: 0 <= i < j < |r| ==> r[i] < r[j]
    decreases |s|
  {
    if s == {} then []
    else
      var m := MinInt(s);
      [m] + SortedInts(s - {m})
  }
}
