/** The library behaviour `process_file` relies on, stated on sequences of
    strings: Python's ordering of `str` values, `sorted` over distinct values,
    pandas' `unique()`, and the label lookup a data frame performs. */
module Collections {

  /** Python's `a < b` on `str`: code point by code point, and a proper
      prefix comes first. */
  predicate Less(a: string, b: string): (r: bool)
    ensures r ==> a != b
    ensures |a| < |b| && a == b[..|a|] ==> r
    decreases |a|
  {
    if |a| == 0 then |b| > 0
    else if |b| == 0 then false
    else if a[0] != b[0] then a[0] < b[0]
    else Less(a[1..], b[1..])
  }

  lemma {:induction false} LessAsymmetric(a: string, b: string)
    requires Less(a, b)
    ensures !Less(b, a)
    decreases |a|
  {
    if |a| > 0 && |b| > 0 && a[0] == b[0] {
      LessAsymmetric(a[1..], b[1..]);
    }
  }

  lemma {:induction false} LessTransitive(a: string, b: string, c: string)
    requires Less(a, b) && Less(b, c)
    ensures Less(a, c)
    decreases |a|
  {
    if |a| > 0 && a[0] == b[0] && b[0] == c[0] {
      LessTransitive(a[1..], b[1..], c[1..]);
    }
  }

  /** Any two different strings are ordered one way or the other. */
  lemma {:induction false} LessTotal(a: string, b: string)
    requires a != b
    ensures Less(a, b) || Less(b, a)
    decreases |a|
  {
    if |a| > 0 && |b| > 0 && a[0] == b[0] {
      assert a == [a[0]] + a[1..];
      assert b == [b[0]] + b[1..];
      LessTotal(a[1..], b[1..]);
    }
  }

  /** Ascending without repetitions, as `sorted` returns a list of distinct values. */
  ghost predicate StrictlySorted(s: seq<string>)
  {
    forall i, j :: 0 <= i < j < |s| ==> Less(s[i], s[j])
  }

  ghost predicate Distinct<T>(s: seq<T>)
  {
    forall i, j :: 0 <= i < j < |s| ==> s[i] != s[j]
  }

  lemma SortedIsDistinct(s: seq<string>)
    requires StrictlySorted(s)
    ensures Distinct(s)
  {
  }

  /** The head of a strictly sorted sequence is below everything after it. */
  lemma HeadBelowRest(s: seq<string>)
    requires StrictlySorted(s) && |s| > 0
    ensures forall y :: y in s[1..] ==> Less(s[0], y)
  {
  }

  lemma SortedCons(h: string, t: seq<string>)
    requires StrictlySorted(t)
    requires forall y :: y in t ==> Less(h, y)
    ensures StrictlySorted([h] + t)
  {
  }

  /** Adds `x` to a strictly sorted sequence, keeping it strictly sorted. */
  function Insert(s: seq<string>, x: string): (r: seq<string>)
    requires StrictlySorted(s)
    ensures StrictlySorted(r)
    ensures forall y :: y in r <==> y in s || y == x
    decreases |s|
  {
    if s == [] then [x]
    else if x == s[0] then s
    else if Less(x, s[0]) then
      HeadBelowRest(s);
      assert forall y :: y in s[1..] ==> Less(x, y) by {
        forall y | y in s[1..] ensures Less(x, y) { LessTransitive(x, s[0], y); }
      }
      assert s == [s[0]] + s[1..];
      SortedCons(x, s);
      [x] + s
    else
      LessTotal(x, s[0]);
      HeadBelowRest(s);
      assert StrictlySorted(s[1..]) by {
        forall i, j | 0 <= i < j < |s[1..]| ensures Less(s[1..][i], s[1..][j]) {
          assert s[1..][i] == s[i + 1] && s[1..][j] == s[j + 1];
        }
      }
      var t := Insert(s[1..], x);
      SortedCons(s[0], t);
      assert s == [s[0]] + s[1..];
      [s[0]] + t
  }

  /** `sorted(set(s))`: the distinct values of `s` in ascending order. */
  function SortedDistinct(s: seq<string>): (r: seq<string>)
    ensures StrictlySorted(r)
    ensures forall y :: y in r <==> y in s
  {
    if s == [] then []
    else
      assert s == [s[0]] + s[1..];
      Insert(SortedDistinct(s[1..]), s[0])
  }

  /** A set of strings has exactly one strictly sorted arrangement. */
  lemma {:induction false} StrictlySortedUnique(s: seq<string>, t: seq<string>)
    requires StrictlySorted(s) && StrictlySorted(t)
    requires forall y :: y in s <==> y in t
    ensures s == t
    decreases |s|
  {
    assert t != [] ==> t[0] in t;
    if s != [] {
      assert s[0] in s;
      assert t != [];
      assert t[0] in t;
      if s[0] != t[0] {
        HeadBelowRest(s);
        HeadBelowRest(t);
        assert s[0] in t[1..] by { assert s[0] in t; assert t == [t[0]] + t[1..]; }
        assert t[0] in s[1..] by { assert t[0] in s; assert s == [s[0]] + s[1..]; }
        LessAsymmetric(s[0], t[0]);
        assert false;
      }
      SortedIsDistinct(s);
      SortedIsDistinct(t);
      assert StrictlySorted(s[1..]) by {
        forall i, j | 0 <= i < j < |s[1..]| ensures Less(s[1..][i], s[1..][j]) {
          assert s[1..][i] == s[i + 1] && s[1..][j] == s[j + 1];
        }
      }
      assert StrictlySorted(t[1..]) by {
        forall i, j | 0 <= i < j < |t[1..]| ensures Less(t[1..][i], t[1..][j]) {
          assert t[1..][i] == t[i + 1] && t[1..][j] == t[j + 1];
        }
      }
      forall y
        ensures y in s[1..] <==> y in t[1..]
      {
        if y in s[1..] {
          var k :| 0 <= k < |s[1..]| && s[1..][k] == y;
          assert s[k + 1] == y && y != s[0];
          assert y in t && t == [t[0]] + t[1..];
        }
        if y in t[1..] {
          var k :| 0 <= k < |t[1..]| && t[1..][k] == y;
          assert t[k + 1] == y && y != t[0];
          assert y in s && s == [s[0]] + s[1..];
        }
      }
      StrictlySortedUnique(s[1..], t[1..]);
      assert s == [s[0]] + s[1..] && t == [t[0]] + t[1..];
    }
  }

  /** pandas' `Series.unique()`: each value once, in order of first appearance. */
  function Unique(s: seq<string>): (r: seq<string>)
    ensures Distinct(r)
    ensures forall y :: y in r <==> y in s
    ensures |r| <= |s|
  {
    if s == [] then []
    else
      var init := s[..|s| - 1];
      assert s == init + [s[|s| - 1]];
      var u := Unique(init);
      if s[|s| - 1] in u then u else u + [s[|s| - 1]]
  }

  /** The position of the first occurrence of `x` in `s`. */
  function IndexOf<T(==)>(s: seq<T>, x: T): (i: nat)
    requires x in s
    ensures i < |s| && s[i] == x && x !in s[..i]
  {
    if s[0] == x then 0
    else
      assert s == [s[0]] + s[1..];
      var j := IndexOf(s[1..], x);
      assert s[..j + 1] == [s[0]] + s[1..][..j];
      j + 1
  }

  /** In a sequence without repetitions, the index of an element is its position. */
  lemma IndexOfDistinct<T>(s: seq<T>, k: nat)
    requires Distinct(s) && k < |s|
    ensures IndexOf(s, s[k]) == k
  {
  }
}
