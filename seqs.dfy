/** Sequence helpers: Kotlin's `filter`, first-appearance de-duplication, suffixes and infixes. */
module Seqs {

  /** `filter { p(it) }`: the elements satisfying `p`, in their order. */
  function Filter<T(!new)>(s: seq<T>, p: T -> bool): (r: seq<T>)
    ensures |r| <= |s|
    ensures forall x :: x in r <==> x in s && p(x)
    decreases |s|
  {
    if s == [] then []
    else if p(s[0]) then [s[0]] + Filter(s[1..], p)
    else Filter(s[1..], p)
  }

  lemma {:induction false} FilterAppend<T(!new)>(a: seq<T>, b: seq<T>, p: T -> bool)
    ensures Filter(a + b, p) == Filter(a, p) + Filter(b, p)
    decreases |a|
  {
    if a == [] {
      assert a + b == b;
    } else {
      assert (a + b)[1..] == a[1..] + b;
      FilterAppend(a[1..], b, p);
    }
  }

  /** The distinct elements of `s`, each where it first appears. */
  function Dedup<T(==,!new)>(s: seq<T>): (r: seq<T>)
    ensures forall x :: x in r <==> x in s
    ensures forall i, j :: 0 <= i < j < |r| ==> r[i] != r[j]
    decreases |s|
  {
    if s == [] then []
    else
      var d := Dedup(s[..|s| - 1]);
      if s[|s| - 1] in d then d else d + [s[|s| - 1]]
  }

  predicate IsSuffix<T(==)>(r: seq<T>, s: seq<T>) {
    |r| <= |s| && s[|s| - |r|..] == r
  }

  /** `r` is a contiguous run of `s`: a suffix of one of its prefixes. */
  ghost predicate IsInfix<T>(r: seq<T>, s: seq<T>) {
    exists j :: 0 <= j <= |s| && IsSuffix(r, s[..j])
  }

  lemma SuffixExtend<T>(r: seq<T>, s: seq<T>, x: T)
    requires IsSuffix(r, s)
    ensures IsSuffix(r + [x], s + [x])
  {
    assert (s + [x])[|s + [x]| - |r + [x]|..] == s[|s| - |r|..] + [x];
  }

  lemma SuffixIsInfix<T>(r: seq<T>, s: seq<T>)
    requires IsSuffix(r, s)
    ensures IsInfix(r, s)
  {
    assert s[..|s|] == s;
  }

  lemma InfixExtend<T>(r: seq<T>, s: seq<T>, x: T)
    requires IsInfix(r, s)
    ensures IsInfix(r, s + [x])
  {
    var j :| 0 <= j <= |s| && IsSuffix(r, s[..j]);
    assert (s + [x])[..j] == s[..j];
  }

  lemma InfixMembers<T>(r: seq<T>, s: seq<T>)
    requires IsInfix(r, s)
    ensures forall y :: y in r ==> y in s
  {
    var j :| 0 <= j <= |s| && IsSuffix(r, s[..j]);
    forall y | y in r ensures y in s {
      var k :| 0 <= k < |r| && r[k] == y;
      assert y == s[..j][j - |r| + k];
    }
  }
}
