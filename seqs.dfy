/** Sequence helpers that mirror the list operations the ingestion code
    relies on: `unique()`, list membership and set difference. */
module Seqs {

  predicate NoDuplicates<T(==)>(s: seq<T>)
  {
    forall i, j :: 0 <= i < j < |s| ==> s[i] != s[j]
  }

  /** Position of the first occurrence of `x` in `s`. */
  function IndexOf<T(==)>(s: seq<T>, x: T): (k: nat)
    requires x in s
    ensures k < |s| && s[k] == x && x !in s[..k]
  {
    if s[0] == x then 0
    else
      var k := 1 + IndexOf(s[1..], x);
      assert s[..k] == [s[0]] + s[1..][..k - 1];
      k
  }

  lemma IndexOfAppend<T>(s: seq<T>, y: T, x: T)
    requires x in s
    ensures x in s + [y] && IndexOf(s + [y], x) == IndexOf(s, x)
  {
    var k := IndexOf(s, x);
    var k' := IndexOf(s + [y], x);
    assert (s + [y])[..k] == s[..k];
    assert (s + [y])[k] == x;
  }

  lemma IndexOfLast<T>(s: seq<T>, y: T)
    requires y !in s
    ensures IndexOf(s + [y], y) == |s|
  {
    var k := IndexOf(s + [y], y);
  }

  /** Distinct elements of `s` in order of first appearance, as pandas'
      `Series.unique()` returns them. */
  function Distinct<T(==,!new)>(s: seq<T>): (r: seq<T>)
    ensures forall x :: x in r <==> x in s
    ensures NoDuplicates(r)
    ensures |s| > 0 ==> |r| > 0 && r[0] == s[0]
    ensures |r| <= |s|
  {
    if |s| == 0 then []
    else
      var d := Distinct(s[..|s| - 1]);
      assert s == s[..|s| - 1] + [s[|s| - 1]];
      if s[|s| - 1] in d then d else d + [s[|s| - 1]]
  }

  /** `Distinct` keeps the order in which values first appear. */
  lemma {:induction false} DistinctFirstAppearance<T(!new)>(s: seq<T>, i: int, j: int)
    requires 0 <= i < j < |Distinct(s)|
    ensures IndexOf(s, Distinct(s)[i]) < IndexOf(s, Distinct(s)[j])
  {
    var n := |s| - 1;
    var s' := s[..n];
    var d := Distinct(s');
    var r := Distinct(s);
    assert s == s' + [s[n]];
    if j < |d| {
      assert r[i] == d[i] && r[j] == d[j];
      DistinctFirstAppearance(s', i, j);
      IndexOfAppend(s', s[n], d[i]);
      IndexOfAppend(s', s[n], d[j]);
    } else {
      assert r == d + [s[n]] && r[j] == s[n] && s[n] !in s';
      IndexOfLast(s', s[n]);
      IndexOfAppend(s', s[n], r[i]);
    }
  }

  /** The elements of `xs` that are not in `excluded`, in the order of `xs`:
      a set difference that keeps a list's order. */
  function Without<T(==,!new)>(xs: seq<T>, excluded: seq<T>): (r: seq<T>)
    ensures forall x :: x in r <==> x in xs && x !in excluded
    ensures NoDuplicates(xs) ==> NoDuplicates(r)
    ensures |r| <= |xs|
  {
    if |xs| == 0 then []
    else
      var last := xs[|xs| - 1];
      var rest := Without(xs[..|xs| - 1], excluded);
      assert xs == xs[..|xs| - 1] + [last];
      if last in excluded then rest else rest + [last]
  }

  /** `Without` keeps the relative order of the elements it keeps. */
  lemma {:induction false} WithoutKeepsOrder<T(!new)>(xs: seq<T>, excluded: seq<T>, i: int, j: int)
    requires NoDuplicates(xs)
    requires 0 <= i < j < |Without(xs, excluded)|
    ensures IndexOf(xs, Without(xs, excluded)[i]) < IndexOf(xs, Without(xs, excluded)[j])
  {
    var n := |xs| - 1;
    var xs' := xs[..n];
    var rest := Without(xs', excluded);
    var r := Without(xs, excluded);
    assert xs == xs' + [xs[n]];
    assert NoDuplicates(xs');
    if j < |rest| {
      assert r[i] == rest[i] && r[j] == rest[j];
      WithoutKeepsOrder(xs', excluded, i, j);
      IndexOfAppend(xs', xs[n], rest[i]);
      IndexOfAppend(xs', xs[n], rest[j]);
    } else {
      assert r == rest + [xs[n]] && r[j] == xs[n];
      assert xs[n] !in xs';
      IndexOfLast(xs', xs[n]);
      IndexOfAppend(xs', xs[n], r[i]);
    }
  }

  /** A list holding one value throughout has that value as its only
      distinct element. */
  lemma {:induction false} DistinctOfConstant<T(!new)>(s: seq<T>, x: T)
    requires |s| > 0 && forall i :: 0 <= i < |s| ==> s[i] == x
    ensures Distinct(s) == [x]
  {
    if |s| > 1 {
      DistinctOfConstant(s[..|s| - 1], x);
    }
  }

  /** A list with a single distinct element holds it throughout. */
  lemma DistinctSingleton<T(!new)>(s: seq<T>)
    requires |Distinct(s)| == 1
    ensures forall i :: 0 <= i < |s| ==> s[i] == s[0]
  {
    var d := Distinct(s);
    forall i | 0 <= i < |s| ensures s[i] == s[0] {
      assert s[i] in d && s[0] in d;
    }
  }

  lemma AppendAssociates<T>(a: seq<T>, b: seq<T>, c: seq<T>)
    ensures a + (b + c) == (a + b) + c
  {
  }
}
