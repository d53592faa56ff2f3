/** The Kotlin collection operations the core uses (`filter`, `count`, `sumOf`, `distinct`,
    `sorted`), as functions on sequences with the facts the analytics rely on. */
module Sequences {

  /** `filter`: the elements satisfying `p`, in order. */
  function Filter<T(!new)>(s: seq<T>, p: T -> bool): (r: seq<T>)
    ensures |r| <= |s|
    ensures forall x :: x in r <==> x in s && p(x)
  {
    if s == [] then []
    else if p(s[0]) then [s[0]] + Filter(s[1..], p)
    else Filter(s[1..], p)
  }

  /** `count`: the number of elements satisfying `p`. */
  function Count<T(!new)>(s: seq<T>, p: T -> bool): (n: nat)
    ensures n <= |s|
    ensures n == |Filter(s, p)|
  {
    if s == [] then 0
    else (if p(s[0]) then 1 else 0) + Count(s[1..], p)
  }

  /** Counting `q` among the elements that pass `p` finds no more than counting `r` over all
      of them, when every element passing both `p` and `q` passes `r`. */
  lemma {:induction false} CountOfFilterBelow<T(!new)>(s: seq<T>, p: T -> bool, q: T -> bool, r: T -> bool)
    requires forall x :: x in s && p(x) && q(x) ==> r(x)
    ensures Count(Filter(s, p), q) <= Count(s, r)
  {
    if s != [] {
      CountOfFilterBelow(s[1..], p, q, r);
      if p(s[0]) {
        assert ([s[0]] + Filter(s[1..], p))[1..] == Filter(s[1..], p);
      }
    }
  }

  /** Counting `q` among the elements that pass `p` is counting `r` over all of them, when `r`
      is `p` and `q` together. */
  lemma {:induction false} CountOfFilter<T(!new)>(s: seq<T>, p: T -> bool, q: T -> bool, r: T -> bool)
    requires forall x :: x in s ==> r(x) == (p(x) && q(x))
    ensures Count(Filter(s, p), q) == Count(s, r)
  {
    if s != [] {
      CountOfFilter(s[1..], p, q, r);
      if p(s[0]) {
        assert ([s[0]] + Filter(s[1..], p))[1..] == Filter(s[1..], p);
      }
    }
  }

  /** `sumOf`: the sum of `f` over the elements. */
  function SumOf<T>(s: seq<T>, f: T -> int): int {
    if s == [] then 0 else f(s[0]) + SumOf(s[1..], f)
  }

  lemma {:induction false} SumOfAppend<T>(a: seq<T>, b: seq<T>, f: T -> int)
    ensures SumOf(a + b, f) == SumOf(a, f) + SumOf(b, f)
  {
    if a == [] {
      assert a + b == b;
    } else {
      assert (a + b)[1..] == a[1..] + b;
      SumOfAppend(a[1..], b, f);
    }
  }

  /** A sum of terms that are all positive is positive when there is a term. */
  lemma {:induction false} SumOfPositive<T>(s: seq<T>, f: T -> int)
    requires forall x :: x in s ==> f(x) > 0
    ensures SumOf(s, f) >= 0
    ensures s != [] ==> SumOf(s, f) > 0
  {
    if s != [] {
      SumOfPositive(s[1..], f);
    }
  }

  /** The sum of a sequence of integers. */
  function Sum(xs: seq<int>): int {
    if xs == [] then 0 else Sum(xs[..|xs| - 1]) + xs[|xs| - 1]
  }

  /** `indexOf(x)`: the first index holding `x`, or -1. */
  function FirstIndex<T(==)>(s: seq<T>, x: T): (i: int)
    ensures -1 <= i < |s|
    ensures i == -1 <==> x !in s
    ensures 0 <= i ==> s[i] == x && forall j :: 0 <= j < i ==> s[j] != x
  {
    if s == [] then -1
    else if s[0] == x then 0
    else
      var k := FirstIndex(s[1..], x);
      if k == -1 then -1 else k + 1
  }

  predicate NoDuplicates<T(==)>(s: seq<T>) {
    forall i, j :: 0 <= i < j < |s| ==> s[i] != s[j]
  }

  /** `distinct()`: the first occurrence of every element, in order. */
  function Distinct<T(==,!new)>(s: seq<T>): (r: seq<T>)
    ensures |r| <= |s|
    ensures forall x :: x in r <==> x in s
    ensures NoDuplicates(r)
  {
    if s == [] then []
    else
      var d := Distinct(s[..|s| - 1]);
      assert forall x :: x in s <==> x in s[..|s| - 1] || x == s[|s| - 1];
      if s[|s| - 1] in d then d else d + [s[|s| - 1]]
  }

  predicate Ascending(s: seq<int>) {
    forall i, j :: 0 <= i < j < |s| ==> s[i] <= s[j]
  }

  predicate StrictlyAscending(s: seq<int>) {
    forall i, j :: 0 <= i < j < |s| ==> s[i] < s[j]
  }

  function Insert(x: int, s: seq<int>): (r: seq<int>)
    requires Ascending(s)
    ensures |r| == |s| + 1
    ensures forall y :: y in r <==> y in s || y == x
    ensures Ascending(r)
    ensures StrictlyAscending(s) && x !in s ==> StrictlyAscending(r)
  {
    if s == [] || x <= s[0] then [x] + s
    else
      var rest := s[1..];
      assert forall i :: 0 <= i < |rest| ==> rest[i] == s[i + 1];
      var t := Insert(x, rest);
      InsertHead(s[0], t, x, rest);
      assert forall y :: y in s <==> y == s[0] || y in rest;
      [s[0]] + t
  }

  /** Prepending a value no larger than every element keeps a sequence ascending. */
  lemma InsertHead(h: int, t: seq<int>, x: int, rest: seq<int>)
    requires Ascending(t) && h < x
    requires forall y :: y in t <==> y in rest || y == x
    requires forall y :: y in rest ==> h <= y
    ensures Ascending([h] + t)
    ensures (forall y :: y in rest ==> h < y) && StrictlyAscending(t) ==> StrictlyAscending([h] + t)
  {
    assert forall j :: 0 <= j < |t| ==> t[j] in t;
  }

  /** The first occurrences of an ascending sequence are strictly ascending. */
  lemma {:induction false} DistinctOfAscending(s: seq<int>)
    requires Ascending(s)
    ensures StrictlyAscending(Distinct(s))
  {
    if s != [] {
      var prefix := s[..|s| - 1];
      var last := s[|s| - 1];
      assert Ascending(prefix);
      DistinctOfAscending(prefix);
      var d := Distinct(prefix);
      assert Distinct(s) == if last in d then d else d + [last];
      if last !in d {
        forall i | 0 <= i < |d|
          ensures d[i] < last
        {
          assert d[i] in prefix;
          var k :| 0 <= k < |prefix| && prefix[k] == d[i];
          assert s[k] <= last;
        }
        assert StrictlyAscending(d + [last]);
      }
    }
  }

  /** `distinct()` leaves a sequence without duplicates unchanged. */
  lemma {:induction false} DistinctOfNoDuplicates<T(!new)>(s: seq<T>)
    requires NoDuplicates(s)
    ensures Distinct(s) == s
  {
    if s != [] {
      var prefix := s[..|s| - 1];
      assert NoDuplicates(prefix);
      DistinctOfNoDuplicates(prefix);
      assert s[|s| - 1] !in prefix;
      assert s == prefix + [s[|s| - 1]];
    }
  }

  /** `sorted()` on integers (insertion sort). */
  function Sorted(s: seq<int>): (r: seq<int>)
    ensures Ascending(r)
    ensures |r| == |s|
    ensures forall y :: y in r <==> y in s
    ensures NoDuplicates(s) ==> StrictlyAscending(r)
  {
    if s == [] then []
    else
      var t := Sorted(s[1..]);
      assert forall y :: y in s <==> y in s[1..] || y == s[0] by {
        assert s == [s[0]] + s[1..];
      }
      assert NoDuplicates(s) ==> s[0] !in s[1..] && NoDuplicates(s[1..]) by {
        if NoDuplicates(s) {
          forall j | 0 <= j < |s[1..]|
            ensures s[1..][j] != s[0]
          {
            assert s[1..][j] == s[j + 1];
          }
        }
      }
      Insert(s[0], t)
  }

  /** `distinct().sorted()`: the distinct values in increasing order. */
  function DistinctSorted(s: seq<int>): (r: seq<int>)
    ensures StrictlyAscending(r)
    ensures forall y :: y in r <==> y in s
    ensures |r| == |Distinct(s)|
    ensures |r| <= |s|
  {
    Sorted(Distinct(s))
  }
}
