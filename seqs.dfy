/** Small facts about sequences shared by the string and dictionary models. */
module Seqs {

  /** No element occurs twice: each element is new with respect to the ones before it. */
  ghost predicate Distinct<T>(s: seq<T>) {
    |s| == 0 || (s[|s| - 1] !in s[..|s| - 1] && Distinct(s[..|s| - 1]))
  }

  /** Two positions of a sequence without repetitions hold different elements. */
  lemma {:induction false} DistinctAt<T>(s: seq<T>, i: nat, j: nat)
    requires Distinct(s) && i < j < |s|
    ensures s[i] != s[j]
  {
    var pre := s[..|s| - 1];
    if j < |s| - 1 {
      DistinctAt(pre, i, j);
    } else {
      assert s[i] == pre[i];
    }
  }

  /** The position of the first occurrence of `x` in `s` (Python's `s.index(x)`). */
  function IndexOf<T(==)>(s: seq<T>, x: T): (i: nat)
    requires x in s
    ensures i < |s| && s[i] == x
    ensures x !in s[..i]
    ensures forall j :: 0 <= j < i ==> s[j] != x
  {
    if s[0] == x then 0 else 1 + IndexOf(s[1..], x)
  }

  /** Appending an element does not move the first occurrence of an element already present. */
  lemma IndexOfAppend<T>(s: seq<T>, y: T, x: T)
    requires x in s
    ensures IndexOf(s + [y], x) == IndexOf(s, x)
  {
    var i, k := IndexOf(s, x), IndexOf(s + [y], x);
    assert (s + [y])[i] == x;
    assert k <= i;
    assert s[k] == (s + [y])[k];
  }

  /** Appending a new element puts its first occurrence at the end. */
  lemma IndexOfAppendNew<T>(s: seq<T>, x: T)
    requires x !in s
    ensures IndexOf(s + [x], x) == |s|
  {
    assert (s + [x])[|s|] == x;
    assert forall j :: 0 <= j < |s| ==> (s + [x])[j] == s[j];
  }

  /** In a sequence without repetitions, the first occurrence of `s[j]` is `j`. */
  lemma IndexOfDistinct<T>(s: seq<T>, j: nat)
    requires Distinct(s) && j < |s|
    ensures IndexOf(s, s[j]) == j
  {
    var i := IndexOf(s, s[j]);
    if i < j {
      DistinctAt(s, i, j);
    }
  }

  /** The elements of `s` that satisfy `p`, in order (a Python list comprehension with an `if`). */
  function Filter<T(!new)>(s: seq<T>, p: T -> bool): (r: seq<T>)
    ensures |r| <= |s|
    ensures forall x :: x in r <==> x in s && p(x)
  {
    if |s| == 0 then []
    else Filter(s[..|s| - 1], p) + (if p(s[|s| - 1]) then [s[|s| - 1]] else [])
  }

  lemma FilterLast<T(!new)>(s: seq<T>, p: T -> bool)
    requires |s| > 0
    ensures Filter(s, p) == Filter(s[..|s| - 1], p) + (if p(s[|s| - 1]) then [s[|s| - 1]] else [])
  {
  }

  lemma SplitLast<T>(s: seq<T>)
    requires |s| > 0
    ensures s == s[..|s| - 1] + [s[|s| - 1]]
  {
  }

  /** Filtering keeps the relative order of first occurrences. */
  lemma {:induction false} FilterOrder<T(!new)>(s: seq<T>, p: T -> bool, x: T, y: T)
    requires x in Filter(s, p) && y in Filter(s, p)
    ensures IndexOf(Filter(s, p), x) < IndexOf(Filter(s, p), y) <==> IndexOf(s, x) < IndexOf(s, y)
  {
    var pre, z := s[..|s| - 1], s[|s| - 1];
    var f := Filter(pre, p);
    FilterLast(s, p);
    SplitLast(s);
    if x in f && y in f {
      FilterOrder(pre, p, x, y);
      IndexOfAppend(pre, z, x);
      IndexOfAppend(pre, z, y);
      if p(z) {
        IndexOfAppend(f, z, x);
        IndexOfAppend(f, z, y);
      } else {
        assert Filter(s, p) == f;
      }
    } else if x !in f && y !in f {
      assert x == z && y == z;
    } else if x !in f {
      FilterOrderNew(s, p, y, x);
    } else {
      FilterOrderNew(s, p, x, y);
    }
  }

  /** The element that the last position adds to the filter comes after every element already there. */
  lemma FilterOrderNew<T(!new)>(s: seq<T>, p: T -> bool, x: T, z: T)
    requires |s| > 0 && z == s[|s| - 1]
    requires x in Filter(s[..|s| - 1], p) && z in Filter(s, p) && z !in Filter(s[..|s| - 1], p)
    ensures IndexOf(Filter(s, p), x) < IndexOf(Filter(s, p), z)
    ensures IndexOf(s, x) < IndexOf(s, z)
  {
    var pre := s[..|s| - 1];
    var f := Filter(pre, p);
    FilterLast(s, p);
    AppendNewLast(f, z, x);
    assert z !in pre && x in pre;
    SplitLast(s);
    AppendNewLast(pre, z, x);
  }

  lemma AppendNewLast<T>(s: seq<T>, z: T, x: T)
    requires x in s && z !in s
    ensures IndexOf(s + [z], x) < IndexOf(s + [z], z)
  {
    IndexOfAppendNew(s, z);
    IndexOfAppend(s, z, x);
  }

  /** Filtering a sequence without repetitions gives one without repetitions. */
  lemma {:induction false} FilterDistinct<T(!new)>(s: seq<T>, p: T -> bool)
    requires Distinct(s)
    ensures Distinct(Filter(s, p))
  {
    if |s| > 0 {
      var pre, z := s[..|s| - 1], s[|s| - 1];
      FilterDistinct(pre, p);
      var f := Filter(pre, p);
      if p(z) {
        var r := f + [z];
        assert r[..|r| - 1] == f && r[|r| - 1] == z;
      } else {
        assert Filter(s, p) == f;
      }
    }
  }

  /** When `p` holds of exactly the first `n` elements, filtering keeps exactly those. */
  lemma {:induction false} FilterPrefix<T(!new)>(s: seq<T>, p: T -> bool, n: nat)
    requires n <= |s|
    requires forall j :: 0 <= j < |s| ==> (p(s[j]) <==> j < n)
    ensures Filter(s, p) == s[..n]
  {
    if |s| > 0 {
      var pre := s[..|s| - 1];
      if n == |s| {
        FilterPrefix(pre, p, n - 1);
      } else {
        FilterPrefix(pre, p, n);
      }
    }
  }

  function Min(a: int, b: int): int {
    if a <= b then a else b
  }
}
