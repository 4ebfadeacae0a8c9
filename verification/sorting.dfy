/**
  `Arrays.sort` on an `int[]`: the ascending rearrangement of the array. An
  insertion sort defines it; `SortedUnique` shows that any ascending permutation
  is this one, so the definition pins down exactly what the library call
  produces.
 */
module Sorting {

  ghost predicate Sorted(s: seq<int>) {
    forall i, j :: 0 <= i < j < |s| ==> s[i] <= s[j]
  }

  /** `x` placed in front of the first element of `s` that is not smaller. */
  function Insert(x: int, s: seq<int>): (t: seq<int>)
    requires Sorted(s)
    ensures |t| == |s| + 1
    ensures multiset(t) == multiset(s) + multiset{x}
    ensures Sorted(t)
  {
    if |s| == 0 then [x]
    else if x <= s[0] then [x] + s
    else
      var u := Insert(x, s[1..]);
      assert s == [s[0]] + s[1..];
      AllAtLeast(s[0], u, s[1..], x);
      [s[0]] + u
  }

  /** Every element of `u`, a rearrangement of `rest` and `x`, is at least `lo`. */
  lemma AllAtLeast(lo: int, u: seq<int>, rest: seq<int>, x: int)
    requires multiset(u) == multiset(rest) + multiset{x}
    requires lo <= x && forall i :: 0 <= i < |rest| ==> lo <= rest[i]
    ensures forall i :: 0 <= i < |u| ==> lo <= u[i]
  {
    forall i | 0 <= i < |u|
      ensures lo <= u[i]
    {
      assert u[i] in multiset(u);
      if u[i] != x {
        assert u[i] in multiset(rest);
      }
    }
  }

  /** The ascending rearrangement of `s`. */
  function Sort(s: seq<int>): (t: seq<int>)
    ensures |t| == |s|
    ensures multiset(t) == multiset(s)
    ensures Sorted(t)
  {
    if |s| == 0 then []
    else
      assert s == [s[0]] + s[1..];
      Insert(s[0], Sort(s[1..]))
  }

  /** Two ascending rearrangements of the same elements are equal. */
  lemma {:induction false} SortedUnique(a: seq<int>, b: seq<int>)
    requires Sorted(a) && Sorted(b) && multiset(a) == multiset(b)
    ensures a == b
    decreases |a|
  {
    assert |a| == |multiset(a)| == |multiset(b)| == |b|;
    if |a| > 0 {
      assert a[0] == b[0] by {
        HeadIsLeast(a, b);
        HeadIsLeast(b, a);
      }
      assert multiset(a[1..]) == multiset(b[1..]) by {
        assert a == [a[0]] + a[1..] && b == [b[0]] + b[1..];
        assert multiset(a) == multiset{a[0]} + multiset(a[1..]);
        assert multiset(b) == multiset{a[0]} + multiset(b[1..]);
        forall e
          ensures multiset(a[1..])[e] == multiset(b[1..])[e]
        {
          assert multiset(a)[e] == multiset{a[0]}[e] + multiset(a[1..])[e];
          assert multiset(b)[e] == multiset{a[0]}[e] + multiset(b[1..])[e];
        }
      }
      SortedUnique(a[1..], b[1..]);
    }
  }

  /** The head of an ascending `b` is at most every element, so at most the head of `a`. */
  lemma HeadIsLeast(a: seq<int>, b: seq<int>)
    requires |a| > 0 && |b| > 0 && Sorted(b) && multiset(a) == multiset(b)
    ensures b[0] <= a[0]
  {
    assert a[0] in multiset(b);
    var j :| 0 <= j < |b| && b[j] == a[0];
  }

  /** `Sort` is the sort: anything ascending with the same elements is `Sort(s)`. */
  lemma SortIsTheSort(s: seq<int>, t: seq<int>)
    requires Sorted(t) && multiset(t) == multiset(s)
    ensures t == Sort(s)
  {
    SortedUnique(t, Sort(s));
  }
}
