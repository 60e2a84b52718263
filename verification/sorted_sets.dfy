/** `Array.from(new Set(xs)).sort((a, b) => a - b)`, the idiom index.ts uses
    for the keyframe indices and the result pages: the distinct values of
    `xs` in ascending order. It is modelled by its result, built here by
    inserting the values one at a time into a strictly increasing list. */
module SortedSets {

  ghost predicate StrictlyIncreasing(s: seq<int>) {
    forall i, j :: 0 <= i < j < |s| ==> s[i] < s[j]
  }

  /** Insert `x` into a strictly increasing list, dropping it when present. */
  function Insert(s: seq<int>, x: int): (r: seq<int>)
    requires StrictlyIncreasing(s)
    ensures StrictlyIncreasing(r)
    ensures forall y :: y in r <==> y in s || y == x
    ensures |r| <= |s| + 1
  {
    if |s| == 0 then [x]
    else if x < s[0] then [x] + s
    else if x == s[0] then s
    else
      var tail := Insert(s[1..], x);
      assert forall y :: y in tail ==> s[0] < y;
      ConsIncreasing(s[0], tail);
      [s[0]] + tail
  }

  lemma ConsIncreasing(x: int, t: seq<int>)
    requires StrictlyIncreasing(t)
    requires forall y :: y in t ==> x < y
    ensures StrictlyIncreasing([x] + t)
  {
    var r := [x] + t;
    forall i, j | 0 <= i < j < |r|
      ensures r[i] < r[j]
    {
      assert r[j] == t[j - 1];
      if i == 0 {
        assert t[j - 1] in t;
      } else {
        assert r[i] == t[i - 1];
      }
    }
  }

  /** The distinct values of `xs`, ascending. */
  function SortUnique(xs: seq<int>): (r: seq<int>)
    ensures StrictlyIncreasing(r)
    ensures forall y :: y in r <==> y in xs
    ensures |r| <= |xs|
  {
    if |xs| == 0 then []
    else Insert(SortUnique(xs[..|xs| - 1]), xs[|xs| - 1])
  }

  /** A strictly increasing list is determined by its elements, so any two
      ways of sorting and de-duplicating the same values agree. */
  lemma {:induction false} StrictlyIncreasingUnique(a: seq<int>, b: seq<int>)
    requires StrictlyIncreasing(a) && StrictlyIncreasing(b)
    requires forall y :: y in a <==> y in b
    ensures a == b
  {
    assert |a| > 0 ==> a[0] in a;
    assert |b| > 0 ==> b[0] in b;
    if |a| > 0 {
      assert a[0] in b && b[0] in a;
      assert a[0] == b[0];
      forall y
        ensures y in a[1..] <==> y in b[1..]
      {
        if y in a[1..] {
          assert y in b && a[0] < y;
        }
        if y in b[1..] {
          assert y in a && b[0] < y;
        }
      }
      StrictlyIncreasingUnique(a[1..], b[1..]);
      assert a == [a[0]] + a[1..];
      assert b == [b[0]] + b[1..];
    }
  }

  /** Sorting values that are already strictly increasing changes nothing. */
  lemma SortUniqueOfSorted(xs: seq<int>)
    requires StrictlyIncreasing(xs)
    ensures SortUnique(xs) == xs
  {
    StrictlyIncreasingUnique(SortUnique(xs), xs);
  }
}
