/** Order statistics over lists of readings: what Python's `sorted`, `min`,
    `max`, `sum`, `statistics.median` and `statistics.mean` compute, on `real`
    numbers (IEEE rounding is not modelled). */
module Stats {

  /** Non-decreasing order, the order `list.sort()` leaves numbers in. */
  predicate Sorted(s: seq<real>) {
    forall i, j :: 0 <= i < j < |s| ==> s[i] <= s[j]
  }

  function Sum(s: seq<real>): real {
    if s == [] then 0.0 else s[0] + Sum(s[1..])
  }

  function Min(s: seq<real>): (m: real)
    requires s != []
    ensures m in s
    ensures forall i :: 0 <= i < |s| ==> m <= s[i]
  {
    if |s| == 1 then s[0]
    else
      var rest := Min(s[1..]);
      if s[0] <= rest then s[0] else rest
  }

  function Max(s: seq<real>): (m: real)
    requires s != []
    ensures m in s
    ensures forall i :: 0 <= i < |s| ==> s[i] <= m
  {
    if |s| == 1 then s[0]
    else
      var rest := Max(s[1..]);
      if rest <= s[0] then s[0] else rest
  }

  /** Places `x` after every element that is not larger than it. */
  function Insert(s: seq<real>, x: real): (r: seq<real>)
    requires Sorted(s)
    ensures Sorted(r)
    ensures multiset(r) == multiset(s) + multiset{x}
    ensures |r| == |s| + 1
    ensures r[0] == x || (s != [] && r[0] == s[0])
  {
    if s == [] then [x]
    else if x < s[0] then
      SortedCons(x, s);
      [x] + s
    else
      var tail := Insert(s[1..], x);
      SortedCons(s[0], tail);
      assert multiset([s[0]] + tail) == multiset(s) + multiset{x} by {
        assert s == [s[0]] + s[1..];
      }
      [s[0]] + tail
  }

  /** A sorted list stays sorted under a new first element no larger than
      any of its elements. */
  lemma SortedCons(y: real, t: seq<real>)
    requires Sorted(t)
    requires t != [] ==> y <= t[0]
    ensures Sorted([y] + t)
  {
  }

  /** The sorted permutation of `s` (Python's `sorted(s)` / `s.sort()`). */
  function Sort(s: seq<real>): (r: seq<real>)
    ensures Sorted(r)
    ensures multiset(r) == multiset(s)
    ensures |r| == |s|
  {
    if s == [] then []
    else
      assert s == s[..|s| - 1] + [s[|s| - 1]];
      Insert(Sort(s[..|s| - 1]), s[|s| - 1])
  }

  /** `statistics.median`: the middle element of the sorted list, or the
      average of the two middle elements when the length is even. */
  function Median(s: seq<real>): (r: real)
    requires s != []
    ensures |s| % 2 == 1 ==> r in s
  {
    assert Sort(s)[|s| / 2] in multiset(s);
    Middle(Sort(s))
  }

  /** The middle of a non-empty list: its middle element, or the average of
      its two middle elements when the length is even. */
  function Middle(t: seq<real>): real
    requires t != []
  {
    var h := |t| / 2;
    if |t| % 2 == 1 then t[h] else (t[h - 1] + t[h]) / 2.0
  }

  /** The element at index `n / 2` of the sorted list: the middle element for
      odd `n` and the upper of the two middle elements for even `n`. */
  function UpperMedian(s: seq<real>): real
    requires s != []
  {
    Sort(s)[|s| / 2]
  }

  /** `statistics.mean`, equally `sum(s) / len(s)`. */
  function Mean(s: seq<real>): (r: real)
    requires s != []
    ensures r * (|s| as real) == Sum(s)
  {
    Sum(s) / (|s| as real)
  }

  // ---------------------------------------------------------------------------
  // Properties

  /** In a sorted list the first element is the minimum and the last the maximum. */
  lemma SortedEnds(s: seq<real>)
    requires Sorted(s) && s != []
    ensures s[0] == Min(s) && s[|s| - 1] == Max(s)
  {
  }

  /** The minimum and maximum depend only on the multiset of values. */
  lemma PermutationMinMax(a: seq<real>, b: seq<real>)
    requires a != [] && multiset(a) == multiset(b)
    ensures b != []
    ensures Min(a) == Min(b) && Max(a) == Max(b)
  {
    assert |b| == |multiset(b)| == |multiset(a)| == |a|;
    assert Min(b) in multiset(a) && Max(b) in multiset(a);
    assert Min(a) in multiset(b) && Max(a) in multiset(b);
  }

  lemma {:induction false} SumAppend(a: seq<real>, b: seq<real>)
    ensures Sum(a + b) == Sum(a) + Sum(b)
  {
    if a != [] {
      assert (a + b)[0] == a[0];
      assert (a + b)[1..] == a[1..] + b;
      SumAppend(a[1..], b);
    } else {
      assert a + b == b;
    }
  }

  lemma SumRemove(b: seq<real>, k: int)
    requires 0 <= k < |b|
    ensures Sum(b) == b[k] + Sum(b[..k] + b[k + 1..])
  {
    var t := b[k + 1..];
    assert b == b[..k] + ([b[k]] + t);
    SumAppend(b[..k], [b[k]] + t);
    SumAppend(b[..k], t);
    assert ([b[k]] + t)[1..] == t;
  }

  /** The sum depends only on the multiset of values, so summing after
      sorting gives the sum of the original list. */
  lemma {:induction false} SumPermutation(a: seq<real>, b: seq<real>)
    requires multiset(a) == multiset(b)
    ensures Sum(a) == Sum(b)
    decreases |a|
  {
    if a == [] {
      assert |b| == |multiset(b)| == 0;
    } else {
      assert a[0] in multiset(b);
      var k :| 0 <= k < |b| && b[k] == a[0];
      var rest := b[..k] + b[k + 1..];
      MultisetRemove(b, k);
      MultisetTail(a);
      SumPermutation(a[1..], rest);
      SumRemove(b, k);
    }
  }

  /** Removing the element at `k` drops one copy of it from the multiset. */
  lemma MultisetRemove<T>(b: seq<T>, k: int)
    requires 0 <= k < |b|
    ensures multiset(b[..k] + b[k + 1..]) == multiset(b) - multiset{b[k]}
  {
    assert b == b[..k] + [b[k]] + b[k + 1..];
  }

  lemma {:induction false} SumBounds(s: seq<real>, lo: real, hi: real)
    requires forall i :: 0 <= i < |s| ==> lo <= s[i] <= hi
    ensures (|s| as real) * lo <= Sum(s) <= (|s| as real) * hi
  {
    if s != [] {
      SumBounds(s[1..], lo, hi);
    }
  }

  /** The minimum never exceeds the median, the median never exceeds the maximum. */
  lemma MedianBounds(s: seq<real>)
    requires s != []
    ensures Min(s) <= Median(s) <= Max(s)
  {
    var t := Sort(s);
    PermutationMinMax(s, t);
    SortedEnds(t);
  }

  lemma UpperMedianBounds(s: seq<real>)
    requires s != []
    ensures Min(s) <= UpperMedian(s) <= Max(s)
  {
    var t := Sort(s);
    PermutationMinMax(s, t);
    SortedEnds(t);
  }

  /** The mean lies between the minimum and the maximum. */
  lemma MeanBounds(s: seq<real>)
    requires s != []
    ensures Min(s) <= Mean(s) <= Max(s)
  {
    MeanBetween(s, Min(s), Max(s));
  }

  /** Values within `[lo, hi]` have their mean within `[lo, hi]`. */
  lemma MeanBetween(s: seq<real>, lo: real, hi: real)
    requires s != []
    requires forall i :: 0 <= i < |s| ==> lo <= s[i] <= hi
    ensures lo <= Mean(s) <= hi
  {
    SumBounds(s, lo, hi);
    DivideBounds(lo, Sum(s), hi, |s| as real);
  }

  lemma DivideBounds(lo: real, x: real, hi: real, n: real)
    requires n > 0.0 && n * lo <= x <= n * hi
    ensures lo <= x / n <= hi
  {
    assert (x / n) * n == x;
  }

  /** A one-element list is its own median (`statistics.median([x]) == x`). */
  lemma MedianSingleton(x: real)
    ensures Median([x]) == x
  {
    assert Sort([x]) == [x];
  }

  /** Two sorted lists with the same elements are equal: sorting is
      determined by the multiset of values. */
  lemma {:induction false} SortedUnique(a: seq<real>, b: seq<real>)
    requires Sorted(a) && Sorted(b) && multiset(a) == multiset(b)
    ensures a == b
    decreases |a|
  {
    assert |a| == |multiset(a)| == |multiset(b)| == |b|;
    if a != [] {
      assert a[0] == b[0] by {
        assert a[0] in multiset(b) && b[0] in multiset(a);
        var i :| 0 <= i < |a| && a[i] == b[0];
        var j :| 0 <= j < |b| && b[j] == a[0];
        assert a[0] <= a[i] && b[0] <= b[j];
      }
      assert multiset(a[1..]) == multiset(b[1..]) by {
        MultisetTail(a);
        MultisetTail(b);
      }
      SortedUnique(a[1..], b[1..]);
      assert a == [a[0]] + a[1..] && b == [b[0]] + b[1..];
    }
  }

  /** Dropping the first element drops one copy of it from the multiset. */
  lemma MultisetTail<T>(a: seq<T>)
    requires a != []
    ensures multiset(a[1..]) == multiset(a) - multiset{a[0]}
  {
    assert a == [a[0]] + a[1..];
  }

  /** Sorting depends only on the multiset of values. */
  lemma SortPermutation(a: seq<real>, b: seq<real>)
    requires multiset(a) == multiset(b)
    ensures Sort(a) == Sort(b)
  {
    SortedUnique(Sort(a), Sort(b));
  }

  /** The median depends only on the multiset of values. */
  lemma MedianPermutation(a: seq<real>, b: seq<real>)
    requires a != [] && multiset(a) == multiset(b)
    ensures b != [] && Median(a) == Median(b)
  {
    assert |a| == |multiset(a)| == |multiset(b)| == |b|;
    SortPermutation(a, b);
  }

  /** The mean depends only on the multiset of values. */
  lemma MeanPermutation(a: seq<real>, b: seq<real>)
    requires a != [] && multiset(a) == multiset(b)
    ensures b != [] && Mean(a) == Mean(b)
  {
    assert |a| == |multiset(a)| == |multiset(b)| == |b|;
    SumPermutation(a, b);
  }
}
