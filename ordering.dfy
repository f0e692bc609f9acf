/** Sorting by a strict total order: what Python's `sorted` does to a set of
    distinct keys, and the lexicographic order Python uses on strings. */
module Ordering {

  /** `less` is irreflexive, transitive and total on distinct elements. */
  ghost predicate StrictTotal<K(!new)>(less: (K, K) -> bool) {
    && (forall a :: !less(a, a))
    && (forall a, b, c :: less(a, b) && less(b, c) ==> less(a, c))
    && (forall a, b :: a != b ==> less(a, b) || less(b, a))
  }

  predicate Increasing<K>(s: seq<K>, less: (K, K) -> bool) {
    forall i, j :: 0 <= i < j < |s| ==> less(s[i], s[j])
  }

  /** Places a new element into an increasing list. */
  function Insert<K(!new)>(s: seq<K>, x: K, less: (K, K) -> bool): (r: seq<K>)
    requires StrictTotal(less) && Increasing(s, less) && x !in s
    ensures Increasing(r, less)
    ensures forall y :: y in r <==> y in s || y == x
    ensures |r| == |s| + 1
  {
    if s == [] then [x]
    else if less(x, s[0]) then
      assert forall j :: 0 <= j < |s| ==> less(x, s[j]);
      [x] + s
    else
      var tail := Insert(s[1..], x, less);
      assert forall j :: 0 <= j < |tail| ==> less(s[0], tail[j]) by {
        forall j | 0 <= j < |tail|
          ensures less(s[0], tail[j])
        {
          if tail[j] != x {
            assert tail[j] in s[1..];
            var k :| 0 <= k < |s[1..]| && s[1..][k] == tail[j];
            assert s[k + 1] == tail[j];
          }
        }
      }
      [s[0]] + tail
  }

  /** The increasing listing of a finite set. */
  ghost function Listing<K(!new)>(keys: set<K>, less: (K, K) -> bool): (r: seq<K>)
    requires StrictTotal(less)
    ensures Increasing(r, less)
    ensures forall k :: k in r <==> k in keys
    ensures |r| == |keys|
    decreases |keys|
  {
    if keys == {} then []
    else
      var x :| x in keys;
      Insert(Listing(keys - {x}, less), x, less)
  }

  /** A set has only one increasing listing. */
  lemma {:induction false} IncreasingUnique<K(!new)>(a: seq<K>, b: seq<K>, less: (K, K) -> bool)
    requires StrictTotal(less) && Increasing(a, less) && Increasing(b, less)
    requires forall k :: k in a <==> k in b
    ensures a == b
    decreases |a|
  {
    assert a != [] ==> a[0] in b;
    assert b != [] ==> b[0] in a;
    if a != [] && b != [] {
      IncreasingFirst(a, b[0], less);
      IncreasingFirst(b, a[0], less);
      assert a == [a[0]] + a[1..] && b == [b[0]] + b[1..];
      forall k
        ensures k in a[1..] <==> k in b[1..]
      {
        if k in a[1..] {
          var i :| 0 <= i < |a[1..]| && a[1..][i] == k;
          assert less(a[0], a[i + 1]);
          assert k != b[0] && k in b;
        }
        if k in b[1..] {
          var j :| 0 <= j < |b[1..]| && b[1..][j] == k;
          assert less(b[0], b[j + 1]);
          assert k != a[0] && k in a;
        }
      }
      IncreasingUnique(a[1..], b[1..], less);
    }
  }

  /** The first element of an increasing list comes before every other one. */
  lemma IncreasingFirst<K>(a: seq<K>, y: K, less: (K, K) -> bool)
    requires Increasing(a, less) && y in a
    ensures y == a[0] || less(a[0], y)
  {
  }

  /** `sorted(keys)`: the keys in increasing order. */
  method SortKeys<K(!new)>(keys: set<K>, less: (K, K) -> bool) returns (r: seq<K>)
    requires StrictTotal(less)
    ensures r == Listing(keys, less)
  {
    r := [];
    var rest := keys;
    while rest != {}
      invariant rest <= keys
      invariant Increasing(r, less)
      invariant forall k :: k in r <==> k in keys && k !in rest
      decreases rest
    {
      var x :| x in rest;
      r := Insert(r, x, less);
      rest := rest - {x};
    }
    IncreasingUnique(r, Listing(keys, less), less);
  }

  /** Python's string comparison: lexicographic by code point, a proper
      prefix first. */
  predicate StrLess(a: string, b: string) {
    if a == [] then b != []
    else b != [] && (a[0] < b[0] || (a[0] == b[0] && StrLess(a[1..], b[1..])))
  }

  lemma {:induction false} StrLessIrreflexive(a: string)
    ensures !StrLess(a, a)
  {
    if a != [] {
      StrLessIrreflexive(a[1..]);
    }
  }

  lemma {:induction false} StrLessTransitive(a: string, b: string, c: string)
    requires StrLess(a, b) && StrLess(b, c)
    ensures StrLess(a, c)
  {
    if a != [] && a[0] == b[0] && b[0] == c[0] {
      StrLessTransitive(a[1..], b[1..], c[1..]);
    }
  }

  lemma {:induction false} StrLessTotal(a: string, b: string)
    requires a != b
    ensures StrLess(a, b) || StrLess(b, a)
  {
    if a != [] && b != [] && a[0] == b[0] {
      assert a[1..] != b[1..] by {
        assert a == [a[0]] + a[1..] && b == [b[0]] + b[1..];
      }
      StrLessTotal(a[1..], b[1..]);
    }
  }

  /** String order is a strict total order. */
  lemma StrLessStrictTotal()
    ensures StrictTotal(StrLess)
  {
    forall a: string
      ensures !StrLess(a, a)
    {
      StrLessIrreflexive(a);
    }
    forall a: string, b: string, c: string | StrLess(a, b) && StrLess(b, c)
      ensures StrLess(a, c)
    {
      StrLessTransitive(a, b, c);
    }
    forall a: string, b: string | a != b
      ensures StrLess(a, b) || StrLess(b, a)
    {
      StrLessTotal(a, b);
    }
  }
}
