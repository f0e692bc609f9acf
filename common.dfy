/** A value that may be missing: Python's `None` (or an absent key) versus a value. */
module Wrappers {
  datatype Option<T> = None | Some(value: T)
}

/** Integer epoch-second arithmetic shared by every script: flooring an
    instant to the start of the minute, hour, day or summary period that
    contains it. Local time is taken to be UTC (no offset, no DST). */
module Epoch {
  const Minute: int := 60
  const Hour: int := 3600
  const Day: int := 86400

  /** `t - t % p` in Python (equal to `(t // p) * p`): the start of the
      width-`p` period containing `t`, periods counted from the epoch. */
  function FloorTo(t: int, p: int): (r: int)
    requires p > 0
    ensures r % p == 0
    ensures r <= t < r + p
  {
    assert t == (t / p) * p + t % p;
    MultipleMod(t / p, p);
    t - t % p
  }

  lemma MultipleMod(k: int, p: int)
    requires p > 0
    ensures (k * p) % p == 0
  {
    var x := k * p;
    var q, m := x / p, x % p;
    assert x == q * p + m && 0 <= m < p;
    var d := k - q;
    assert d * p == m;
  }

  /** A multiple of `p` is its own quotient times `p`. */
  lemma ModZero(r: int, p: int)
    requires p > 0 && r % p == 0
    ensures r == (r / p) * p
  {
  }

  /** Two multiples of `p` less than `p` apart are equal. */
  lemma MultiplesApart(a: int, b: int, p: int)
    requires p > 0 && a % p == 0 && b % p == 0 && a <= b < a + p
    ensures a == b
  {
    ModZero(a, p);
    ModZero(b, p);
    var d := b / p - a / p;
    assert b - a == d * p;
  }

  /** The aligned period start is the only multiple of `p` in `(t - p, t]`. */
  lemma FloorToUnique(t: int, p: int, r: int)
    requires p > 0 && r % p == 0 && r <= t < r + p
    ensures r == FloorTo(t, p)
  {
    var f := FloorTo(t, p);
    if r <= f {
      MultiplesApart(r, f, p);
    } else {
      MultiplesApart(f, r, p);
    }
  }

  /** Flooring an already aligned instant leaves it where it is. */
  lemma FloorToIdempotent(t: int, p: int)
    requires p > 0
    ensures FloorTo(FloorTo(t, p), p) == FloorTo(t, p)
  {
    var f := FloorTo(t, p);
    FloorToUnique(f, p, f);
  }

  /** Flooring preserves order. */
  lemma FloorToMonotonic(s: int, t: int, p: int)
    requires p > 0 && s <= t
    ensures FloorTo(s, p) <= FloorTo(t, p)
  {
    var fs, ft := FloorTo(s, p), FloorTo(t, p);
    if ft < fs {
      MultiplesApart(ft, fs, p);
    }
  }
}

/** Plain string helpers standing in for Python's `str` methods. */
module Text {
  /** The part of `s` before the first `c`, or all of `s`. */
  function Before(s: string, c: char): (r: string)
    ensures r <= s && c !in r
    ensures |r| < |s| ==> s[|r|] == c
  {
    if s == [] || s[0] == c then [] else [s[0]] + Before(s[1..], c)
  }

  /** The part of `s` after the first `c`, or nothing. */
  function After(s: string, c: char): (r: string)
    ensures |Before(s, c)| < |s| ==> s == Before(s, c) + [c] + r
    ensures |Before(s, c)| == |s| ==> r == []
  {
    if s == [] then []
    else if s[0] == c then s[1..]
    else After(s[1..], c)
  }

  /** Without a `c`, nothing is cut off. */
  lemma {:induction false} BeforeAbsent(s: string, c: char)
    requires c !in s
    ensures Before(s, c) == s
  {
    if s != [] {
      BeforeAbsent(s[1..], c);
    }
  }

  /** The first `c` of `a + [c] + b`, when `a` has none, is the one after `a`. */
  lemma {:induction false} SplitAtFirst(a: string, c: char, b: string)
    requires c !in a
    ensures Before(a + [c] + b, c) == a
    ensures After(a + [c] + b, c) == b
  {
    if a != [] {
      assert (a + [c] + b)[1..] == a[1..] + [c] + b;
      SplitAtFirst(a[1..], c, b);
    }
  }

  /** `s.startswith(prefix)`. */
  predicate StartsWith(s: string, prefix: string) {
    prefix <= s
  }

  /** `s.endswith(suffix)`. */
  predicate EndsWith(s: string, suffix: string) {
    |suffix| <= |s| && s[|s| - |suffix|..] == suffix
  }
}
