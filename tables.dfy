/** SQLite tables as Dafny maps keyed by their primary key `(time, sensor)`,
    and the one piece of the query engine every script relies on: returning
    rows `ORDER BY` time. */
module Tables {

  /** The primary key shared by every table: `(recorded_at, sensor)`,
      `(starts_at, sensor)` or `(period_start_at, sensor)`. */
  type Key = (int, string)

  /** One row as a query returns it. */
  datatype Row<V> = Row(at: int, sensor: string, value: V) {
    function Key(): Key { (at, sensor) }
  }

  /** The statistics columns of a summary table row. */
  datatype Summary = Summary(minValue: real, maxValue: real, medianValue: real, meanValue: real)

  predicate TimeOrdered<V>(rows: seq<Row<V>>) {
    forall i, j :: 0 <= i < j < |rows| ==> rows[i].at <= rows[j].at
  }

  predicate DistinctKeys<V>(rows: seq<Row<V>>) {
    forall i, j :: 0 <= i < j < |rows| ==> rows[i].Key() != rows[j].Key()
  }

  /** `rows` lists the rows of `t` whose keys are in `keys`, each exactly once. */
  ghost predicate Lists<V(!new)>(rows: seq<Row<V>>, t: map<Key, V>, keys: set<Key>) {
    && keys <= t.Keys
    && DistinctKeys(rows)
    && (forall r :: r in rows ==> r.Key() in keys && t[r.Key()] == r.value)
    && (forall k :: k in keys ==> Row(k.0, k.1, t[k]) in rows)
  }

  /** Inserts `x` after every row not later than it. */
  function InsertByTime<V(!new)>(rows: seq<Row<V>>, x: Row<V>): (r: seq<Row<V>>)
    requires TimeOrdered(rows)
    ensures TimeOrdered(r)
    ensures |r| == |rows| + 1
    ensures forall y :: y in r <==> y in rows || y == x
  {
    if rows == [] || x.at < rows[0].at then [x] + rows
    else
      var tail := InsertByTime(rows[1..], x);
      assert rows == [rows[0]] + rows[1..];
      assert forall j :: 0 <= j < |tail| ==> rows[0].at <= tail[j].at by {
        forall j | 0 <= j < |tail| ensures rows[0].at <= tail[j].at {
          assert tail[j] in tail;
        }
      }
      [rows[0]] + tail
  }

  /** Inserting a row whose key is new keeps the keys distinct. */
  lemma {:induction false} InsertByTimeDistinct<V(!new)>(rows: seq<Row<V>>, x: Row<V>)
    requires TimeOrdered(rows) && DistinctKeys(rows)
    requires forall y :: y in rows ==> y.Key() != x.Key()
    ensures DistinctKeys(InsertByTime(rows, x))
  {
    if rows != [] && x.at >= rows[0].at {
      var tail := InsertByTime(rows[1..], x);
      InsertByTimeDistinct(rows[1..], x);
      assert forall j :: 0 <= j < |tail| ==> tail[j].Key() != rows[0].Key() by {
        forall j | 0 <= j < |tail| ensures tail[j].Key() != rows[0].Key() {
          assert tail[j] in tail;
          if tail[j] != x {
            var i :| 0 <= i < |rows[1..]| && rows[1..][i] == tail[j];
            assert rows[i + 1] == tail[j];
          }
        }
      }
    }
  }

  /** `SELECT ... FROM t ORDER BY time ASC`: every row of `t` exactly once,
      in non-decreasing time. SQL leaves the order of rows with equal times
      unspecified, and so does this method. */
  method OrderByTime<V(!new)>(t: map<Key, V>) returns (rows: seq<Row<V>>)
    ensures TimeOrdered(rows)
    ensures Lists(rows, t, t.Keys)
    ensures |rows| == |t|
  {
    rows := [];
    var rest := t.Keys;
    while rest != {}
      invariant rest <= t.Keys
      invariant TimeOrdered(rows)
      invariant Lists(rows, t, t.Keys - rest)
      invariant |rows| + |rest| == |t.Keys|
      decreases rest
    {
      var k :| k in rest;
      var row := Row(k.0, k.1, t[k]);
      assert forall y :: y in rows ==> y.Key() != row.Key();
      InsertByTimeDistinct(rows, row);
      rows := InsertByTime(rows, row);
      rest := rest - {k};
    }
  }

  /** Rows with distinct keys occur once each. */
  lemma {:induction false} DistinctOnce<V>(rows: seq<Row<V>>)
    requires DistinctKeys(rows)
    ensures forall r :: multiset(rows)[r] == if r in rows then 1 else 0
  {
    if rows != [] {
      assert rows == [rows[0]] + rows[1..];
      DistinctOnce(rows[1..]);
      assert rows[0] !in rows[1..] by {
        forall j | 0 <= j < |rows[1..]| ensures rows[1..][j] != rows[0] {
          assert rows[1..][j] == rows[j + 1];
        }
      }
    }
  }

  /** Any two listings of the same rows are permutations of each other: a
      query's result does not depend on the order it comes back in. */
  lemma ListingsArePermutations<V(!new)>(a: seq<Row<V>>, b: seq<Row<V>>, t: map<Key, V>, keys: set<Key>)
    requires Lists(a, t, keys) && Lists(b, t, keys)
    ensures multiset(a) == multiset(b)
  {
    DistinctOnce(a);
    DistinctOnce(b);
    forall r
      ensures multiset(a)[r] == multiset(b)[r]
    {
      if r in a {
        assert Row(r.at, r.sensor, t[r.Key()]) in b;
      }
      if r in b {
        assert Row(r.at, r.sensor, t[r.Key()]) in a;
      }
    }
  }

  /** The rows of `t` for one sensor with times in `[start, end)`, the
      `WHERE sensor = ? AND at >= ? AND at < ?` of the scripts' queries. */
  function SensorRange<V>(t: map<Key, V>, sensor: string, start: int, end: int): (s: map<Key, V>)
    ensures forall k :: k in s <==> k in t && k.1 == sensor && start <= k.0 < end
    ensures forall k :: k in s ==> s[k] == t[k]
  {
    map k | k in t && k.1 == sensor && start <= k.0 < end :: t[k]
  }

  /** The rows of `t` with times in `[start, end)`. */
  function TimeRange<V>(t: map<Key, V>, start: int, end: int): (s: map<Key, V>)
    ensures forall k :: k in s <==> k in t && start <= k.0 < end
    ensures forall k :: k in s ==> s[k] == t[k]
  {
    map k | k in t && start <= k.0 < end :: t[k]
  }

  /** Within one sensor the primary key makes times unique, so time order is
      strict. */
  lemma SameSensorStrictlyIncreasing<V>(rows: seq<Row<V>>, i: int, j: int)
    requires TimeOrdered(rows) && DistinctKeys(rows)
    requires 0 <= i < j < |rows| && rows[i].sensor == rows[j].sensor
    ensures rows[i].at < rows[j].at
  {
  }

  /** `after` is `before` once, for each sensor in `done` that `has`
      accepts, a row that `fits` accepts has been upserted at
      `(start, sensor)`; every other row is as before. The loops that write
      one row per sensor keep this as their invariant. */
  ghost predicate UpsertedFor<V(!new)>(before: map<Key, V>, after: map<Key, V>, start: int, done: set<string>,
                                       has: string -> bool, fits: (string, V) -> bool)
  {
    && (forall k :: k in after <==> k in before || (k.0 == start && k.1 in done && has(k.1)))
    && (forall k :: k in before && !(k.0 == start && k.1 in done && has(k.1)) ==> after[k] == before[k])
    && (forall sensor :: sensor in done && has(sensor) ==>
          (start, sensor) in after && fits(sensor, after[(start, sensor)]))
  }

  /** One more sensor: upserting its row (or nothing, when `has` rejects it)
      extends the invariant to it. */
  lemma UpsertedStep<V(!new)>(before: map<Key, V>, table: map<Key, V>, table': map<Key, V>, start: int,
                              done: set<string>, sensor: string, has: string -> bool, fits: (string, V) -> bool)
    requires UpsertedFor(before, table, start, done, has, fits)
    requires has(sensor) ==>
      && (start, sensor) in table'
      && table' == table[(start, sensor) := table'[(start, sensor)]]
      && fits(sensor, table'[(start, sensor)])
    requires !has(sensor) ==> table' == table
    ensures UpsertedFor(before, table', start, done + {sensor}, has, fits)
  {
    var done' := done + {sensor};
    forall k | k in before && !(k.0 == start && k.1 in done' && has(k.1))
      ensures table'[k] == before[k]
    {
      assert k != (start, sensor) || !has(sensor);
    }
    forall s | s in done' && has(s)
      ensures (start, s) in table' && fits(s, table'[(start, s)])
    {
      if s != sensor {
        assert s in done;
      }
    }
  }

  // ---------------------------------------------------------------------------
  // Sorted, de-duplicated integers: Python's `sorted(set(xs))`.

  predicate StrictlyIncreasing(s: seq<int>) {
    forall i, j :: 0 <= i < j < |s| ==> s[i] < s[j]
  }

  function InsertInt(s: seq<int>, x: int): (r: seq<int>)
    requires StrictlyIncreasing(s) && x !in s
    ensures StrictlyIncreasing(r)
    ensures forall y :: y in r <==> y in s || y == x
    ensures |r| == |s| + 1
  {
    if s == [] || x < s[0] then [x] + s
    else
      var tail := InsertInt(s[1..], x);
      assert s == [s[0]] + s[1..];
      assert forall j :: 0 <= j < |tail| ==> s[0] < tail[j] by {
        forall j | 0 <= j < |tail| ensures s[0] < tail[j] {
          assert tail[j] in tail;
        }
      }
      [s[0]] + tail
  }

  /** Python's `sorted(set(xs))`. */
  function SortedDistinct(xs: seq<int>): (r: seq<int>)
    ensures StrictlyIncreasing(r)
    ensures forall y :: y in r <==> y in xs
  {
    if xs == [] then []
    else
      var init, last := xs[..|xs| - 1], xs[|xs| - 1];
      assert xs == init + [last];
      var r := SortedDistinct(init);
      if last in r then r else InsertInt(r, last)
  }
}
