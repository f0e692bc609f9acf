/** The historical extractor: reads hourly values out of databases in four
    layouts, reduces them to a daily minimum, maximum and median per sensor,
    and merges the databases with later ones taking precedence. A database is
    a map from table name to its columns and to the rows its extraction query
    selects (the time column, the sensor and the value column, NULL as
    `None`); timestamps are integer epoch seconds in UTC. */
module HistoricalDaily {
  import opened Wrappers
  import opened Tables
  import opened Epoch
  import opened Stats
  import opened Ordering

  /** `MEASUREMENT_TYPES`, in processing order. */
  const MeasurementTypes: seq<string> := ["temperature", "humidity"]

  /** One row of a selected table: its time column, sensor and value column. */
  datatype Record = Record(at: int, sensor: string, value: Option<real>)

  /** The table names the extractor looks for, built from a measurement type
      (`hourly_{m}`, `daily_{m}`, `summary_{m}_3600`, `measurement_{m}`),
      and any other table. */
  datatype TableName =
    | HourlyTable(m: string)
    | DailyTable(m: string)
    | SummaryTable(m: string)
    | MeasurementTable(m: string)
    | OtherTable(name: string)

  /** The columns the extractor selects, and any other column. */
  datatype Column = ValueColumn | MedianColumn | MedianValueColumn | OtherColumn(name: string)

  datatype DbTable = DbTable(columns: set<Column>, records: seq<Record>)

  /** A database file: its tables by name. */
  type Database = map<TableName, DbTable>

  datatype Schema = SummaryCollector | LegacySummary | IndividualValue | Aggregated | Unknown

  /** `detect_schema_type`: the layouts are tried in a fixed order, the
      summary collector's tables first and the raw measurement table last;
      only the temperature tables are looked at. */
  function DetectSchemaType(db: Database): (s: Schema)
    ensures s == SummaryCollector <==> HourlyTable("temperature") in db || DailyTable("temperature") in db
    ensures s == LegacySummary <==>
      && HourlyTable("temperature") !in db && DailyTable("temperature") !in db
      && SummaryTable("temperature") in db
    ensures s == IndividualValue <==>
      && HourlyTable("temperature") !in db && DailyTable("temperature") !in db
      && SummaryTable("temperature") !in db
      && MeasurementTable("temperature") in db && ValueColumn in db[MeasurementTable("temperature")].columns
    ensures s == Aggregated <==>
      && HourlyTable("temperature") !in db && DailyTable("temperature") !in db
      && SummaryTable("temperature") !in db
      && MeasurementTable("temperature") in db && ValueColumn !in db[MeasurementTable("temperature")].columns
      && MedianColumn in db[MeasurementTable("temperature")].columns
  {
    if HourlyTable("temperature") in db || DailyTable("temperature") in db then SummaryCollector
    else if SummaryTable("temperature") in db then LegacySummary
    else if MeasurementTable("temperature") in db then
      var columns := db[MeasurementTable("temperature")].columns;
      if ValueColumn in columns then IndividualValue
      else if MedianColumn in columns then Aggregated
      else Unknown
    else Unknown
  }

  /** `hour_key`: the start of the hour containing `t`. */
  function HourKey(t: int): (r: int)
    ensures r % Hour == 0 && r <= t < r + Hour
  {
    FloorTo(t, Hour)
  }

  /** The hour key truncates to a whole hour, never moves forward by it, and
      is idempotent. */
  lemma HourKeyTruncates(t: int)
    ensures HourKey(t) % Hour == 0 && HourKey(t) <= t < HourKey(t) + Hour
    ensures HourKey(HourKey(t)) == HourKey(t)
  {
    FloorToIdempotent(t, Hour);
  }

  /** `day_start_unix_from_ts` (and `day_start_unix` on a UTC instant):
      floor division by the day length, times the day length. */
  function DayStartFromTs(t: int): (d: int)
    ensures d % Day == 0 && d <= t < d + Day
    ensures d == FloorTo(t, Day)
  {
    var d := (t / Day) * Day;
    assert t == d + t % Day;
    MultipleMod(t / Day, Day);
    FloorToUnique(t, Day, d);
    d
  }

  /** `WHERE <value> IS NOT NULL`: the rows with a value, in order. */
  function Present(records: seq<Record>): (rows: seq<Row<real>>)
    ensures forall r :: r in rows <==> Record(r.at, r.sensor, Some(r.value)) in records
    ensures |rows| <= |records|
  {
    if records == [] then []
    else
      var init := records[..|records| - 1];
      var last := records[|records| - 1];
      assert records == init + [last];
      var rest := Present(init);
      if last.value.Some? then rest + [Row(last.at, last.sensor, last.value.value)] else rest
  }

  /** The group of a row: its period of width `p` and its sensor. */
  function Bucket(r: Row<real>, p: int): Key
    requires p > 0
  {
    (FloorTo(r.at, p), r.sensor)
  }

  /** The keys of the `defaultdict` after grouping `rows`. */
  function GroupKeys(rows: seq<Row<real>>, p: int): set<Key>
    requires p > 0
  {
    if rows == [] then {}
    else GroupKeys(rows[..|rows| - 1], p) + {Bucket(rows[|rows| - 1], p)}
  }

  /** The groups are exactly the buckets of the rows. */
  lemma {:induction false} GroupKeysMembership(rows: seq<Row<real>>, p: int, k: Key)
    requires p > 0
    ensures k in GroupKeys(rows, p) <==> exists r :: r in rows && Bucket(r, p) == k
  {
    if rows != [] {
      var init := rows[..|rows| - 1];
      assert rows == init + [rows[|rows| - 1]];
      GroupKeysMembership(init, p, k);
    }
  }

  /** Every group starts at a multiple of the period width. */
  lemma GroupKeysAligned(rows: seq<Row<real>>, p: int, k: Key)
    requires p > 0 && k in GroupKeys(rows, p)
    ensures k.0 % p == 0
  {
    GroupKeysMembership(rows, p, k);
    var r :| r in rows && Bucket(r, p) == k;
  }

  /** The list the `defaultdict` holds for group `k`: the values of the rows
      in that group, in row order. */
  function GroupValues(rows: seq<Row<real>>, k: Key, p: int): (values: seq<real>)
    requires p > 0
    ensures values == [] <==> k !in GroupKeys(rows, p)
    ensures |values| <= |rows|
  {
    if rows == [] then []
    else
      var init := rows[..|rows| - 1];
      var last := rows[|rows| - 1];
      GroupValues(init, k, p) + (if Bucket(last, p) == k then [last.value] else [])
  }

  /** What one row adds to group `k`: its value, or nothing. */
  function Own(x: Row<real>, k: Key, p: int): seq<real>
    requires p > 0
  {
    if Bucket(x, p) == k then [x.value] else []
  }

  /** Grouping one more row adds its group and appends its value there. */
  lemma GroupStep(rows: seq<Row<real>>, x: Row<real>, p: int)
    requires p > 0
    ensures GroupKeys(rows + [x], p) == GroupKeys(rows, p) + {Bucket(x, p)}
    ensures forall k :: GroupValues(rows + [x], k, p) == GroupValues(rows, k, p) + Own(x, k, p)
  {
    assert (rows + [x])[..|rows|] == rows;
  }

  lemma {:induction false} GroupValuesAppend(a: seq<Row<real>>, b: seq<Row<real>>, k: Key, p: int)
    requires p > 0
    ensures GroupValues(a + b, k, p) == GroupValues(a, k, p) + GroupValues(b, k, p)
    decreases |b|
  {
    if b == [] {
      assert a + b == a;
    } else {
      var init, x := b[..|b| - 1], b[|b| - 1];
      assert b == init + [x];
      assert a + b == (a + init) + [x];
      GroupStep(a + init, x, p);
      GroupStep(init, x, p);
      GroupValuesAppend(a, init, k, p);
    }
  }

  /** Taking row `j` out of `b` takes its own value out of group `k`. */
  lemma GroupValuesRemove(b: seq<Row<real>>, j: int, k: Key, p: int)
    requires p > 0 && 0 <= j < |b|
    ensures multiset(GroupValues(b, k, p))
      == multiset(GroupValues(b[..j] + b[j + 1..], k, p)) + multiset(Own(b[j], k, p))
  {
    var x := b[j];
    assert b == b[..j] + ([x] + b[j + 1..]);
    GroupValuesAppend(b[..j], [x] + b[j + 1..], k, p);
    GroupValuesAppend([x], b[j + 1..], k, p);
    GroupValuesAppend(b[..j], b[j + 1..], k, p);
    GroupStep([], x, p);
    assert [] + [x] == [x];
  }

  /** Grouping does not depend on the order of the rows: each group holds
      the same values whatever order the query returned them in. */
  lemma {:induction false} GroupValuesPermutation(a: seq<Row<real>>, b: seq<Row<real>>, k: Key, p: int)
    requires p > 0 && multiset(a) == multiset(b)
    ensures multiset(GroupValues(a, k, p)) == multiset(GroupValues(b, k, p))
    decreases |a|
  {
    if a == [] {
      assert |b| == |multiset(b)| == 0;
    } else {
      var init, x := a[..|a| - 1], a[|a| - 1];
      assert a == init + [x];
      assert x in multiset(b);
      var j :| 0 <= j < |b| && b[j] == x;
      MultisetRemove(b, j);
      assert multiset(init) == multiset(a) - multiset{x};
      GroupValuesPermutation(init, b[..j] + b[j + 1..], k, p);
      GroupStep(init, x, p);
      GroupValuesRemove(b, j, k, p);
    }
  }

  /** `groups` is the `defaultdict` of lists after grouping `rows`. */
  ghost predicate GroupsOf(groups: map<Key, seq<real>>, rows: seq<Row<real>>, p: int)
    requires p > 0
  {
    && groups.Keys == GroupKeys(rows, p)
    && forall k :: k in groups ==> groups[k] == GroupValues(rows, k, p)
  }

  lemma GroupsOfStep(groups: map<Key, seq<real>>, rows: seq<Row<real>>, i: int, p: int)
    requires p > 0 && 0 <= i < |rows| && GroupsOf(groups, rows[..i], p)
    ensures var k := Bucket(rows[i], p);
      GroupsOf(groups[k := (if k in groups then groups[k] else []) + [rows[i].value]], rows[..i + 1], p)
  {
    assert rows[..i + 1] == rows[..i] + [rows[i]];
    GroupStep(rows[..i], rows[i], p);
  }

  /** The grouping loop: appends each row's value to the list of its group. */
  method GroupBy(rows: seq<Row<real>>, p: int) returns (groups: map<Key, seq<real>>)
    requires p > 0
    ensures groups.Keys == GroupKeys(rows, p)
    ensures forall k :: k in groups ==> groups[k] == GroupValues(rows, k, p)
  {
    groups := map[];
    for i := 0 to |rows|
      invariant GroupsOf(groups, rows[..i], p)
    {
      var k := Bucket(rows[i], p);
      var values := if k in groups then groups[k] else [];
      GroupsOfStep(groups, rows, i, p);
      groups := groups[k := values + [rows[i].value]];
    }
    assert rows[..|rows|] == rows;
  }

  /** One day of one sensor: `min`, `max` and `statistics.median`. */
  datatype DailyStats = DailyStats(minimum: real, maximum: real, median: real)

  /** `min`, `max` and `statistics.median` of one group, read off the
      sorted list. */
  function DailyOf(values: seq<real>): DailyStats
    requires values != []
  {
    DailyOfSorted(Sort(values))
  }

  function DailyOfSorted(sorted: seq<real>): DailyStats
    requires sorted != []
  {
    DailyStats(sorted[0], sorted[|sorted| - 1], Middle(sorted))
  }

  /** The entry holds the minimum, the maximum and the median of the values;
      the extremes are readings that bound all the others, and the median
      lies between them. */
  lemma DailyOfBounds(values: seq<real>)
    requires values != []
    ensures DailyOf(values) == DailyStats(Min(values), Max(values), Median(values))
    ensures Min(values) in values && Max(values) in values
    ensures forall i :: 0 <= i < |values| ==> Min(values) <= values[i] <= Max(values)
    ensures Min(values) <= Median(values) <= Max(values)
  {
    var t := Sort(values);
    PermutationMinMax(values, t);
    SortedEnds(t);
    MedianBounds(values);
  }

  /** The daily statistics do not depend on the order of the values. */
  lemma DailyOfPermutation(a: seq<real>, b: seq<real>)
    requires a != [] && multiset(a) == multiset(b)
    ensures b != [] && DailyOf(a) == DailyOf(b)
  {
    assert |a| == |multiset(a)| == |multiset(b)| == |b|;
    SortPermutation(a, b);
  }

  /** `aggregate_to_daily`'s result: one entry per (day start, sensor). */
  function Daily(rows: seq<Row<real>>): (daily: map<Key, DailyStats>)
    ensures daily.Keys == GroupKeys(rows, Day)
  {
    map k | k in GroupKeys(rows, Day) :: DailyOf(GroupValues(rows, k, Day))
  }

  /** Each daily entry is keyed by the start of a day with a reading, and its
      median lies between its minimum and maximum, which are readings of
      that day and sensor. */
  lemma DailyBounds(rows: seq<Row<real>>, k: Key)
    requires k in Daily(rows)
    ensures k.0 % Day == 0
    ensures var values := GroupValues(rows, k, Day);
      && values != []
      && Daily(rows)[k] == DailyStats(Min(values), Max(values), Median(values))
      && Daily(rows)[k].minimum <= Daily(rows)[k].median <= Daily(rows)[k].maximum
  {
    GroupKeysAligned(rows, Day, k);
    DailyOfBounds(GroupValues(rows, k, Day));
  }

  /** The daily aggregation does not depend on the order of the hourly rows,
      so neither the `ORDER BY` of the queries nor dictionary order matters. */
  lemma DailyPermutation(a: seq<Row<real>>, b: seq<Row<real>>)
    requires multiset(a) == multiset(b)
    ensures Daily(a) == Daily(b)
  {
    GroupKeysPermutation(a, b);
    forall k | k in Daily(a)
      ensures Daily(a)[k] == Daily(b)[k]
    {
      DailyAtPermutation(a, b, k);
    }
    MapsEqual(Daily(a), Daily(b));
  }

  /** Rows that are a permutation of each other have the same groups. */
  lemma GroupKeysPermutation(a: seq<Row<real>>, b: seq<Row<real>>)
    requires multiset(a) == multiset(b)
    ensures GroupKeys(a, Day) == GroupKeys(b, Day)
  {
    forall r
      ensures r in a <==> r in b
    {
      assert r in a <==> r in multiset(a);
    }
    forall k
      ensures k in GroupKeys(a, Day) <==> k in GroupKeys(b, Day)
    {
      GroupKeysMembership(a, Day, k);
      GroupKeysMembership(b, Day, k);
    }
  }

  /** One group's statistics, under a permutation of the rows. */
  lemma DailyAtPermutation(a: seq<Row<real>>, b: seq<Row<real>>, k: Key)
    requires multiset(a) == multiset(b)
    requires GroupKeys(a, Day) == GroupKeys(b, Day)
    requires k in Daily(a)
    ensures k in Daily(b) && Daily(a)[k] == Daily(b)[k]
  {
    GroupValuesPermutation(a, b, k, Day);
    DailyOfPermutation(GroupValues(a, k, Day), GroupValues(b, k, Day));
  }

  /** With no hourly rows there is nothing to aggregate. */
  lemma DailyEmpty()
    ensures Daily([]) == map[]
  {
  }

  lemma MapsEqual<K, V>(a: map<K, V>, b: map<K, V>)
    requires a.Keys == b.Keys && forall k :: k in a ==> a[k] == b[k]
    ensures a == b
  {
  }

  /** The statistics of every non-empty group of a grouping dictionary. */
  function DailyFromGroups(groups: map<Key, seq<real>>): map<Key, DailyStats> {
    map k | k in groups && groups[k] != [] :: DailyOf(groups[k])
  }

  /** Grouping the rows by day and taking each group's statistics is the
      daily aggregation of the rows. */
  lemma DailyFromGroupsOfRows(groups: map<Key, seq<real>>, rows: seq<Row<real>>)
    requires GroupsOf(groups, rows, Day)
    ensures DailyFromGroups(groups) == Daily(rows)
  {
    var a, b := DailyFromGroups(groups), Daily(rows);
    assert a.Keys == b.Keys by {
    }
    assert forall k :: k in a ==> a[k] == b[k] by {
    }
    MapsEqual(a, b);
  }

  /** The loop of `aggregate_to_daily` that fills the result dictionary.
      The groups of a grouping dictionary are never empty; an empty one would
      have no statistics and is skipped. */
  method FillDaily(groups: map<Key, seq<real>>) returns (daily: map<Key, DailyStats>)
    ensures daily == DailyFromGroups(groups)
  {
    daily := map[];
    var rest := groups.Keys;
    assert groups - rest == map[];
    while rest != {}
      invariant rest <= groups.Keys
      invariant daily == DailyFromGroups(groups - rest)
      decreases rest
    {
      var k :| k in rest;
      FillStep(groups, rest, k);
      if groups[k] != [] {
        daily := daily[k := DailyOf(groups[k])];
      }
      rest := rest - {k};
    }
    assert groups - rest == groups;
  }

  /** Filling in one more group adds its statistics, when it has values. */
  lemma FillStep(groups: map<Key, seq<real>>, rest: set<Key>, k: Key)
    requires k in rest && rest <= groups.Keys
    ensures DailyFromGroups(groups - (rest - {k})) ==
      if groups[k] != [] then DailyFromGroups(groups - rest)[k := DailyOf(groups[k])] else DailyFromGroups(groups - rest)
  {
    var before := DailyFromGroups(groups - rest);
    var a := DailyFromGroups(groups - (rest - {k}));
    var b := if groups[k] != [] then before[k := DailyOf(groups[k])] else before;
    forall j
      ensures j in a <==> j in b
      ensures j in a ==> a[j] == b[j]
    {
      if j != k {
        assert j in groups - (rest - {k}) <==> j in groups - rest;
      }
    }
    MapsEqual(a, b);
  }

  /** `aggregate_to_daily`: groups the rows by day and sensor, then fills the
      result dictionary one group at a time. */
  method AggregateToDaily(rows: seq<Row<real>>) returns (daily: map<Key, DailyStats>)
    ensures daily == Daily(rows)
  {
    var groups := GroupBy(rows, Day);
    assert GroupsOf(groups, rows, Day);
    daily := FillDaily(groups);
    DailyFromGroupsOfRows(groups, rows);
  }

  /** Python's tuple order on (sensor, hour) keys: the order in which
      `extract_individual_value` visits sensors and then their hours. */
  predicate SensorHourLess(a: Key, b: Key) {
    StrLess(a.1, b.1) || (a.1 == b.1 && a.0 < b.0)
  }

  /** Python's tuple order on (hour, sensor) keys, as `sorted(items())` uses. */
  predicate HourSensorLess(a: Key, b: Key) {
    a.0 < b.0 || (a.0 == b.0 && StrLess(a.1, b.1))
  }

  /** A key of `all_daily_data`: day start, sensor and measurement type. */
  type OutKey = (int, string, string)

  /** Python's tuple order on output keys: by day, then sensor, then type. */
  predicate OutputLess(a: OutKey, b: OutKey) {
    a.0 < b.0 || (a.0 == b.0 && (StrLess(a.1, b.1) || (a.1 == b.1 && StrLess(a.2, b.2))))
  }

  lemma SensorHourStrictTotal()
    ensures StrictTotal(SensorHourLess)
  {
    forall a: Key
      ensures !SensorHourLess(a, a)
    {
      StrLessIrreflexive(a.1);
    }
    forall a: Key, b: Key, c: Key | SensorHourLess(a, b) && SensorHourLess(b, c)
      ensures SensorHourLess(a, c)
    {
      if StrLess(a.1, b.1) && StrLess(b.1, c.1) {
        StrLessTransitive(a.1, b.1, c.1);
      }
    }
    forall a: Key, b: Key | a != b
      ensures SensorHourLess(a, b) || SensorHourLess(b, a)
    {
      if a.1 != b.1 {
        StrLessTotal(a.1, b.1);
      }
    }
  }

  lemma HourSensorStrictTotal()
    ensures StrictTotal(HourSensorLess)
  {
    forall a: Key
      ensures !HourSensorLess(a, a)
    {
      StrLessIrreflexive(a.1);
    }
    forall a: Key, b: Key, c: Key | HourSensorLess(a, b) && HourSensorLess(b, c)
      ensures HourSensorLess(a, c)
    {
      if StrLess(a.1, b.1) && StrLess(b.1, c.1) {
        StrLessTransitive(a.1, b.1, c.1);
      }
    }
    forall a: Key, b: Key | a != b
      ensures HourSensorLess(a, b) || HourSensorLess(b, a)
    {
      if a.1 != b.1 {
        StrLessTotal(a.1, b.1);
      }
    }
  }

  lemma OutputStrictTotal()
    ensures StrictTotal(OutputLess)
  {
    forall a: OutKey
      ensures !OutputLess(a, a)
    {
      StrLessIrreflexive(a.1);
      StrLessIrreflexive(a.2);
    }
    forall a: OutKey, b: OutKey, c: OutKey | OutputLess(a, b) && OutputLess(b, c)
      ensures OutputLess(a, c)
    {
      if StrLess(a.1, b.1) && StrLess(b.1, c.1) {
        StrLessTransitive(a.1, b.1, c.1);
      }
      if StrLess(a.2, b.2) && StrLess(b.2, c.2) {
        StrLessTransitive(a.2, b.2, c.2);
      }
    }
    forall a: OutKey, b: OutKey | a != b
      ensures OutputLess(a, b) || OutputLess(b, a)
    {
      if a.1 != b.1 {
        StrLessTotal(a.1, b.1);
      } else if a.2 != b.2 {
        StrLessTotal(a.2, b.2);
      }
    }
  }

  /** The rows a query of `column` from table `name` selects. A missing
      table gives no rows (the extractors check for it); a missing column
      makes the query raise, which `extract_hourly_data` turns into no rows. */
  function Selected(db: Database, name: TableName, column: Column): (rows: seq<Row<real>>)
    ensures forall r :: r in rows ==>
      name in db && column in db[name].columns && Record(r.at, r.sensor, Some(r.value)) in db[name].records
    ensures name in db && column in db[name].columns ==>
      forall rec :: rec in db[name].records && rec.value.Some? ==> Row(rec.at, rec.sensor, rec.value.value) in rows
  {
    if name in db && column in db[name].columns then Present(db[name].records) else []
  }

  /** The `defaultdict` of lists after grouping `raw` into periods `p`. */
  function Groups(raw: seq<Row<real>>, p: int): map<Key, seq<real>>
    requires p > 0
  {
    map k | k in GroupKeys(raw, p) :: GroupValues(raw, k, p)
  }

  /** The median of every group. */
  function MediansOf(groups: map<Key, seq<real>>): map<Key, real> {
    map k | k in groups && groups[k] != [] :: Median(groups[k])
  }

  /** One hourly row per key, in the order of `keys`, holding the key's value. */
  function RowsOf(keys: seq<Key>, values: map<Key, real>): (rows: seq<Row<real>>)
    requires forall k :: k in keys ==> k in values
    ensures |rows| == |keys|
  {
    if keys == [] then []
    else
      var k := keys[|keys| - 1];
      RowsOf(keys[..|keys| - 1], values) + [Row(k.0, k.1, values[k])]
  }

  /** Listing one more key appends its row. */
  lemma RowsOfSnoc(keys: seq<Key>, values: map<Key, real>, i: int)
    requires forall k :: k in keys ==> k in values
    requires 0 <= i < |keys|
    ensures keys[i] in values
    ensures RowsOf(keys[..i + 1], values) == RowsOf(keys[..i], values) + [Row(keys[i].0, keys[i].1, values[keys[i]])]
  {
    assert keys[i] in keys;
    assert keys[..i + 1][..i] == keys[..i];
  }

  /** The median of a non-empty group is its entry in `MediansOf`. */
  lemma MediansOfAt(groups: map<Key, seq<real>>, k: Key)
    requires k in groups && groups[k] != []
    ensures k in MediansOf(groups) && MediansOf(groups)[k] == Median(groups[k])
  {
  }

  /** Row `i` of the listing is key `i` with its value. */
  lemma {:induction false} RowsOfAt(keys: seq<Key>, values: map<Key, real>, i: int)
    requires forall k :: k in keys ==> k in values
    requires 0 <= i < |keys|
    ensures RowsOf(keys, values)[i] == Row(keys[i].0, keys[i].1, values[keys[i]])
  {
    var n := |keys| - 1;
    if i < n {
      RowsOfAt(keys[..n], values, i);
    }
  }

  /** Row `i` of the listing has key `i`. */
  lemma RowsOfKeys(keys: seq<Key>, values: map<Key, real>)
    requires forall k :: k in keys ==> k in values
    ensures forall i :: 0 <= i < |keys| ==> RowsOf(keys, values)[i].Key() == keys[i]
  {
    forall i | 0 <= i < |keys|
      ensures RowsOf(keys, values)[i].Key() == keys[i]
    {
      RowsOfAt(keys, values, i);
    }
  }

  /** The hourly rows of `extract_individual_value` and `extract_aggregated`
      over the selected rows `raw`, listed in the order `less`. */
  ghost function HourlyListing(raw: seq<Row<real>>, less: (Key, Key) -> bool): seq<Row<real>>
    requires StrictTotal(less)
  {
    RowsOf(Listing(GroupKeys(raw, Hour), less), MediansOf(Groups(raw, Hour)))
  }

  /** Every group of the selected rows has a median. */
  lemma GroupsHaveMedians(raw: seq<Row<real>>)
    ensures forall k :: k in GroupKeys(raw, Hour) ==> k in MediansOf(Groups(raw, Hour))
  {
  }

  /** Row `i` of the hourly rows is the `i`-th group in the order `less`. */
  lemma HourlyListingKeys(raw: seq<Row<real>>, less: (Key, Key) -> bool)
    requires StrictTotal(less)
    ensures var keys := Listing(GroupKeys(raw, Hour), less);
      var hourly := HourlyListing(raw, less);
      |hourly| == |keys| && forall i :: 0 <= i < |hourly| ==> hourly[i].Key() == keys[i]
  {
    var keys := Listing(GroupKeys(raw, Hour), less);
    GroupsHaveMedians(raw);
    RowsOfKeys(keys, MediansOf(Groups(raw, Hour)));
  }

  /** The hourly rows come in the order `less`, so no (hour, sensor) comes
      twice. */
  lemma HourlyListingOrdered(raw: seq<Row<real>>, less: (Key, Key) -> bool)
    requires StrictTotal(less)
    ensures var hourly := HourlyListing(raw, less);
      forall i, j :: 0 <= i < j < |hourly| ==> less(hourly[i].Key(), hourly[j].Key())
  {
    HourlyListingKeys(raw, less);
  }

  /** There is an hourly row for exactly the (hour, sensor) groups of the
      selected rows. */
  lemma HourlyListingCovers(raw: seq<Row<real>>, less: (Key, Key) -> bool, k: Key)
    requires StrictTotal(less)
    ensures var hourly := HourlyListing(raw, less);
      k in GroupKeys(raw, Hour) <==> exists i :: 0 <= i < |hourly| && hourly[i].Key() == k
  {
    var keys := Listing(GroupKeys(raw, Hour), less);
    var hourly := HourlyListing(raw, less);
    HourlyListingKeys(raw, less);
    if k in GroupKeys(raw, Hour) {
      var i :| 0 <= i < |keys| && keys[i] == k;
      assert hourly[i].Key() == k;
    }
  }

  /** Every hourly row starts on a whole hour and holds the median of that
      hour's values. */
  lemma HourlyListingMedians(raw: seq<Row<real>>, less: (Key, Key) -> bool)
    requires StrictTotal(less)
    ensures var hourly := HourlyListing(raw, less);
      forall i :: 0 <= i < |hourly| ==> HourlyMedian(hourly[i], raw)
  {
    var keys := Listing(GroupKeys(raw, Hour), less);
    var medians := MediansOf(Groups(raw, Hour));
    forall i | 0 <= i < |keys|
      ensures HourlyMedian(RowsOf(keys, medians)[i], raw)
    {
      assert keys[i] in keys;
      RowsOfAt(keys, medians, i);
      HourlyMedianOf(raw, keys[i]);
    }
  }

  /** `row` is a whole hour with the median of that hour's values, which
      lies between their smallest and largest. */
  ghost predicate HourlyMedian(row: Row<real>, raw: seq<Row<real>>) {
    var values := GroupValues(raw, row.Key(), Hour);
    && row.at % Hour == 0 && values != []
    && row.value == Median(values)
    && Min(values) <= row.value <= Max(values)
  }

  lemma HourlyMedianOf(raw: seq<Row<real>>, k: Key)
    requires k in GroupKeys(raw, Hour)
    ensures k in MediansOf(Groups(raw, Hour))
    ensures HourlyMedian(Row(k.0, k.1, MediansOf(Groups(raw, Hour))[k]), raw)
  {
    GroupKeysAligned(raw, Hour, k);
    MedianBounds(GroupValues(raw, k, Hour));
  }

  /** `extract_individual_value`'s rows: the raw `value` readings grouped by
      hour and sensor, listed sensor by sensor and hour by hour. */
  ghost function IndividualValueRows(db: Database, m: string): seq<Row<real>> {
    var raw := Selected(db, MeasurementTable(m), ValueColumn);
    SensorHourStrictTotal();
    HourlyListing(raw, SensorHourLess)
  }

  /** `extract_aggregated`'s rows: the stored `median` values grouped by hour
      and sensor, listed hour by hour. */
  ghost function AggregatedRows(db: Database, m: string): seq<Row<real>> {
    var raw := Selected(db, MeasurementTable(m), MedianColumn);
    HourSensorStrictTotal();
    HourlyListing(raw, HourSensorLess)
  }

  /** `extract_legacy_summary`: the stored hourly medians. */
  function LegacySummaryRows(db: Database, m: string): (rows: seq<Row<real>>)
    ensures SummaryTable(m) !in db ==> rows == []
  {
    Selected(db, SummaryTable(m), MedianValueColumn)
  }

  /** `extract_summary_collector`: the medians of the hourly table, or of the
      daily table when there is no hourly one. */
  function SummaryCollectorRows(db: Database, m: string): (rows: seq<Row<real>>)
    ensures HourlyTable(m) in db ==> rows == Selected(db, HourlyTable(m), MedianColumn)
    ensures HourlyTable(m) !in db && DailyTable(m) in db ==> rows == Selected(db, DailyTable(m), MedianColumn)
    ensures HourlyTable(m) !in db && DailyTable(m) !in db ==> rows == []
  {
    if HourlyTable(m) in db then Selected(db, HourlyTable(m), MedianColumn)
    else if DailyTable(m) in db then Selected(db, DailyTable(m), MedianColumn)
    else []
  }

  /** The single value of a group is taken as it is, a larger group's median
      is computed. */
  function AggregatedValue(values: seq<real>): real
    requires values != []
  {
    if |values| == 1 then values[0] else Median(values)
  }

  /** Taking a lone value as it is gives its median: the shortcut of
      `extract_aggregated` does not change its result. */
  lemma AggregatedValueIsMedian(values: seq<real>)
    requires values != []
    ensures AggregatedValue(values) == Median(values)
  {
    if |values| == 1 {
      assert values == [values[0]];
      MedianSingleton(values[0]);
    }
  }

  /** The loop of `extract_individual_value` that lists one row per key. */
  method ListMedians(keys: seq<Key>, groups: map<Key, seq<real>>) returns (rows: seq<Row<real>>)
    requires forall k :: k in keys ==> k in groups && groups[k] != []
    ensures rows == RowsOf(keys, MediansOf(groups))
  {
    rows := [];
    for i := 0 to |keys|
      invariant rows == RowsOf(keys[..i], MediansOf(groups))
    {
      var k := keys[i];
      assert k in keys;
      RowsOfSnoc(keys, MediansOf(groups), i);
      MediansOfAt(groups, k);
      rows := rows + [Row(k.0, k.1, Median(groups[k]))];
    }
    assert keys[..|keys|] == keys;
  }

  /** The loop of `extract_aggregated`, which takes a lone value as it is. */
  method ListAggregated(keys: seq<Key>, groups: map<Key, seq<real>>) returns (rows: seq<Row<real>>)
    requires forall k :: k in keys ==> k in groups && groups[k] != []
    ensures rows == RowsOf(keys, MediansOf(groups))
  {
    rows := [];
    for i := 0 to |keys|
      invariant rows == RowsOf(keys[..i], MediansOf(groups))
    {
      var k := keys[i];
      assert k in keys;
      RowsOfSnoc(keys, MediansOf(groups), i);
      MediansOfAt(groups, k);
      AggregatedValueIsMedian(groups[k]);
      rows := rows + [Row(k.0, k.1, AggregatedValue(groups[k]))];
    }
    assert keys[..|keys|] == keys;
  }

  method ExtractIndividualValue(db: Database, m: string) returns (rows: seq<Row<real>>)
    ensures rows == IndividualValueRows(db, m)
  {
    var raw := Selected(db, MeasurementTable(m), ValueColumn);
    var groups := GroupBy(raw, Hour);
    MapsEqual(groups, Groups(raw, Hour));
    SensorHourStrictTotal();
    var keys := SortKeys(groups.Keys, SensorHourLess);
    rows := ListMedians(keys, groups);
  }

  method ExtractAggregated(db: Database, m: string) returns (rows: seq<Row<real>>)
    ensures rows == AggregatedRows(db, m)
  {
    var raw := Selected(db, MeasurementTable(m), MedianColumn);
    var groups := GroupBy(raw, Hour);
    MapsEqual(groups, Groups(raw, Hour));
    HourSensorStrictTotal();
    var keys := SortKeys(groups.Keys, HourSensorLess);
    rows := ListAggregated(keys, groups);
  }

  /** The rows `extract_hourly_data` returns for the layout it detects; an
      unknown layout gives none. */
  ghost function HourlyRows(db: Database, m: string): seq<Row<real>> {
    match DetectSchemaType(db)
    case SummaryCollector => SummaryCollectorRows(db, m)
    case LegacySummary => LegacySummaryRows(db, m)
    case IndividualValue => IndividualValueRows(db, m)
    case Aggregated => AggregatedRows(db, m)
    case Unknown => []
  }

  method ExtractHourlyData(db: Database, m: string) returns (schema: Schema, rows: seq<Row<real>>)
    ensures schema == DetectSchemaType(db)
    ensures rows == HourlyRows(db, m)
  {
    schema := DetectSchemaType(db);
    match schema
    case SummaryCollector =>
      rows := SummaryCollectorRows(db, m);
    case LegacySummary =>
      rows := LegacySummaryRows(db, m);
    case IndividualValue =>
      rows := ExtractIndividualValue(db, m);
    case Aggregated =>
      rows := ExtractAggregated(db, m);
    case Unknown =>
      rows := [];
  }

  /** The daily statistics of one measurement type keyed as in
      `all_daily_data`. */
  function Tagged(daily: map<Key, DailyStats>, m: string): (r: map<OutKey, DailyStats>)
    ensures forall o :: o in r <==> o.2 == m && (o.0, o.1) in daily
    ensures forall o :: o in r ==> r[o] == daily[(o.0, o.1)]
  {
    map k | k in daily :: (k.0, k.1, m) := daily[k]
  }

  /** What one database file contributes for measurement type `m`: the
      daily statistics of the hourly rows `extract_hourly_data` reads out
      of it; a missing file contributes nothing. */
  ghost function Contribution(db: Option<Database>, m: string): map<OutKey, DailyStats> {
    if db.None? then map[] else Tagged(Daily(HourlyRows(db.value, m)), m)
  }

  /** A file's contribution holds only entries of its measurement type,
      each the daily statistics of its day and sensor in that file. */
  lemma ContributionEntries(db: Option<Database>, m: string, o: OutKey)
    ensures o in Contribution(db, m) <==> o.2 == m && db.Some? && (o.0, o.1) in Daily(HourlyRows(db.value, m))
    ensures o in Contribution(db, m) ==> Contribution(db, m)[o] == Daily(HourlyRows(db.value, m))[(o.0, o.1)]
  {
  }

  /** The merge below is stated for any way `contribution` of reading a
      file's entries of one type; `Contribution` is the one `main` uses. */
  type Contributions = (Option<Database>, string) -> map<OutKey, DailyStats>

  /** Every entry a file contributes for type `m` is of type `m`. */
  ghost predicate Typed(contribution: Contributions) {
    forall db, m, o :: o in contribution(db, m) ==> o.2 == m
  }

  lemma ContributionTyped()
    ensures Typed(Contribution)
  {
    forall db, m, o | o in Contribution(db, m)
      ensures o.2 == m
    {
      ContributionEntries(db, m, o);
    }
  }

  /** `all_daily_data` after merging the files `dbs` in order for type `m`
      into `all`: a later file's entry replaces an earlier one. */
  ghost function MergedOver(all: map<OutKey, DailyStats>, dbs: seq<Option<Database>>, m: string,
                            contribution: Contributions): map<OutKey, DailyStats>
    decreases |dbs|
  {
    if dbs == [] then all
    else MergedOver(all, dbs[..|dbs| - 1], m, contribution) + contribution(dbs[|dbs| - 1], m)
  }

  /** `all_daily_data` after the outer loop has handled `types`. */
  ghost function MergedTypes(dbs: seq<Option<Database>>, types: seq<string>, contribution: Contributions)
    : map<OutKey, DailyStats>
    decreases |types|
  {
    if types == [] then map[]
    else MergedOver(MergedTypes(dbs, types[..|types| - 1], contribution), dbs, types[|types| - 1], contribution)
  }

  /** The merge loop: every daily entry overwrites the entry of its key. */
  method MergeInto(all: map<OutKey, DailyStats>, daily: map<Key, DailyStats>, m: string)
    returns (merged: map<OutKey, DailyStats>)
    ensures merged == all + Tagged(daily, m)
  {
    merged := all;
    var rest := daily.Keys;
    assert daily - rest == map[];
    MapsEqual(all, all + Tagged(map[], m));
    while rest != {}
      invariant rest <= daily.Keys
      invariant merged == all + Tagged(daily - rest, m)
      decreases rest
    {
      var k :| k in rest;
      MergeStep(all, daily, m, rest, k);
      merged := merged[(k.0, k.1, m) := daily[k]];
      rest := rest - {k};
    }
    assert daily - rest == daily;
  }

  /** Merging one more daily entry overwrites the entry of its key. */
  lemma MergeStep(all: map<OutKey, DailyStats>, daily: map<Key, DailyStats>, m: string, rest: set<Key>, k: Key)
    requires k in rest && rest <= daily.Keys
    ensures (all + Tagged(daily - rest, m))[(k.0, k.1, m) := daily[k]] == all + Tagged(daily - (rest - {k}), m)
  {
    var a := (all + Tagged(daily - rest, m))[(k.0, k.1, m) := daily[k]];
    var b := all + Tagged(daily - (rest - {k}), m);
    forall o
      ensures o in a <==> o in b
      ensures o in a ==> a[o] == b[o]
    {
      if (o.0, o.1) != k {
        assert (o.0, o.1) in daily - (rest - {k}) <==> (o.0, o.1) in daily - rest;
      }
    }
    MapsEqual(a, b);
  }

  /** `main`: for each measurement type, the files in argument order; a
      missing file (`None`) and a file without rows are skipped, and the
      daily statistics of the others are merged, later files winning. */
  method ExtractAll(dbs: seq<Option<Database>>) returns (all: map<OutKey, DailyStats>)
    ensures all == MergedTypes(dbs, MeasurementTypes, Contribution)
  {
    all := map[];
    for t := 0 to |MeasurementTypes|
      invariant all == MergedTypes(dbs, MeasurementTypes[..t], Contribution)
    {
      var m := MeasurementTypes[t];
      ghost var start := all;
      for j := 0 to |dbs|
        invariant all == MergedOver(start, dbs[..j], m, Contribution)
      {
        var merged := MergeFile(all, dbs[j], m);
        MergedOverStep(start, dbs, j, m, Contribution, all, Contribution(dbs[j], m));
        all := merged;
      }
      MergedTypesStep(dbs, t, Contribution, start, all);
    }
    assert MeasurementTypes[..|MeasurementTypes|] == MeasurementTypes;
  }

  /** The body of `main`'s loop over the files for one type: a missing
      file and a file without rows are skipped, the daily statistics of any
      other overwrite the entries merged so far. */
  method MergeFile(all: map<OutKey, DailyStats>, db: Option<Database>, m: string) returns (merged: map<OutKey, DailyStats>)
    ensures merged == all + Contribution(db, m)
  {
    if db.None? {
      assert all + map[] == all;
      return all;
    }
    var schema, rows := ExtractHourlyData(db.value, m);
    if rows == [] {
      ContributionOf(db.value, m, rows, map[]);
      assert all + map[] == all;
      return all;
    }
    var daily := AggregateToDaily(rows);
    ContributionOf(db.value, m, rows, daily);
    merged := MergeInto(all, daily, m);
  }

  /** A file with hourly rows contributes their daily statistics, one
      without contributes nothing. */
  lemma ContributionOf(db: Database, m: string, rows: seq<Row<real>>, daily: map<Key, DailyStats>)
    requires rows == HourlyRows(db, m)
    requires if rows == [] then daily == map[] else daily == Daily(rows)
    ensures Contribution(Some(db), m) == Tagged(daily, m)
  {
    if rows == [] {
      DailyEmpty();
    }
  }

  /** One more file merged: its contribution overwrites. */
  lemma MergedOverStep(start: map<OutKey, DailyStats>, dbs: seq<Option<Database>>, j: int, m: string,
                       contribution: Contributions, all: map<OutKey, DailyStats>, c: map<OutKey, DailyStats>)
    requires 0 <= j < |dbs|
    requires all == MergedOver(start, dbs[..j], m, contribution)
    requires c == contribution(dbs[j], m)
    ensures all + c == MergedOver(start, dbs[..j + 1], m, contribution)
  {
    assert dbs[..j + 1][..j] == dbs[..j];
  }

  /** One more measurement type merged over all files. */
  lemma MergedTypesStep(dbs: seq<Option<Database>>, t: int, contribution: Contributions,
                        start: map<OutKey, DailyStats>, all: map<OutKey, DailyStats>)
    requires 0 <= t < |MeasurementTypes|
    requires start == MergedTypes(dbs, MeasurementTypes[..t], contribution)
    requires all == MergedOver(start, dbs[..|dbs|], MeasurementTypes[t], contribution)
    ensures all == MergedTypes(dbs, MeasurementTypes[..t + 1], contribution)
  {
    assert MeasurementTypes[..t + 1][..t] == MeasurementTypes[..t];
    assert dbs[..|dbs|] == dbs;
  }

  /** Later files take precedence: an entry comes from the last file that
      has it. */
  lemma {:induction false} MergedOverLastWins(all: map<OutKey, DailyStats>, dbs: seq<Option<Database>>, m: string,
                                              contribution: Contributions, o: OutKey, j: int)
    requires 0 <= j < |dbs| && o in contribution(dbs[j], m)
    requires forall l :: j < l < |dbs| ==> o !in contribution(dbs[l], m)
    ensures o in MergedOver(all, dbs, m, contribution)
    ensures MergedOver(all, dbs, m, contribution)[o] == contribution(dbs[j], m)[o]
    decreases |dbs|
  {
    var n := |dbs| - 1;
    if j < n {
      assert dbs[..n][j] == dbs[j];
      MergedOverLastWins(all, dbs[..n], m, contribution, o, j);
    }
  }

  /** An entry no file has is left as it was. */
  lemma {:induction false} MergedOverUntouched(all: map<OutKey, DailyStats>, dbs: seq<Option<Database>>, m: string,
                                               contribution: Contributions, o: OutKey)
    requires forall l :: 0 <= l < |dbs| ==> o !in contribution(dbs[l], m)
    ensures o in MergedOver(all, dbs, m, contribution) <==> o in all
    ensures o in all ==> MergedOver(all, dbs, m, contribution)[o] == all[o]
    decreases |dbs|
  {
    if dbs != [] {
      var n := |dbs| - 1;
      assert forall l :: 0 <= l < n ==> dbs[..n][l] == dbs[l];
      MergedOverUntouched(all, dbs[..n], m, contribution, o);
    }
  }

  /** Over the measurement types in order: an entry of type `o.2` holds what
      the last file that has that day, sensor and type contributes. */
  lemma {:induction false} MergedTypesLastWins(dbs: seq<Option<Database>>, types: seq<string>,
                                               contribution: Contributions, o: OutKey, j: int)
    requires Typed(contribution)
    requires forall a, b :: 0 <= a < b < |types| ==> types[a] != types[b]
    requires o.2 in types
    requires 0 <= j < |dbs| && o in contribution(dbs[j], o.2)
    requires forall l :: j < l < |dbs| ==> o !in contribution(dbs[l], o.2)
    ensures o in MergedTypes(dbs, types, contribution)
    ensures MergedTypes(dbs, types, contribution)[o] == contribution(dbs[j], o.2)[o]
    decreases |types|
  {
    var n := |types| - 1;
    var m := types[n];
    var before := types[..n];
    if o.2 == m {
      MergedOverLastWins(MergedTypes(dbs, before, contribution), dbs, m, contribution, o, j);
    } else {
      assert o.2 in before;
      MergedTypesLastWins(dbs, before, contribution, o, j);
      MergedOverUntouched(MergedTypes(dbs, before, contribution), dbs, m, contribution, o);
    }
  }

  /** There is no entry for a day, sensor and type no file has. */
  lemma {:induction false} MergedTypesNone(dbs: seq<Option<Database>>, types: seq<string>,
                                           contribution: Contributions, o: OutKey)
    requires Typed(contribution)
    requires forall l :: 0 <= l < |dbs| ==> o !in contribution(dbs[l], o.2)
    ensures o !in MergedTypes(dbs, types, contribution)
    decreases |types|
  {
    if types != [] {
      var n := |types| - 1;
      MergedTypesNone(dbs, types[..n], contribution, o);
      MergedOverUntouched(MergedTypes(dbs, types[..n], contribution), dbs, types[n], contribution, o);
    }
  }

  /** There is no entry for a day, sensor and type that no file has. */
  lemma ExtractedNone(dbs: seq<Option<Database>>, o: OutKey)
    requires forall l :: 0 <= l < |dbs| ==> o !in Contribution(dbs[l], o.2)
    ensures o !in MergedTypes(dbs, MeasurementTypes, Contribution)
  {
    ContributionTyped();
    MergedTypesNone(dbs, MeasurementTypes, Contribution, o);
  }

  /** Later files take precedence in `main`: every output entry holds what
      the last file that has its day, sensor and type contributes. */
  lemma ExtractedLastWins(dbs: seq<Option<Database>>, o: OutKey, j: int)
    requires o.2 in MeasurementTypes
    requires 0 <= j < |dbs| && o in Contribution(dbs[j], o.2)
    requires forall l :: j < l < |dbs| ==> o !in Contribution(dbs[l], o.2)
    ensures o in MergedTypes(dbs, MeasurementTypes, Contribution)
    ensures MergedTypes(dbs, MeasurementTypes, Contribution)[o] == Contribution(dbs[j], o.2)[o]
  {
    ContributionTyped();
    MeasurementTypesDistinct();
    MergedTypesLastWins(dbs, MeasurementTypes, Contribution, o, j);
  }

  lemma MeasurementTypesDistinct()
    ensures forall a, b :: 0 <= a < b < |MeasurementTypes| ==> MeasurementTypes[a] != MeasurementTypes[b]
  {
    assert MeasurementTypes[0][0] != MeasurementTypes[1][0];
  }

  /** `sorted(all_daily_data.keys())`. */
  method SortedOutputKeys(all: map<OutKey, DailyStats>) returns (keys: seq<OutKey>)
    ensures |keys| == |all.Keys|
    ensures Increasing(keys, OutputLess)
    ensures forall o :: o in keys <==> o in all
  {
    OutputStrictTotal();
    keys := SortKeys(all.Keys, OutputLess);
  }

  /** The output: every entry of `all_daily_data` once, in increasing
      (day, sensor, type) order. */
  method EmitRows(all: map<OutKey, DailyStats>) returns (lines: seq<(OutKey, DailyStats)>)
    ensures |lines| == |all.Keys|
    ensures forall i, j :: 0 <= i < j < |lines| ==> OutputLess(lines[i].0, lines[j].0)
    ensures forall o :: o in all <==> exists i :: 0 <= i < |lines| && lines[i].0 == o
    ensures forall i :: 0 <= i < |lines| ==> lines[i].0 in all && lines[i].1 == all[lines[i].0]
  {
    var keys := SortedOutputKeys(all);
    lines := [];
    for i := 0 to |keys|
      invariant |lines| == i
      invariant forall l :: 0 <= l < i ==> lines[l] == (keys[l], all[keys[l]])
    {
      lines := lines + [(keys[i], all[keys[i]])];
    }
    forall o | o in all
      ensures exists i :: 0 <= i < |lines| && lines[i].0 == o
    {
      var i :| 0 <= i < |keys| && keys[i] == o;
      assert lines[i].0 == o;
    }
  }
}
