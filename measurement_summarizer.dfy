/** The period summarizer: for every sensor, reduces the readings of one
    quantity since the start of a period to min, max, median and mean, and
    upserts them into the summary table of that quantity and period width. */
module MeasurementSummarizer {
  import opened Tables
  import opened Epoch
  import opened Stats

  /** The five summarized columns of the `measurement` table. */
  datatype Quantity = Temperature | Humidity | Pressure | BatteryVoltage | TxPower

  const Quantities: seq<Quantity> := [Temperature, Humidity, Pressure, BatteryVoltage, TxPower]

  /** Each quantity comes once in `Quantities`. */
  lemma QuantitiesDistinct(i: int)
    requires 0 <= i < |Quantities|
    ensures Quantities[i] !in Quantities[..i]
  {
  }

  /** The columns of a `measurement` row besides its key. */
  datatype Sample = Sample(temperature: real, humidity: real, pressure: real, batteryVoltage: real, txPower: real)

  function ValueOf(s: Sample, q: Quantity): real {
    match q
    case Temperature => s.temperature
    case Humidity => s.humidity
    case Pressure => s.pressure
    case BatteryVoltage => s.batteryVoltage
    case TxPower => s.txPower
  }

  /** `containing - containing % period`: the aligned start of the period. */
  function PeriodStart(containing: int, period: int): (r: int)
    requires period > 0
    ensures r % period == 0
    ensures r <= containing < r + period
  {
    FloorTo(containing, period)
  }

  /** The rows of one sensor from `start` on (the query has no upper bound). */
  function SensorSince(m: map<Key, Sample>, sensor: string, start: int): (r: map<Key, Sample>)
    ensures forall k :: k in r <==> k in m && k.1 == sensor && start <= k.0
    ensures forall k :: k in r ==> r[k] == m[k]
  {
    map k | k in m && k.1 == sensor && start <= k.0 :: m[k]
  }

  predicate HasValues(m: map<Key, Sample>, sensor: string, start: int) {
    exists k :: k in m && k.1 == sensor && start <= k.0
  }

  /** One column of the query result. */
  function Column(rows: seq<Row<Sample>>, q: Quantity): (vs: seq<real>)
    ensures |vs| == |rows|
  {
    seq(|rows|, i requires 0 <= i < |rows| => ValueOf(rows[i].value, q))
  }

  /** The row written for a non-empty list of values: after sorting, the
      first, the last, the element at index `n / 2` and the mean. */
  function SummaryOf(values: seq<real>): (r: Summary)
    requires values != []
    ensures r.minValue in values && r.maxValue in values && r.medianValue in values
  {
    var sorted := Sort(values);
    assert sorted[0] in multiset(sorted) && sorted[|sorted| - 1] in multiset(sorted);
    assert sorted[|sorted| / 2] in multiset(sorted);
    SummaryOfSorted(sorted)
  }

  /** The row for an already sorted list. */
  function SummaryOfSorted(sorted: seq<real>): Summary
    requires sorted != []
  {
    var n := |sorted|;
    Summary(sorted[0], sorted[n - 1], sorted[n / 2], Sum(sorted) / (n as real))
  }

  /** The row depends only on the multiset of values. */
  lemma SummaryOfPermutation(a: seq<real>, b: seq<real>)
    requires a != [] && multiset(a) == multiset(b)
    ensures b != [] && SummaryOf(a) == SummaryOf(b)
  {
    assert |a| == |multiset(a)| == |multiset(b)| == |b|;
    SortPermutation(a, b);
  }

  /** The summary holds the minimum, the maximum, the upper median and the
      mean of the values, so min <= median <= max and min <= mean <= max. */
  lemma SummaryOfBounds(values: seq<real>)
    requires values != []
    ensures var s := SummaryOf(values);
      && s.minValue == Min(values) && s.maxValue == Max(values)
      && s.medianValue == UpperMedian(values) && s.meanValue == Mean(values)
      && s.minValue <= s.medianValue <= s.maxValue
      && s.minValue <= s.meanValue <= s.maxValue
  {
    var sorted := Sort(values);
    PermutationMinMax(values, sorted);
    SortedEnds(sorted);
    SumPermutation(sorted, values);
    UpperMedianBounds(values);
    MeanBounds(values);
  }

  /** Removing row `k` removes its value from the column. */
  lemma ColumnRemove(b: seq<Row<Sample>>, k: int, q: Quantity)
    requires 0 <= k < |b|
    ensures multiset(Column(b, q)) == multiset(Column(b[..k] + b[k + 1..], q)) + multiset{ValueOf(b[k].value, q)}
  {
    var front, back := b[..k], b[k + 1..];
    assert b == front + ([b[k]] + back);
    ColumnAppend(front, [b[k]] + back, q);
    ColumnAppend([b[k]], back, q);
    ColumnAppend(front, back, q);
    var cf, cx, cb := Column(front, q), Column([b[k]], q), Column(back, q);
    assert cx == [ValueOf(b[k].value, q)];
    assert Column(b, q) == cf + (cx + cb);
    assert multiset(cf + (cx + cb)) == multiset(cf + cb) + multiset(cx);
  }

  lemma ColumnAppend(a: seq<Row<Sample>>, b: seq<Row<Sample>>, q: Quantity)
    ensures Column(a + b, q) == Column(a, q) + Column(b, q)
  {
    var l, r := Column(a + b, q), Column(a, q) + Column(b, q);
    forall i | 0 <= i < |l|
      ensures l[i] == r[i]
    {
      if i < |a| {
        assert (a + b)[i] == a[i];
      } else {
        assert (a + b)[i] == b[i - |a|];
      }
    }
  }

  /** Permuted rows give permuted columns. */
  lemma {:induction false} ColumnPermutation(a: seq<Row<Sample>>, b: seq<Row<Sample>>, q: Quantity)
    requires multiset(a) == multiset(b)
    ensures multiset(Column(a, q)) == multiset(Column(b, q))
    decreases |a|
  {
    if a == [] {
      assert |b| == |multiset(b)| == 0;
    } else {
      assert a[0] in multiset(b);
      var k :| 0 <= k < |b| && b[k] == a[0];
      var rest := b[..k] + b[k + 1..];
      assert multiset(a[1..]) == multiset(rest) by {
        MultisetRemove(b, k);
        MultisetTail(a);
      }
      ColumnPermutation(a[1..], rest, q);
      ColumnStep(a, b, k, q);
    }
  }

  /** Matching first rows of `a` and row `k` of `b` extend equal columns of
      the remaining rows to equal columns. */
  lemma ColumnStep(a: seq<Row<Sample>>, b: seq<Row<Sample>>, k: int, q: Quantity)
    requires a != [] && 0 <= k < |b| && b[k] == a[0]
    requires multiset(Column(a[1..], q)) == multiset(Column(b[..k] + b[k + 1..], q))
    ensures multiset(Column(a, q)) == multiset(Column(b, q))
  {
    var v := ValueOf(a[0].value, q);
    var ca, cb := Column(a[1..], q), Column(b[..k] + b[k + 1..], q);
    assert multiset(Column(a, q)) == multiset(ca) + multiset{v} by {
      assert a == [a[0]] + a[1..];
      ColumnAppend([a[0]], a[1..], q);
      assert Column(a, q) == [v] + ca;
    }
    assert multiset(Column(b, q)) == multiset(cb) + multiset{v} by {
      ColumnRemove(b, k, q);
    }
  }

  /** `s` is the summary of a sensor's values of `q` since `start`, in
      whatever order the query returned the rows. */
  ghost predicate IsSummaryOf(s: Summary, m: map<Key, Sample>, sensor: string, start: int, q: Quantity) {
    exists rows ::
      var since := SensorSince(m, sensor, start);
      Lists(rows, since, since.Keys) && rows != [] && s == SummaryOf(Column(rows, q))
  }

  /** The summary of a sensor does not depend on the order of the rows. */
  lemma SummaryDeterministic(s: Summary, s': Summary, m: map<Key, Sample>, sensor: string, start: int, q: Quantity)
    requires IsSummaryOf(s, m, sensor, start, q) && IsSummaryOf(s', m, sensor, start, q)
    ensures s == s'
  {
    var since := SensorSince(m, sensor, start);
    var a :| Lists(a, since, since.Keys) && a != [] && s == SummaryOf(Column(a, q));
    var b :| Lists(b, since, since.Keys) && b != [] && s' == SummaryOf(Column(b, q));
    ListingsArePermutations(a, b, since, since.Keys);
    ColumnPermutation(a, b, q);
    SummaryOfPermutation(Column(a, q), Column(b, q));
  }

  /** `after` is the summary table `before` once a period has been summarized:
      every sensor with values since `start` has its summary at
      `(start, sensor)`; every other row is as before. */
  ghost predicate Summarized(before: map<Key, Summary>, after: map<Key, Summary>,
                             m: map<Key, Sample>, q: Quantity, start: int)
  {
    && (forall k :: k in after <==> k in before || (k.0 == start && HasValues(m, k.1, start)))
    && (forall k :: k in before && !(k.0 == start && HasValues(m, k.1, start)) ==> after[k] == before[k])
    && (forall sensor :: HasValues(m, sensor, start) ==>
          (start, sensor) in after && IsSummaryOf(after[(start, sensor)], m, sensor, start, q))
  }

  /** A sensor with no values since the period start gets no row written. */
  lemma SummarizedSkipsSilentSensors(before: map<Key, Summary>, after: map<Key, Summary>,
                                     m: map<Key, Sample>, q: Quantity, start: int, sensor: string)
    requires Summarized(before, after, m, q, start)
    requires !HasValues(m, sensor, start)
    ensures (start, sensor) in after <==> (start, sensor) in before
    ensures (start, sensor) in before ==> after[(start, sensor)] == before[(start, sensor)]
  {
  }

  /** Re-running a summary on unchanged data leaves the table unchanged. */
  lemma SummarizedIdempotent(before: map<Key, Summary>, after: map<Key, Summary>, again: map<Key, Summary>,
                             m: map<Key, Sample>, q: Quantity, start: int)
    requires Summarized(before, after, m, q, start)
    requires Summarized(after, again, m, q, start)
    ensures again == after
  {
    assert again.Keys == after.Keys;
    forall k | k in after
      ensures again[k] == after[k]
    {
      if k.0 == start && HasValues(m, k.1, start) {
        SummaryAgrees(after, again, m, q, start, k.1);
      }
    }
  }

  lemma SummaryAgrees(after: map<Key, Summary>, again: map<Key, Summary>,
                      m: map<Key, Sample>, q: Quantity, start: int, sensor: string)
    requires (start, sensor) in after && (start, sensor) in again
    requires IsSummaryOf(after[(start, sensor)], m, sensor, start, q)
    requires IsSummaryOf(again[(start, sensor)], m, sensor, start, q)
    ensures again[(start, sensor)] == after[(start, sensor)]
  {
    SummaryDeterministic(again[(start, sensor)], after[(start, sensor)], m, sensor, start, q);
  }

  /** Whether `sensor` has values since `start`, as a function of the sensor. */
  function HasValuesSince(m: map<Key, Sample>, start: int): string -> bool {
    sensor => HasValues(m, sensor, start)
  }

  /** Whether a row is the summary of a sensor's values since `start`. */
  ghost function SummaryFits(m: map<Key, Sample>, q: Quantity, start: int): (string, Summary) -> bool {
    (sensor, s) => IsSummaryOf(s, m, sensor, start, q)
  }

  /** Like `Summarized`, for the sensors in `done` only. */
  ghost predicate SummarizedFor(before: map<Key, Summary>, after: map<Key, Summary>,
                                m: map<Key, Sample>, q: Quantity, start: int, done: set<string>)
  {
    UpsertedFor(before, after, start, done, HasValuesSince(m, start), SummaryFits(m, q, start))
  }

  /** `table'` is `table` with the summary of `sensor` upserted at
      `(start, sensor)`, or `table` itself when the sensor has no values. */
  ghost predicate SensorSummarized(table: map<Key, Summary>, table': map<Key, Summary>,
                                   m: map<Key, Sample>, q: Quantity, start: int, sensor: string)
  {
    if HasValues(m, sensor, start) then
      && (start, sensor) in table'
      && table' == table[(start, sensor) := table'[(start, sensor)]]
      && IsSummaryOf(table'[(start, sensor)], m, sensor, start, q)
    else table' == table
  }

  /** The loop body for one sensor: its values since `start`, sorted, and
      the summary row upserted at `(start, sensor)`; nothing when there are
      no values. */
  method SummarizeSensor(m: map<Key, Sample>, table: map<Key, Summary>, q: Quantity, start: int, sensor: string)
    returns (table': map<Key, Summary>)
    ensures SensorSummarized(table, table', m, q, start, sensor)
  {
    var since := SensorSince(m, sensor, start);
    var rows := OrderByTime(since);
    var values := Column(rows, q);
    if |values| == 0 {
      return table;
    }
    assert rows[0].Key() in since;
    values := Sort(values);
    var n := |values|;
    var row := Summary(values[0], values[n - 1], values[n / 2], Sum(values) / (n as real));
    assert row == SummaryOf(Column(rows, q));
    table' := table[(start, sensor) := row];
    assert IsSummaryOf(row, m, sensor, start, q) by {
      assert Lists(rows, since, since.Keys) && rows != [] && row == SummaryOf(Column(rows, q));
    }
  }

  /** The loop of `summarize_period_containing` over the distinct sensors of
      the `measurement` table, in any order. */
  method SummarizeSensors(m: map<Key, Sample>, before: map<Key, Summary>, q: Quantity, start: int)
    returns (table: map<Key, Summary>)
    ensures Summarized(before, table, m, q, start)
  {
    table := before;
    var rest := set k | k in m :: k.1;
    ghost var done: set<string> := {};
    while rest != {}
      invariant forall k :: k in m ==> k.1 in done || k.1 in rest
      invariant SummarizedFor(before, table, m, q, start, done)
      decreases rest
    {
      var sensor :| sensor in rest;
      var table' := SummarizeSensor(m, table, q, start, sensor);
      SummarizedStep(before, table, table', m, q, start, done, sensor);
      table, done := table', done + {sensor};
      rest := rest - {sensor};
    }
    SummarizedAll(before, table, m, q, start, done);
  }

  /** Every sensor with values is a sensor of the table, so covering all of
      them covers every sensor with values. */
  lemma SummarizedAll(before: map<Key, Summary>, table: map<Key, Summary>, m: map<Key, Sample>, q: Quantity, start: int,
                      done: set<string>)
    requires SummarizedFor(before, table, m, q, start, done)
    requires forall k :: k in m ==> k.1 in done
    ensures Summarized(before, table, m, q, start)
  {
    forall sensor | HasValues(m, sensor, start)
      ensures sensor in done
    {
      var k :| k in m && k.1 == sensor && start <= k.0;
    }
  }

  lemma SummarizedStep(before: map<Key, Summary>, table: map<Key, Summary>, table': map<Key, Summary>,
                       m: map<Key, Sample>, q: Quantity, start: int, done: set<string>, sensor: string)
    requires SummarizedFor(before, table, m, q, start, done)
    requires SensorSummarized(table, table', m, q, start, sensor)
    ensures SummarizedFor(before, table', m, q, start, done + {sensor})
  {
    UpsertedStep(before, table, table', start, done, sensor, HasValuesSince(m, start), SummaryFits(m, q, start));
  }

  /** The summary tables, one per quantity and period width. */
  type SummaryTables = map<(Quantity, int), map<Key, Summary>>

  /** The table for `key`, or an empty one when it does not exist yet. */
  function TableOr(tables: SummaryTables, key: (Quantity, int)): map<Key, Summary> {
    if key in tables then tables[key] else map[]
  }

  /** `after` is `before` once, for each quantity in `qs`, its table for
      `period` (empty when it did not exist) has been replaced by one that
      `ok` accepts; no other table changes. */
  ghost predicate TablesUpdated(before: SummaryTables, after: SummaryTables, qs: seq<Quantity>, period: int,
                                ok: (Quantity, map<Key, Summary>, map<Key, Summary>) -> bool)
  {
    && (forall key :: key in after <==> key in before || (key.1 == period && key.0 in qs))
    && (forall key :: key in before && !(key.1 == period && key.0 in qs) ==> after[key] == before[key])
    && (forall q :: q in qs ==> (q, period) in after && ok(q, TableOr(before, (q, period)), after[(q, period)]))
  }

  /** Whether a table is another summarized for a quantity from `start`. */
  ghost function SummarizedFrom(m: map<Key, Sample>, start: int): (Quantity, map<Key, Summary>, map<Key, Summary>) -> bool {
    (q, table, table') => Summarized(table, table', m, q, start)
  }

  /** `after` is `before` once the quantities in `qs` have been summarized
      over the period of width `period` containing `containing`, each into
      its table (created when missing); no other table changes. */
  ghost predicate PeriodSummarized(before: SummaryTables, after: SummaryTables, m: map<Key, Sample>,
                                   qs: seq<Quantity>, period: int, containing: int)
    requires period > 0
  {
    TablesUpdated(before, after, qs, period, SummarizedFrom(m, PeriodStart(containing, period)))
  }

  /** `summarize_period_containing` on the tables: the table for
      `(q, period)` must exist. */
  method SummarizeTable(m: map<Key, Sample>, tables: SummaryTables, q: Quantity, period: int, containing: int)
    returns (tables': SummaryTables)
    requires period > 0
    requires (q, period) in tables
    ensures tables'.Keys == tables.Keys
    ensures forall key :: key in tables && key != (q, period) ==> tables'[key] == tables[key]
    ensures Summarized(tables[(q, period)], tables'[(q, period)], m, q, PeriodStart(containing, period))
  {
    var start := PeriodStart(containing, period);
    var table := SummarizeSensors(m, tables[(q, period)], q, start);
    tables' := tables[(q, period) := table];
  }

  lemma PeriodSummarizedStep(before: SummaryTables, tables: SummaryTables, created: SummaryTables, after: SummaryTables, m: map<Key, Sample>,
                             qs: seq<Quantity>, q: Quantity, period: int, containing: int)
    requires period > 0
    requires q !in qs
    requires PeriodSummarized(before, tables, m, qs, period, containing)
    requires created == if (q, period) in tables then tables else tables[(q, period) := map[]]
    requires after.Keys == created.Keys
    requires forall key :: key in created && key != (q, period) ==> after[key] == created[key]
    requires Summarized(created[(q, period)], after[(q, period)], m, q, PeriodStart(containing, period))
    ensures PeriodSummarized(before, after, m, qs + [q], period, containing)
  {
    var ok := SummarizedFrom(m, PeriodStart(containing, period));
    assert ok(q, created[(q, period)], after[(q, period)]);
    TablesUpdatedStep(before, tables, created, after, qs, q, period, ok);
  }

  /** One more quantity: its table, created when missing, replaced by one
      that `ok` accepts. */
  lemma TablesUpdatedStep(before: SummaryTables, tables: SummaryTables, created: SummaryTables, after: SummaryTables,
                          qs: seq<Quantity>, q: Quantity, period: int,
                          ok: (Quantity, map<Key, Summary>, map<Key, Summary>) -> bool)
    requires q !in qs
    requires TablesUpdated(before, tables, qs, period, ok)
    requires created == if (q, period) in tables then tables else tables[(q, period) := map[]]
    requires after.Keys == created.Keys
    requires forall key :: key in created && key != (q, period) ==> after[key] == created[key]
    requires ok(q, created[(q, period)], after[(q, period)])
    ensures TablesUpdated(before, after, qs + [q], period, ok)
  {
    assert TableOr(before, (q, period)) == created[(q, period)];
    forall q' | q' in qs + [q]
      ensures (q', period) in after && ok(q', TableOr(before, (q', period)), after[(q', period)])
    {
      if q' != q {
        assert q' in qs;
      }
    }
  }

  /** `summarize_single_period` on the tables: for each of the five
      quantities in turn, creates its table for `period` if missing and
      summarizes it. */
  method SummarizeAllQuantities(m: map<Key, Sample>, tables: SummaryTables, period: int, containing: int)
    returns (tables': SummaryTables)
    requires period > 0
    ensures PeriodSummarized(tables, tables', m, Quantities, period, containing)
  {
    tables' := tables;
    var i := 0;
    while i < |Quantities|
      invariant 0 <= i <= |Quantities|
      invariant PeriodSummarized(tables, tables', m, Quantities[..i], period, containing)
    {
      var q := Quantities[i];
      assert Quantities[..i + 1] == Quantities[..i] + [q];
      QuantitiesDistinct(i);
      var created := tables';
      if (q, period) !in created {
        created := created[(q, period) := map[]];
      }
      var after := SummarizeTable(m, created, q, period, containing);
      PeriodSummarizedStep(tables, tables', created, after, m, Quantities[..i], q, period, containing);
      tables' := after;
      i := i + 1;
    }
    assert Quantities[..i] == Quantities;
  }

  class Database {
    /** The `measurement` table, read only. */
    var measurement: map<Key, Sample>
    /** The summary tables, one per quantity and period width. */
    var summaries: SummaryTables

    constructor (measurement: map<Key, Sample>)
      ensures this.measurement == measurement && summaries == map[]
    {
      this.measurement := measurement;
      summaries := map[];
    }

    /** `summarize_period_containing`: summarizes quantity `q` over the
        period of width `period` containing `containing` into the existing
        table for `(q, period)`; no other table changes. */
    method SummarizePeriodContaining(q: Quantity, period: int, containing: int)
      requires period > 0
      requires (q, period) in summaries
      modifies this
      ensures measurement == old(measurement)
      ensures summaries.Keys == old(summaries).Keys
      ensures forall key :: key in summaries && key != (q, period) ==> summaries[key] == old(summaries)[key]
      ensures Summarized(old(summaries)[(q, period)], summaries[(q, period)], measurement, q, PeriodStart(containing, period))
    {
      summaries := SummarizeTable(measurement, summaries, q, period, containing);
    }

    /** `summarize_single_period`: creates each of the five summary tables
        for `period` if missing, then summarizes its quantity. */
    method SummarizeSinglePeriod(period: int, containing: int)
      requires period > 0
      modifies this
      ensures measurement == old(measurement)
      ensures PeriodSummarized(old(summaries), summaries, measurement, Quantities, period, containing)
    {
      summaries := SummarizeAllQuantities(measurement, summaries, period, containing);
    }

    /** `main`: the hourly, half-day and daily periods in turn, each at its
        own reading of the clock. */
    method SummarizeStandardPeriods(hourNow: int, halfDayNow: int, dayNow: int)
      modifies this
      ensures measurement == old(measurement)
      ensures exists hourly, halfDaily ::
        && PeriodSummarized(old(summaries), hourly, measurement, Quantities, 3600, hourNow)
        && PeriodSummarized(hourly, halfDaily, measurement, Quantities, 43200, halfDayNow)
        && PeriodSummarized(halfDaily, summaries, measurement, Quantities, 86400, dayNow)
    {
      SummarizeSinglePeriod(3600, hourNow);
      ghost var hourly := summaries;
      SummarizeSinglePeriod(43200, halfDayNow);
      ghost var halfDaily := summaries;
      SummarizeSinglePeriod(86400, dayNow);
    }
  }
}
