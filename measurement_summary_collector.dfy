/** The summary collector: once an hour (and once a day) it fetches the
    previous period's readings from the buffer's HTTP endpoint and upserts,
    per sensor, the minimum, maximum, median and mean of the temperature and
    the humidity into `hourly_*` (or `daily_*`) tables keyed by
    `(period_start_at, sensor)`. The fetch and the clock are parameters:
    a fetch is its decoded answer, or `None` when it failed. */
module MeasurementSummaryCollector {
  import opened Wrappers
  import opened Tables
  import opened Epoch
  import opened Stats

  /** One element of a sensor's list in the fetched JSON; a missing key and
      an explicit `null` are both `None`. */
  datatype Reading = Reading(temperature: Option<real>, humidity: Option<real>)

  /** The two summarized measurement types. */
  datatype Measure = Temperature | Humidity

  /** A row of a summary table besides its key: every column is NULL for a
      sensor without values. */
  datatype Statistics = Statistics(minimum: Option<real>, maximum: Option<real>,
                                   median: Option<real>, mean: Option<real>)

  /** The fetched document: each sensor's readings. */
  type Fetched = map<string, seq<Reading>>

  /** `calculate_statistics`: all four `None` for no values; otherwise the
      minimum, the maximum, `statistics.median` (the mean of the two middle
      values for an even count) and the mean. */
  function CalculateStatistics(values: seq<real>): (s: Statistics)
    ensures values == [] <==> s == Statistics(None, None, None, None)
    ensures values != [] ==>
      && s.minimum.Some? && s.maximum.Some? && s.median.Some? && s.mean.Some?
      && s.minimum.value in values && s.maximum.value in values
      && (forall i :: 0 <= i < |values| ==> s.minimum.value <= values[i] <= s.maximum.value)
      && s.minimum.value <= s.median.value <= s.maximum.value
      && s.minimum.value <= s.mean.value <= s.maximum.value
  {
    if values == [] then Statistics(None, None, None, None)
    else
      MedianBounds(values);
      MeanBounds(values);
      Statistics(Some(Min(values)), Some(Max(values)), Some(Median(values)), Some(Mean(values)))
  }

  /** The statistics do not depend on the order of the values. */
  lemma StatisticsIgnoreOrder(a: seq<real>, b: seq<real>)
    requires multiset(a) == multiset(b)
    ensures CalculateStatistics(a) == CalculateStatistics(b)
  {
    assert |a| == |multiset(a)| == |multiset(b)| == |b|;
    if a != [] {
      PermutationMinMax(a, b);
      MedianPermutation(a, b);
      MeanPermutation(a, b);
    }
  }

  /** The present values of a column, in order: `[v for v in xs if v is not None]`. */
  function Present(xs: seq<Option<real>>): (vs: seq<real>)
    ensures |vs| <= |xs|
    ensures forall v :: multiset(vs)[v] == multiset(xs)[Some(v)]
  {
    if xs == [] then []
    else
      assert xs == [xs[0]] + xs[1..];
      (if xs[0].Some? then [xs[0].value] else []) + Present(xs[1..])
  }

  function ValueOf(r: Reading, q: Measure): Option<real> {
    match q
    case Temperature => r.temperature
    case Humidity => r.humidity
  }

  /** The values of `q` that a sensor's readings carry. */
  function Values(readings: seq<Reading>, q: Measure): (vs: seq<real>)
    ensures forall v :: v in vs <==> exists i :: 0 <= i < |readings| && ValueOf(readings[i], q) == Some(v)
  {
    var column := seq(|readings|, i requires 0 <= i < |readings| => ValueOf(readings[i], q));
    var vs := Present(column);
    assert forall v :: v in vs <==> exists i :: 0 <= i < |readings| && ValueOf(readings[i], q) == Some(v) by {
      forall v ensures v in vs <==> exists i :: 0 <= i < |readings| && ValueOf(readings[i], q) == Some(v) {
        assert v in vs <==> multiset(vs)[v] > 0;
        assert Some(v) in column <==> multiset(column)[Some(v)] > 0;
        if Some(v) in column {
          var i :| 0 <= i < |column| && column[i] == Some(v);
          assert ValueOf(readings[i], q) == Some(v);
        }
        if exists i :: 0 <= i < |readings| && ValueOf(readings[i], q) == Some(v) {
          var i :| 0 <= i < |readings| && ValueOf(readings[i], q) == Some(v);
          assert column[i] == Some(v);
        }
      }
    }
    vs
  }

  /** `get_previous_hour_range` on the clock reading `now`: the whole hour
      before the one containing `now`. */
  function PreviousHourRange(now: int): (r: (int, int))
    ensures r.1 % Hour == 0 && r.1 <= now < r.1 + Hour
    ensures r.1 - r.0 == Hour
  {
    var end := FloorTo(now, Hour);
    (end - Hour, end)
  }

  /** `get_previous_day_range`: the whole day before the one containing `now`. */
  function PreviousDayRange(now: int): (r: (int, int))
    ensures r.1 % Day == 0 && r.1 <= now < r.1 + Day
    ensures r.1 - r.0 == Day
  {
    var end := FloorTo(now, Day);
    (end - Day, end)
  }

  /** The previous hour is the aligned hour containing the instant one hour
      before `now`, and it ends where the current hour starts. */
  lemma PreviousHourIsHourBefore(now: int)
    ensures PreviousHourRange(now).0 == FloorTo(now - Hour, Hour)
    ensures PreviousHourRange(now).1 == FloorTo(now, Hour)
  {
    var r := PreviousHourRange(now);
    MultipleMod(r.0, Hour);
    FloorToUnique(now - Hour, Hour, r.0);
  }

  /** The previous day is the aligned day containing the instant one day
      before `now`. */
  lemma PreviousDayIsDayBefore(now: int)
    ensures PreviousDayRange(now).0 == FloorTo(now - Day, Day)
    ensures PreviousDayRange(now).1 == FloorTo(now, Day)
  {
    var r := PreviousDayRange(now);
    MultipleMod(r.0, Day);
    FloorToUnique(now - Day, Day, r.0);
  }

  /** Every sensor of the fetched document gets a row, values or not. */
  function EverySensor(): string -> bool {
    sensor => true
  }

  /** Whether a row holds the statistics of a fetched sensor's values for `q`. */
  function StatisticsFit(data: Fetched, q: Measure): (string, Statistics) -> bool {
    (sensor, s) => sensor in data && s == CalculateStatistics(Values(data[sensor], q))
  }

  /** `after` is `before` once the sensors in `done` have had their row for
      `q` upserted at `(start, sensor)`; every other row is as before. */
  ghost predicate CollectedFor(before: map<Key, Statistics>, after: map<Key, Statistics>,
                               start: int, data: Fetched, q: Measure, done: set<string>)
  {
    UpsertedFor(before, after, start, done, EverySensor(), StatisticsFit(data, q))
  }

  /** The row a collection run leaves for a sensor it covered. */
  lemma CollectedRow(before: map<Key, Statistics>, after: map<Key, Statistics>,
                     start: int, data: Fetched, q: Measure, done: set<string>, sensor: string)
    requires CollectedFor(before, after, start, data, q, done)
    requires sensor in done
    ensures sensor in data && (start, sensor) in after
    ensures after[(start, sensor)] == CalculateStatistics(Values(data[sensor], q))
  {
    assert EverySensor()(sensor);
  }

  /** Collecting the same data twice leaves the table as the first run left it. */
  lemma CollectedIdempotent(before: map<Key, Statistics>, after: map<Key, Statistics>, again: map<Key, Statistics>,
                            start: int, data: Fetched, q: Measure)
    requires CollectedFor(before, after, start, data, q, data.Keys)
    requires CollectedFor(after, again, start, data, q, data.Keys)
    ensures again == after
  {
    assert again.Keys == after.Keys;
    forall k | k in after
      ensures again[k] == after[k]
    {
      if k.0 == start && k.1 in data {
        CollectedRow(before, after, start, data, q, data.Keys, k.1);
        CollectedRow(after, again, start, data, q, data.Keys, k.1);
      }
    }
  }

  /** Every row a collection run writes for a sensor with values has
      minimum <= median <= maximum and minimum <= mean <= maximum, and its
      columns are NULL exactly when the sensor had no values for `q`. */
  lemma CollectedRowsBounded(before: map<Key, Statistics>, after: map<Key, Statistics>,
                             start: int, data: Fetched, q: Measure, sensor: string)
    requires CollectedFor(before, after, start, data, q, data.Keys)
    requires sensor in data
    ensures (start, sensor) in after
    ensures var s := after[(start, sensor)];
      && (s.minimum.None? <==> forall i :: 0 <= i < |data[sensor]| ==> ValueOf(data[sensor][i], q).None?)
      && (s.minimum.Some? ==>
            && s.median.Some? && s.mean.Some? && s.maximum.Some?
            && s.minimum.value <= s.median.value <= s.maximum.value
            && s.minimum.value <= s.mean.value <= s.maximum.value)
  {
    CollectedRow(before, after, start, data, q, data.Keys, sensor);
    ValuesEmpty(data[sensor], q);
  }

  /** A sensor has no values for `q` exactly when every reading lacks it. */
  lemma ValuesEmpty(readings: seq<Reading>, q: Measure)
    ensures Values(readings, q) == [] <==> forall i :: 0 <= i < |readings| ==> ValueOf(readings[i], q).None?
  {
    var vs := Values(readings, q);
    if vs != [] {
      assert vs[0] in vs;
    }
    forall i | 0 <= i < |readings| && ValueOf(readings[i], q).Some?
      ensures vs != []
    {
      assert ValueOf(readings[i], q).value in vs;
    }
  }

  lemma CollectedStep(before: map<Key, Statistics>, table: map<Key, Statistics>,
                      start: int, data: Fetched, q: Measure, done: set<string>, sensor: string)
    requires sensor in data
    requires CollectedFor(before, table, start, data, q, done)
    ensures CollectedFor(before, table[(start, sensor) := CalculateStatistics(Values(data[sensor], q))],
                         start, data, q, done + {sensor})
  {
    UpsertedStep(before, table, table[(start, sensor) := CalculateStatistics(Values(data[sensor], q))],
                 start, done, sensor, EverySensor(), StatisticsFit(data, q));
  }

  /** The loop over `data.items()`: for each sensor, the temperature row and
      the humidity row upserted at `(start, sensor)`. */
  method CollectSummaries(temperature: map<Key, Statistics>, humidity: map<Key, Statistics>,
                          start: int, data: Fetched)
    returns (temperature': map<Key, Statistics>, humidity': map<Key, Statistics>)
    ensures CollectedFor(temperature, temperature', start, data, Temperature, data.Keys)
    ensures CollectedFor(humidity, humidity', start, data, Humidity, data.Keys)
  {
    temperature', humidity' := temperature, humidity;
    var rest := data.Keys;
    while rest != {}
      invariant rest <= data.Keys
      invariant CollectedFor(temperature, temperature', start, data, Temperature, data.Keys - rest)
      invariant CollectedFor(humidity, humidity', start, data, Humidity, data.Keys - rest)
      decreases rest
    {
      var sensor :| sensor in rest;
      var readings := data[sensor];
      CollectedStep(temperature, temperature', start, data, Temperature, data.Keys - rest, sensor);
      CollectedStep(humidity, humidity', start, data, Humidity, data.Keys - rest, sensor);
      MoveOne(data.Keys, rest, sensor);
      temperature' := temperature'[(start, sensor) := CalculateStatistics(Values(readings, Temperature))];
      humidity' := humidity'[(start, sensor) := CalculateStatistics(Values(readings, Humidity))];
      rest := rest - {sensor};
    }
    assert data.Keys - rest == data.Keys;
  }

  /** Taking `x` out of the sensors still to do adds it to those done. */
  lemma MoveOne<T>(all: set<T>, rest: set<T>, x: T)
    requires x in rest && rest <= all
    ensures all - (rest - {x}) == (all - rest) + {x}
  {
  }

  /** The four summary tables of the collector's database. */
  class SummaryDatabase {
    var hourlyTemperature: map<Key, Statistics>
    var hourlyHumidity: map<Key, Statistics>
    var dailyTemperature: map<Key, Statistics>
    var dailyHumidity: map<Key, Statistics>

    /** `create_tables` on a new database. */
    constructor ()
      ensures hourlyTemperature == hourlyHumidity == dailyTemperature == dailyHumidity == map[]
    {
      hourlyTemperature, hourlyHumidity := map[], map[];
      dailyTemperature, dailyHumidity := map[], map[];
    }

    /** `collect_hourly_summaries` at clock reading `now`, where `fetched`
        is what the buffer answered for the previous hour: nothing is
        written when the fetch failed; otherwise every fetched sensor gets
        one hourly row per measure at the start of the previous hour. */
    method CollectHourlySummaries(now: int, fetched: Option<Fetched>)
      modifies this
      ensures dailyTemperature == old(dailyTemperature) && dailyHumidity == old(dailyHumidity)
      ensures fetched.None? ==>
        hourlyTemperature == old(hourlyTemperature) && hourlyHumidity == old(hourlyHumidity)
      ensures fetched.Some? ==>
        var start := PreviousHourRange(now).0;
        && CollectedFor(old(hourlyTemperature), hourlyTemperature, start, fetched.value, Temperature, fetched.value.Keys)
        && CollectedFor(old(hourlyHumidity), hourlyHumidity, start, fetched.value, Humidity, fetched.value.Keys)
    {
      if fetched.None? {
        return;
      }
      var range := PreviousHourRange(now);
      hourlyTemperature, hourlyHumidity := CollectSummaries(hourlyTemperature, hourlyHumidity, range.0, fetched.value);
    }

    /** `collect_daily_summaries`: the same for the previous day and the
        daily tables. */
    method CollectDailySummaries(now: int, fetched: Option<Fetched>)
      modifies this
      ensures hourlyTemperature == old(hourlyTemperature) && hourlyHumidity == old(hourlyHumidity)
      ensures fetched.None? ==>
        dailyTemperature == old(dailyTemperature) && dailyHumidity == old(dailyHumidity)
      ensures fetched.Some? ==>
        var start := PreviousDayRange(now).0;
        && CollectedFor(old(dailyTemperature), dailyTemperature, start, fetched.value, Temperature, fetched.value.Keys)
        && CollectedFor(old(dailyHumidity), dailyHumidity, start, fetched.value, Humidity, fetched.value.Keys)
    {
      if fetched.None? {
        return;
      }
      var range := PreviousDayRange(now);
      dailyTemperature, dailyHumidity := CollectSummaries(dailyTemperature, dailyHumidity, range.0, fetched.value);
    }
  }

  /** The calendar fields of a local clock reading the scheduler compares:
      `now.hour`, `now.timetuple().tm_yday` and `now.year`. */
  datatype CivilTime = CivilTime(year: int, yearDay: int, hour: int)

  /** `SchedulerState`: the hour, day of year and year last processed. */
  class Scheduler {
    var lastProcessedHour: int
    var lastProcessedDay: int
    var lastProcessedYear: int

    /** The state is initialised from the clock at start-up. */
    constructor (now: CivilTime)
      ensures Current(now)
    {
      lastProcessedHour, lastProcessedDay, lastProcessedYear := now.hour, now.yearDay, now.year;
    }

    /** The state records the reading `now`. */
    predicate Current(now: CivilTime)
      reads this
    {
      lastProcessedHour == now.hour && lastProcessedDay == now.yearDay && lastProcessedYear == now.year
    }

    /** The two tests of one pass of the main loop: hourly collection fires
        iff the hour differs from the last processed one, daily collection
        iff the day of year or the year differs; afterwards the state
        records `now`, so a second pass at the same reading fires nothing. */
    method Step(now: CivilTime) returns (hourly: bool, daily: bool)
      modifies this
      ensures hourly <==> now.hour != old(lastProcessedHour)
      ensures daily <==> now.yearDay != old(lastProcessedDay) || now.year != old(lastProcessedYear)
      ensures old(Current(now)) ==> !hourly && !daily
      ensures Current(now)
    {
      hourly, daily := false, false;
      if now.hour != lastProcessedHour {
        hourly := true;
        lastProcessedHour := now.hour;
      }
      if now.yearDay != lastProcessedDay || now.year != lastProcessedYear {
        daily := true;
        lastProcessedDay := now.yearDay;
        lastProcessedYear := now.year;
      }
    }
  }

  /** One pass of `main`'s loop at calendar reading `now` and epoch clock
      `epoch`: the scheduler step, then the collections it fires, each fed
      with what `fetch` answers for its range. */
  method MainLoopPass(state: Scheduler, db: SummaryDatabase, now: CivilTime, epoch: int,
                      fetch: (int, int) -> Option<Fetched>)
    returns (hourly: bool, daily: bool)
    modifies state, db
    ensures hourly <==> now.hour != old(state.lastProcessedHour)
    ensures daily <==> now.yearDay != old(state.lastProcessedDay) || now.year != old(state.lastProcessedYear)
    ensures state.Current(now)
    ensures !hourly || fetch(PreviousHourRange(epoch).0, PreviousHourRange(epoch).1).None? ==>
      db.hourlyTemperature == old(db.hourlyTemperature) && db.hourlyHumidity == old(db.hourlyHumidity)
    ensures !daily || fetch(PreviousDayRange(epoch).0, PreviousDayRange(epoch).1).None? ==>
      db.dailyTemperature == old(db.dailyTemperature) && db.dailyHumidity == old(db.dailyHumidity)
    ensures hourly && fetch(PreviousHourRange(epoch).0, PreviousHourRange(epoch).1).Some? ==>
      var data := fetch(PreviousHourRange(epoch).0, PreviousHourRange(epoch).1).value;
      && CollectedFor(old(db.hourlyTemperature), db.hourlyTemperature, PreviousHourRange(epoch).0, data, Temperature, data.Keys)
      && CollectedFor(old(db.hourlyHumidity), db.hourlyHumidity, PreviousHourRange(epoch).0, data, Humidity, data.Keys)
    ensures daily && fetch(PreviousDayRange(epoch).0, PreviousDayRange(epoch).1).Some? ==>
      var data := fetch(PreviousDayRange(epoch).0, PreviousDayRange(epoch).1).value;
      && CollectedFor(old(db.dailyTemperature), db.dailyTemperature, PreviousDayRange(epoch).0, data, Temperature, data.Keys)
      && CollectedFor(old(db.dailyHumidity), db.dailyHumidity, PreviousDayRange(epoch).0, data, Humidity, data.Keys)
  {
    hourly, daily := state.Step(now);
    if hourly {
      var range := PreviousHourRange(epoch);
      db.CollectHourlySummaries(epoch, fetch(range.0, range.1));
    }
    if daily {
      var range := PreviousDayRange(epoch);
      db.CollectDailySummaries(epoch, fetch(range.0, range.1));
    }
  }
}
