# Ruuvi sensor pipeline: verified model of the measurement core

This project is a Dafny model of the scripts that move Ruuvi sensor readings
through SQLite. Every script handles readings keyed by `(timestamp, sensor)`.

- **measurement_buffer.py** keeps an in-memory `measurement` table.
  - Each advertisement from the radio bridge is decoded and inserted.
  - Rows older than 24 h 15 min are then pruned.
  - An HTTP endpoint serves the last hour, grouped per sensor, in ascending time.
- **measurement_collector.py** persists temperature, pressure, humidity and
  battery voltage into one table each. Before each insert it applies
  *plateau compaction*: it deletes the previous latest row when the new value
  is relatively close to it and both gaps are under an hour.
- **measurement_summarizer.py** aligns a period start to a multiple of the
  period width. For every sensor it reduces that period's values to min, max,
  the element at index `n / 2` of the sorted list, and the mean.
- **measurement_summary_collector.py** asks the buffer for the previous
  hour (or day) as `start`/`end` query parameters. It upserts minimum,
  maximum, median and mean per sensor at the period's start, with
  all-`None` statistics for a sensor without values. A small scheduler
  fires the hourly and daily collections when the hour or the day changes.
  The buffer's handler ignores the query string and always answers with its
  last hour (measurement_buffer.py:71-78 and 95-100). A daily collection
  therefore summarizes only the hour before the fetch, filed under the
  previous day's start. The model states each collection for whatever
  document the fetch returns (`MeasurementSummaryCollector.MainLoopPass`),
  and `MeasurementBuffer.Buffer.Get` states its answer in terms of the
  table and the clock alone, whatever query the path carries.
- **measurement_browser.py** serves charts.
  - It picks a bucket width from the query span and floors reading times to
    the minute.
  - It builds a result matrix: a shared, sorted, de-duplicated time axis, then
    one row per sensor with `None` gaps.
  - It clamps the x value of the last summary bucket to "now".
  - It gates request paths through an allow-list.
- **extract_historical_daily.py** detects which of four layouts a database
  uses and reads hourly values out of it. It reduces them to daily
  min/max/median per sensor, then merges several databases (the last one wins
  per key) and emits the result in sorted key order.

Modelling choices:

- A table is a Dafny `map` keyed by its primary key `(time, sensor)`.
- `INSERT OR REPLACE` is a map update and `DELETE` is a map restriction.
- Timestamps are integer epoch seconds, and local time is UTC.
- Clock readings, HTTP fetches and database files are parameters.
- Readings are `real`.
- `ORDER BY time` is the method `Tables.OrderByTime`. It picks keys in any
  order and inserts them into a time-sorted list, so rows with equal times
  come back in an unspecified order, as in SQL.
- Every result built from a query is proved not to depend on that order
  (`Tables.ListingsArePermutations`, `MeasurementSummarizer.SummaryDeterministic`,
  `HistoricalDaily.DailyPermutation`).

Loops in the source are methods with `while`/`for` loops. They are proved
against specification functions or predicates:

- `Tables.UpsertedFor` is the shared invariant of "one row per sensor
  upserted at `(start, sensor)`". The summarizer (`SummarizedFor`) and the
  summary collector (`CollectedFor`) instantiate it.
- `MeasurementSummarizer.TablesUpdated` is the same idea one level up: one
  table per quantity.
- The merge of `extract_historical_daily.py` is stated for any way of reading
  a file's entries (`Contributions`). `Contribution` is the one `main` uses.

Objects whose state the source updates are classes:

- the buffer's table: `MeasurementBuffer.Buffer`;
- the collector's database: `MeasurementCollector.Collector`;
- the summary databases: `MeasurementSummarizer.Database` and
  `MeasurementSummaryCollector.SummaryDatabase`;
- the collector's `SchedulerState`: `MeasurementSummaryCollector.Scheduler`.

The files:

| file | module(s) | what it holds |
|---|---|---|
| common.dfy | Wrappers, Epoch, Text | `Option`, floor alignment to a period, `str` helpers |
| tables.dfy | Tables | rows, keys, `ORDER BY time`, range selections, the upsert invariant |
| ordering.dfy | Ordering | `sorted` over a strict total order, Python string order |
| stats.dfy | Stats | `min`, `max`, `sorted`, `sum`, `statistics.median`, `statistics.mean` |
| packet.dfy | Packet | MAC address encoding and unit conversions shared by the buffer and the collector |
| measurement_buffer.dfy | MeasurementBuffer | measurement_buffer.py |
| measurement_collector.dfy | MeasurementCollector | measurement_collector.py |
| measurement_summarizer.dfy | MeasurementSummarizer | measurement_summarizer.py |
| measurement_summary_collector.dfy | MeasurementSummaryCollector | measurement_summary_collector.py |
| measurement_browser.dfy | MeasurementBrowser, MeasurementMatrix | measurement_browser.py |
| historical_daily.dfy | HistoricalDaily | extract_historical_daily.py |

## Model

| member | source | states |
|---|---|---|
| Epoch.FloorTo | measurement_summarizer.py:26 | `t - t % p` is a multiple of `p`, at most `t`, and less than `p` below it |
| Epoch.FloorToUnique | measurement_summarizer.py:26 | the aligned start is the only multiple of `p` in `(t - p, t]` |
| Epoch.FloorToIdempotent | measurement_summarizer.py:26 | aligning an aligned instant leaves it unchanged |
| Epoch.FloorToMonotonic | measurement_summarizer.py:26 | alignment preserves the order of instants |
| Text.Before | measurement_browser.py:256 | the part before the first `c` is a prefix without `c`, and what follows it is `c` |
| Text.After | measurement_browser.py:256 | the input is the part before `c`, then `c`, then the result; empty when there is no `c` |
| Tables.OrderByTime | measurement_buffer.py:75-78 | `ORDER BY recorded_at`: every row of the table exactly once, in non-decreasing time |
| Tables.ListingsArePermutations | measurement_summarizer.py:31 | two listings of the same rows are permutations of each other |
| Tables.SensorRange | measurement_browser.py:61-67 | exactly the rows of one sensor with time in `[start, end)`, with their values |
| Tables.TimeRange | measurement_browser.py:48-54 | exactly the rows with time in `[start, end)`, with their values |
| Tables.SameSensorStrictlyIncreasing | measurement_buffer.py:18-24 | the primary key makes one sensor's times strictly increasing in time order |
| Tables.UpsertedStep | measurement_summary_collector.py:48-61 | upserting one more sensor's row at `(start, sensor)` extends the upsert invariant to that sensor and leaves other rows alone |
| Tables.SortedDistinct | measurement_browser.py:48 | `sorted(set(xs))`: strictly increasing, with exactly the elements of `xs` |
| Ordering.Listing | extract_historical_daily.py:341 | the increasing listing of a set: each element once, in order |
| Ordering.IncreasingUnique | extract_historical_daily.py:341 | a set has only one increasing listing |
| Ordering.SortKeys | extract_historical_daily.py:341 | `sorted(keys)` is the increasing listing of the keys |
| Ordering.StrLessStrictTotal | extract_historical_daily.py:166 | Python's string comparison is irreflexive, transitive and total |
| Stats.Min | measurement_summary_collector.py:84 | `min` is an element of the list and no larger than any element |
| Stats.Max | measurement_summary_collector.py:85 | `max` is an element of the list and no smaller than any element |
| Stats.Sort | measurement_summarizer.py:37 | the sorted list is non-decreasing and a permutation of the input |
| Stats.SortedEnds | measurement_summarizer.py:47-48 | after sorting, the first element is the minimum and the last is the maximum |
| Stats.PermutationMinMax | measurement_summary_collector.py:84-85 | min and max depend only on the multiset of values |
| Stats.SumPermutation | measurement_summarizer.py:50 | the sum depends only on the multiset of values |
| Stats.Median | measurement_summary_collector.py:86 | for an odd number of values the median is one of them |
| Stats.Mean | measurement_summary_collector.py:87 | the mean times the number of values is their sum |
| Stats.MedianBounds | measurement_summary_collector.py:86 | `min <= statistics.median <= max` |
| Stats.UpperMedianBounds | measurement_summarizer.py:49 | the element at index `n / 2` of the sorted list lies between min and max |
| Stats.MeanBounds | measurement_summary_collector.py:87 | `min <= mean <= max` |
| Stats.MeanBetween | measurement_summarizer.py:50 | values inside `[lo, hi]` have their mean inside `[lo, hi]` |
| Stats.MedianSingleton | extract_historical_daily.py:207-210 | the median of one value is that value |
| Stats.SortPermutation | measurement_summarizer.py:37 | sorting depends only on the multiset of values |
| Stats.MedianPermutation | measurement_summary_collector.py:86 | the median depends only on the multiset of values |
| Stats.MeanPermutation | measurement_summary_collector.py:87 | the mean depends only on the multiset of values |
| Packet.HexDigit | measurement_collector.py:45 | each nibble becomes one upper-case hexadecimal digit |
| Packet.MacAddress | measurement_buffer.py:34-36 | two upper-case hex digits per byte, so the length is `2 * n` |
| Packet.HexDigitRoundTrip | measurement_collector.py:45 | reading a hex digit back gives its nibble |
| Packet.MacAddressRoundTrip | measurement_collector.py:43-45 | decoding the digit pairs gives back the original bytes |
| Packet.MacAddressInjective | measurement_buffer.py:34-36 | different MAC addresses never share a sensor identifier |
| Packet.DecodersKeepMissing | measurement_collector.py:48-74 | a decoded reading is missing exactly when its raw field is missing |
| Packet.TemperatureAsWritten | measurement_collector.py:48-53 | `extract_temperature` as written: missing exactly when the raw field is; a raw 0 is returned as 0.0; any other reading converts back to the raw value |
| Packet.Temperature | measurement_collector.py:48-53 | the intended conversion: missing exactly when the raw field is; every present reading, zero included, converts back to the raw value |
| Packet.Humidity | measurement_collector.py:63-67 | missing exactly when the raw field is; otherwise percent times 10000 is the raw ppm |
| Packet.Pressure | measurement_collector.py:56-60 | missing exactly when the raw field is; otherwise hPa times 100 is the raw Pa |
| Packet.BatteryVoltage | measurement_collector.py:70-74 | missing exactly when the raw field is; otherwise volts times 1000 is the raw mV |
| Packet.TemperatureRoundTrip | measurement_collector.py:48-53 | every present temperature is `mk / 1000 - 273.15` and converts back to the raw value |
| Packet.ScaledDecodersRoundTrip | measurement_collector.py:56-74 | humidity `ppm / 10000`, pressure `Pa / 100` and voltage `mV / 1000` for every present reading, zero included; each converts back |
| Packet.TemperatureZeroPassThrough | measurement_buffer.py:39-43 | the decoder as written returns 0.0 for a raw 0 mK, which is also what 273150 mK decodes to; it agrees with the conversion on every other reading |
| MeasurementBuffer.Prune | measurement_buffer.py:28-31 | after the delete no row is older than the cutoff, and every row at or after it is kept unchanged |
| MeasurementBuffer.Since | measurement_buffer.py:75-77 | exactly the rows with `recorded_at >= cutoff`, with their values |
| MeasurementBuffer.EntriesForMembership | measurement_buffer.py:80-89 | a sensor's list holds exactly the entries of that sensor's rows |
| MeasurementBuffer.EntriesForAscending | measurement_buffer.py:75-89 | rows in time order with distinct keys give each sensor a strictly ascending list |
| MeasurementBuffer.GroupBySensor | measurement_buffer.py:80-89 | the grouping loop leaves one list per sensor seen, holding that sensor's entries in row order |
| MeasurementBuffer.GroupedAscending | measurement_buffer.py:75-89 | every grouped list is strictly ascending in `recorded_at` |
| MeasurementBuffer.GroupedSound | measurement_buffer.py:80-89 | every grouped entry is a row of the table, with its values |
| MeasurementBuffer.GroupedComplete | measurement_buffer.py:80-89 | every row of the table appears in its sensor's list |
| MeasurementBuffer.GroupedSensors | measurement_buffer.py:80-89 | a sensor has a list exactly when it has a row; sensors without recent rows are absent |
| MeasurementBuffer.GroupedTable | measurement_buffer.py:75-91 | grouping the time-ordered rows of a table answers for that table |
| MeasurementBuffer.RecentMeasurements | measurement_buffer.py:71-91 | the answer covers exactly the rows of the last hour, grouped per sensor, each list ascending |
| MeasurementBuffer.ServesMeasurementsIffPath | measurement_buffer.py:96 | the endpoint test accepts a path exactly when its part before `?` is `/measurements.json` |
| MeasurementBuffer.Buffer.constructor | measurement_buffer.py:17-24 | a new buffer has an empty table |
| MeasurementBuffer.Buffer.CleanupOldEntries | measurement_buffer.py:28-31 | the table loses exactly its rows older than `now - 87300`; afterwards every row is at most that old |
| MeasurementBuffer.Buffer.Handle | measurement_buffer.py:53-68 | the readings are decoded as written (a raw 0 mK is stored as 0.0); nothing is written when temperature or humidity is missing; a second row for the same sensor and second fails on the key; otherwise the row is inserted at `(now, sensor)`, the table is pruned, and the new row stays |
| MeasurementBuffer.Buffer.MeasurementsJson | measurement_buffer.py:71-91 | the last hour of the current table, grouped per sensor in ascending time |
| MeasurementBuffer.Buffer.Get | measurement_buffer.py:95-103 | JSON is answered exactly for the endpoint path, with or without a query; every other path gets 404 |
| MeasurementCollector.Position | measurement_collector.py:98 | each quantity comes exactly once in the loop order |
| MeasurementCollector.Threshold | measurement_collector.py:77-82 | the relative tolerances 0.02, 0.03, 0.1 and 0.05 all lie strictly between 0 and 1 |
| MeasurementCollector.IsClose | measurement_collector.py:116-117 | equal values are close for any tolerance `>= 0`; different values are close only for a positive tolerance |
| MeasurementCollector.Persisted | measurement_collector.py:101-127 | when the step succeeds the new value sits at `(now, sensor)` |
| MeasurementCollector.IsCloseSymmetric | measurement_collector.py:116-117 | `math.isclose` with a relative tolerance is symmetric and reflexive |
| MeasurementCollector.IsCloseToZero | measurement_collector.py:116-117 | with a tolerance below one, only zero is close to zero |
| MeasurementCollector.IsCloseSign | measurement_collector.py:116-117 | with a tolerance below one, close values share their sign |
| MeasurementCollector.SensorRows | measurement_collector.py:101-104 | exactly the rows of one sensor, with their values |
| MeasurementCollector.LastTwoUnique | measurement_collector.py:101-104 | the latest and second-latest rows are determined by the table |
| MeasurementCollector.LatestRows | measurement_collector.py:101-109 | a sensor's rows in time order end with its latest two rows |
| MeasurementCollector.LastTwoListed | measurement_collector.py:105 | a sensor with a latest and a second-latest row has at least two rows |
| MeasurementCollector.PersistQuantity | measurement_collector.py:98-127 | one quantity's step: with two recent rows and a close value the latest row is deleted, then the new value is upserted; a NULL comparison fails the step |
| MeasurementCollector.FewRowsNoDelete | measurement_collector.py:101-105 | with fewer than two earlier rows nothing is deleted before the upsert |
| MeasurementCollector.PersistedDeletesOnPlateau | measurement_collector.py:105-121 | the step fails exactly on a recent pair with a NULL operand; on success the latest row is deleted exactly when both gaps are under an hour and the values are close |
| MeasurementCollector.PersistedShape | measurement_collector.py:119-127 | the new value is at `(now, sensor)`, every other row is an earlier row with its value, other sensors are untouched, and the sensor's row count grows by at most one |
| MeasurementCollector.PersistTables | measurement_collector.py:92-127 | the loop over the four quantities, with the readings decoded as written, succeeds exactly when every step does, and then each table is its step's result |
| MeasurementCollector.Collector.constructor | measurement_collector.py:32-40 | a new database has four empty quantity tables and no sensors |
| MeasurementCollector.Collector.Persist | measurement_collector.py:85-128 | a commit happens exactly when every quantity's step succeeds; then `last_seen_at` is upserted and each table is its step's result, otherwise nothing changes |
| MeasurementSummarizer.QuantitiesDistinct | measurement_summarizer.py:56-62 | each of the five types comes once in the loop |
| MeasurementSummarizer.PeriodStart | measurement_summarizer.py:26 | the period start is a multiple of the width, at most the instant, and less than one width before it |
| MeasurementSummarizer.SensorSince | measurement_summarizer.py:31 | exactly the sensor's rows with `recorded_at >= period_start` (there is no upper bound) |
| MeasurementSummarizer.Column | measurement_summarizer.py:31 | one value per selected row |
| MeasurementSummarizer.SummaryOfPermutation | measurement_summarizer.py:37-50 | the summary row depends only on the multiset of values |
| MeasurementSummarizer.SummaryOf | measurement_summarizer.py:37-50 | the minimum, maximum and median written are values of the period |
| MeasurementSummarizer.SummaryOfBounds | measurement_summarizer.py:37-50 | the row holds min, max, the element at index `n / 2` and the mean; `min <= median <= max` and `min <= mean <= max` |
| MeasurementSummarizer.ColumnPermutation | measurement_summarizer.py:31 | permuted rows give a permuted column |
| MeasurementSummarizer.SummaryDeterministic | measurement_summarizer.py:31-50 | a sensor's summary does not depend on the order the query returns its rows in |
| MeasurementSummarizer.SummarizedSkipsSilentSensors | measurement_summarizer.py:33-35 | a sensor with no values in the period gets no row written |
| MeasurementSummarizer.SummarizedIdempotent | measurement_summarizer.py:39-44 | re-running a period on unchanged data leaves the table unchanged |
| MeasurementSummarizer.SummarizeSensor | measurement_summarizer.py:30-52 | a sensor with values gets its summary upserted at `(period_start, sensor)`; one without leaves the table as it was |
| MeasurementSummarizer.SummarizeSensors | measurement_summarizer.py:28-52 | every sensor with values since the period start has its summary at `(period_start, sensor)`, and every other row is as before |
| MeasurementSummarizer.SummarizedAll | measurement_summarizer.py:28-30 | covering every distinct sensor of the table covers every sensor with values |
| MeasurementSummarizer.SummarizedStep | measurement_summarizer.py:30-52 | one more sensor extends the loop invariant |
| MeasurementSummarizer.SummarizeTable | measurement_summarizer.py:25-52 | the table of one type and period is summarized and no other table changes |
| MeasurementSummarizer.TablesUpdatedStep | measurement_summarizer.py:56-64 | one more type, its table created when missing, extends the per-type invariant |
| MeasurementSummarizer.PeriodSummarizedStep | measurement_summarizer.py:63-64 | creating and summarizing one more type's table extends the period invariant |
| MeasurementSummarizer.SummarizeAllQuantities | measurement_summarizer.py:55-64 | exactly the five types' tables for the period are created if missing and summarized; no other table changes |
| MeasurementSummarizer.Database.constructor | measurement_summarizer.py:67-70 | the database starts with its measurement table and no summary tables |
| MeasurementSummarizer.Database.SummarizePeriodContaining | measurement_summarizer.py:25-52 | the existing table of one type is summarized, the measurement table is read only, other tables are unchanged |
| MeasurementSummarizer.Database.SummarizeSinglePeriod | measurement_summarizer.py:55-64 | all five types are summarized for one period width |
| MeasurementSummarizer.Database.SummarizeStandardPeriods | measurement_summarizer.py:67-73 | the 3600, 43200 and 86400 second periods are summarized in turn, each at its own clock reading |
| MeasurementSummaryCollector.CalculateStatistics | measurement_summary_collector.py:74-88 | all four statistics are `None` exactly for no values; otherwise min and max are values that bound all others, `min <= median <= max` and `min <= mean <= max` |
| MeasurementSummaryCollector.StatisticsIgnoreOrder | measurement_summary_collector.py:74-88 | the statistics depend only on the multiset of values |
| MeasurementSummaryCollector.Present | measurement_summary_collector.py:117 | the present values, each as often as it occurs, and nothing else |
| MeasurementSummaryCollector.Values | measurement_summary_collector.py:117 | a value is kept exactly when some reading carries it; missing and `null` readings are dropped |
| MeasurementSummaryCollector.ValuesEmpty | measurement_summary_collector.py:117-118 | a sensor has no values exactly when every reading lacks the measure |
| MeasurementSummaryCollector.PreviousHourRange | measurement_summary_collector.py:91-96 | the range ends at the start of the current hour and is one hour long |
| MeasurementSummaryCollector.PreviousDayRange | measurement_summary_collector.py:99-104 | the range ends at the start of the current day and is one day long |
| MeasurementSummaryCollector.PreviousHourIsHourBefore | measurement_summary_collector.py:91-96 | the range is the aligned hour containing the instant one hour before now |
| MeasurementSummaryCollector.PreviousDayIsDayBefore | measurement_summary_collector.py:99-104 | the range is the aligned day containing the instant one day before now |
| MeasurementSummaryCollector.CollectedRow | measurement_summary_collector.py:116-123 | a covered sensor's row holds the statistics of its fetched values |
| MeasurementSummaryCollector.CollectedIdempotent | measurement_summary_collector.py:48-61 | collecting the same data twice leaves the table as the first run left it |
| MeasurementSummaryCollector.CollectedRowsBounded | measurement_summary_collector.py:116-123 | every written row is all-NULL exactly when the sensor had no values, and otherwise ordered min <= median, mean <= max |
| MeasurementSummaryCollector.CollectedStep | measurement_summary_collector.py:116-123 | upserting one more sensor's statistics extends the loop invariant |
| MeasurementSummaryCollector.CollectSummaries | measurement_summary_collector.py:116-125 | every fetched sensor gets exactly one temperature row and one humidity row at `(start, sensor)`, replacing any earlier row; nothing else changes |
| MeasurementSummaryCollector.SummaryDatabase.constructor | measurement_summary_collector.py:41-45 | the four summary tables start empty |
| MeasurementSummaryCollector.SummaryDatabase.CollectHourlySummaries | measurement_summary_collector.py:107-126 | a failed fetch writes nothing; otherwise every fetched sensor gets its hourly rows at the previous hour's start; the daily tables are untouched |
| MeasurementSummaryCollector.SummaryDatabase.CollectDailySummaries | measurement_summary_collector.py:129-148 | a failed fetch writes nothing; otherwise every fetched sensor gets its daily rows at the previous day's start; the hourly tables are untouched |
| MeasurementSummaryCollector.Scheduler.constructor | measurement_summary_collector.py:159-164 | the state records the start-up reading, so a step at that reading fires nothing |
| MeasurementSummaryCollector.Scheduler.Step | measurement_summary_collector.py:182-191 | hourly fires iff the hour changed and daily iff the day of year or the year changed; afterwards the state records the reading |
| MeasurementSummaryCollector.MainLoopPass | measurement_summary_collector.py:175-193 | one pass fires the collections the step selects; each writes its tables from its fetch, and tables of a collection that did not fire or whose fetch failed are unchanged |
| MeasurementBrowser.RoundToMinute | measurement_browser.py:40-41 | seconds are zeroed: the result is a whole minute at most `t` and less than a minute before it |
| MeasurementBrowser.RoundToMinuteKeepsMinute | measurement_browser.py:40-41 | rounding keeps the minute and is idempotent |
| MeasurementBrowser.ResolveWindow | measurement_browser.py:154-163 | the width is one of 60, 3600, 10800 or 86400 |
| MeasurementBrowser.ResolveWindowMonotonic | measurement_browser.py:154-163 | a longer span never gets a narrower bucket |
| MeasurementBrowser.ResolveWindowBucketCount | measurement_browser.py:154-163 | below 32 days the chosen width gives fewer than 1440 buckets |
| MeasurementBrowser.TypePrefix | measurement_browser.py:166 | the longest prefix of at most `limit` characters from `[a-z_]` |
| MeasurementBrowser.MeasurementType | measurement_browser.py:166-170 | `None` exactly when the parameter does not start with `[a-z_]`; otherwise a prefix of 1 to 20 characters from `[a-z_]`, as long as the match can be |
| MeasurementBrowser.MeasurementTypeIsSafe | measurement_browser.py:166-170 | the type spliced into a table name holds no dot, quote, space or semicolon |
| MeasurementBrowser.StripDotDot | measurement_browser.py:255 | removing `..` pairs never lengthens the path or adds characters |
| MeasurementBrowser.StripDotDotLeavesNoDotDot | measurement_browser.py:255 | after the replacement no `..` is left |
| MeasurementBrowser.LastSegment | measurement_browser.py:262 | the text after the last `/`: a suffix without `/` |
| MeasurementBrowser.Authority | measurement_browser.py:256 | the network location ends at the first `/`, `?` or `#` |
| MeasurementBrowser.WithoutNetloc | measurement_browser.py:256 | `urlsplit` removes a leading `//host` and keeps every other target |
| MeasurementBrowser.WithoutParams | measurement_browser.py:256 | `_splitparams` cuts the last segment at its first `;` and keeps earlier segments |
| MeasurementBrowser.UrlPath | measurement_browser.py:256 | the path is a prefix of the text before the query, and its last segment holds no `;` |
| MeasurementBrowser.UrlQuery | measurement_browser.py:256 | the query is the text after the first `?` before the fragment, or empty when there is no `?` |
| MeasurementBrowser.UrlSplitsParams | measurement_browser.py:256 | for `/name;params?query` the path is `/name` and the query is `query` |
| MeasurementBrowser.UrlPathNoDotDot | measurement_browser.py:255-256 | the parsed path is a slice of the target, so it holds no `..` when the target holds none |
| MeasurementBrowser.Route | measurement_browser.py:253-278 | a static file is either `/index.html` or the request path as received |
| MeasurementBrowser.Allowed | measurement_browser.py:266-278 | an allow-listed path is never refused; it answers the measurements query exactly when it ends in `measurements.json`, and the summaries query when it ends in `summaries.json` and not in `measurements.json` |
| MeasurementBrowser.RouteGate | measurement_browser.py:255-264 | a request is refused exactly when its parsed path (netloc, query, fragment and `;` parameters cut off) is not the root and its last segment is not allow-listed; the path checked holds no `..` |
| MeasurementBrowser.EndpointIgnoresParams | measurement_browser.py:256-278 | `/measurements.json;x?q` and `/summaries.json;x?q` are answered with the query `q`, as `urlparse` splits the parameters off |
| MeasurementBrowser.NetlocOnlyIsRoot | measurement_browser.py:256-260 | a target `//host` has an empty path and gets the index page |
| MeasurementBrowser.RouteQueries | measurement_browser.py:262-278 | each JSON endpoint is reached only through its own allow-listed name |
| MeasurementBrowser.AllowedEndings | measurement_browser.py:13-22 | no other allow-listed name ends in a JSON endpoint's name |
| MeasurementMatrix.LastIndex | measurement_browser.py:68-70 | the last row in a bucket, or none; no later row is in that bucket |
| MeasurementMatrix.LastIndexIsLatest | measurement_browser.py:61-70 | over one sensor's rows in time order, the last row of a bucket is its latest reading, and there is none exactly when the bucket is empty |
| MeasurementMatrix.WrittenKeepsLast | measurement_browser.py:68-70 | after the writes each bucket keeps the value of its last row and other entries are unchanged |
| MeasurementMatrix.WriteBuckets | measurement_browser.py:61-70 | the loop writes each row's value to its bucket's entry, in row order |
| MeasurementMatrix.CollectSensorValues | measurement_browser.py:60-70 | afterwards each bucket of the sensor holds its latest reading's value or nothing, and other sensors' entries are unchanged |
| MeasurementMatrix.CollectedCells | measurement_browser.py:60-70 | the entries left by the loop are the sensor's cells |
| MeasurementMatrix.BucketAxis | measurement_browser.py:48-57 | the axis is strictly increasing and holds exactly the floored times of the readings in `[start, end)` |
| MeasurementMatrix.AlignRow | measurement_browser.py:72-78 | a sensor row has one entry per axis point, the stored value or `None` |
| MeasurementMatrix.AlignedMatrix | measurement_browser.py:44-80 | axis as above, one row per sensor as long as the axis, and each cell is the sensor's latest reading in that bucket or `None` |
| MeasurementMatrix.ResultMatrixFromMeasurements | measurement_browser.py:44-80 | the aligned matrix over minute buckets |
| MeasurementMatrix.CellUnique | measurement_browser.py:68-70 | a cell is determined by the table |
| MeasurementMatrix.CellGapIffNoReading | measurement_browser.py:72-78 | with no NULL values stored, a cell is `None` exactly when the sensor has no reading in that bucket |
| MeasurementMatrix.ExactCell | measurement_browser.py:215-222 | with width-1 buckets a cell is the value stored at exactly that time |
| MeasurementMatrix.ResultMatrixFromHourlySummaries | measurement_browser.py:195-226 | the axis is the distinct period starts in `[start, end)`, increasing; each cell is the sensor's value at that start or `None` |
| MeasurementMatrix.BucketEnd | measurement_browser.py:142-145 | `min(starts_at + window, now)` |
| MeasurementMatrix.SummaryCell | measurement_browser.py:87-92 | a joined column is NULL exactly when the sensor has no row at that start |
| MeasurementMatrix.AppendSummaryCells | measurement_browser.py:148-149 | each of the three rows per sensor gains that sensor's min, max or mean |
| MeasurementMatrix.AppendedAxis | measurement_browser.py:142-147 | one more x value extends the axis invariant |
| MeasurementMatrix.AppendedCells | measurement_browser.py:148-149 | one more set of joined columns extends the cell invariant |
| MeasurementMatrix.ResultMatrixFromSummaries | measurement_browser.py:128-151 | `3 * |sensors|` rows as long as the axis; one column per summary row in `[start, end)`, in whatever order the query returns them, x being the clamped bucket end, cells the joined min/max/mean |
| HistoricalDaily.DetectSchemaType | extract_historical_daily.py:69-87 | each layout is detected exactly under its condition, tried in the fixed order, summary collector first |
| HistoricalDaily.HourKey | extract_historical_daily.py:98-100 | a whole hour at most `t` and less than an hour before it |
| HistoricalDaily.HourKeyTruncates | extract_historical_daily.py:98-100 | the hour key is a whole hour at most `t`, less than an hour before it, and idempotent |
| HistoricalDaily.DayStartFromTs | extract_historical_daily.py:111-114 | `(t // 86400) * 86400` is a multiple of a day, at most `t` and within a day of it |
| HistoricalDaily.Present | extract_historical_daily.py:148-153 | `WHERE value IS NOT NULL`: exactly the rows with a value |
| HistoricalDaily.GroupKeysMembership | extract_historical_daily.py:158-162 | the groups are exactly the (period, sensor) buckets of the rows |
| HistoricalDaily.GroupKeysAligned | extract_historical_daily.py:158-162 | every group starts at a multiple of the period width |
| HistoricalDaily.GroupValues | extract_historical_daily.py:198-202 | a group's list is empty exactly when the group does not exist |
| HistoricalDaily.GroupStep | extract_historical_daily.py:199-202 | one more row adds its group and appends its value there |
| HistoricalDaily.GroupValuesAppend | extract_historical_daily.py:198-202 | grouping concatenated rows concatenates each group's lists |
| HistoricalDaily.GroupValuesPermutation | extract_historical_daily.py:273-277 | each group holds the same values whatever order the rows come in |
| HistoricalDaily.GroupBy | extract_historical_daily.py:198-202 | the grouping loop leaves one list per bucket, holding the bucket's values in row order |
| HistoricalDaily.DailyOfBounds | extract_historical_daily.py:281-286 | a daily entry holds min, max and median; the extremes are values bounding all others and the median lies between them |
| HistoricalDaily.DailyOfPermutation | extract_historical_daily.py:281-286 | the daily statistics depend only on the multiset of values |
| HistoricalDaily.Daily | extract_historical_daily.py:270-288 | one entry per (day start, sensor) group of the rows |
| HistoricalDaily.DailyBounds | extract_historical_daily.py:270-288 | each entry's day is a multiple of 86400 and `min <= median <= max` |
| HistoricalDaily.DailyPermutation | extract_historical_daily.py:270-288 | the daily aggregation does not depend on the order of the hourly rows |
| HistoricalDaily.GroupKeysPermutation | extract_historical_daily.py:273-277 | permuted rows have the same groups |
| HistoricalDaily.DailyAtPermutation | extract_historical_daily.py:279-286 | one group's statistics are the same under a permutation of the rows |
| HistoricalDaily.DailyEmpty | extract_historical_daily.py:270-288 | no hourly rows give no daily entries |
| HistoricalDaily.DailyFromGroupsOfRows | extract_historical_daily.py:270-288 | grouping by day and taking each group's statistics is the daily aggregation |
| HistoricalDaily.FillDaily | extract_historical_daily.py:280-286 | the loop fills in the statistics of every group |
| HistoricalDaily.FillStep | extract_historical_daily.py:281-286 | one more group adds its statistics |
| HistoricalDaily.AggregateToDaily | extract_historical_daily.py:270-288 | the result is the daily aggregation of the hourly rows |
| HistoricalDaily.SensorHourStrictTotal | extract_historical_daily.py:166-168 | ordering by sensor, then hour, is a strict total order |
| HistoricalDaily.HourSensorStrictTotal | extract_historical_daily.py:206 | ordering by hour, then sensor, is a strict total order |
| HistoricalDaily.OutputStrictTotal | extract_historical_daily.py:341 | ordering by day, sensor, then type is a strict total order |
| HistoricalDaily.RowsOfAt | extract_historical_daily.py:165-171 | row `i` of the listing is key `i` with its value |
| HistoricalDaily.HourlyListingKeys | extract_historical_daily.py:164-171 | row `i` of the hourly rows is the `i`-th group in the listing order |
| HistoricalDaily.HourlyListingOrdered | extract_historical_daily.py:166-168 | the hourly rows come in the listing order, so no (hour, sensor) repeats |
| HistoricalDaily.HourlyListingCovers | extract_historical_daily.py:158-171 | there is an hourly row for exactly the (hour, sensor) groups |
| HistoricalDaily.HourlyListingMedians | extract_historical_daily.py:164-171 | every hourly row is a whole hour holding that hour's median, between its min and max |
| HistoricalDaily.HourlyMedianOf | extract_historical_daily.py:169-171 | a group's row holds its median at a whole hour |
| HistoricalDaily.Selected | extract_historical_daily.py:142-153 | every selected row is a non-NULL record of an existing table with that column, and every such record is selected; a missing table or column selects nothing |
| HistoricalDaily.LegacySummaryRows | extract_historical_daily.py:117-137 | a database without the legacy table gives no rows |
| HistoricalDaily.SummaryCollectorRows | extract_historical_daily.py:216-243 | the hourly table is preferred, the daily one is the fallback, and neither gives no rows |
| HistoricalDaily.AggregatedValueIsMedian | extract_historical_daily.py:207-210 | taking a lone value as it is equals its median |
| HistoricalDaily.ListMedians | extract_historical_daily.py:165-171 | one row per key in order, holding the group's median |
| HistoricalDaily.ListAggregated | extract_historical_daily.py:205-211 | one row per key in order, holding the group's median (a lone value kept as it is) |
| HistoricalDaily.ExtractIndividualValue | extract_historical_daily.py:140-173 | one median row per (sensor, hour) group, ordered by sensor, then hour |
| HistoricalDaily.ExtractAggregated | extract_historical_daily.py:176-213 | one median row per (hour, sensor) group, ordered by hour, then sensor |
| HistoricalDaily.ExtractHourlyData | extract_historical_daily.py:246-267 | the detected layout and the rows that layout's extractor gives; none for an unknown layout |
| HistoricalDaily.Tagged | extract_historical_daily.py:332-334 | daily entries keyed by (day, sensor, type), with their values |
| HistoricalDaily.ContributionEntries | extract_historical_daily.py:313-334 | a file contributes exactly its daily entries for the type; a missing file contributes nothing |
| HistoricalDaily.ContributionTyped | extract_historical_daily.py:332-334 | every contributed entry carries its measurement type |
| HistoricalDaily.MergeInto | extract_historical_daily.py:331-334 | every daily entry overwrites the entry of its key |
| HistoricalDaily.MergeStep | extract_historical_daily.py:332-334 | merging one more entry overwrites its key |
| HistoricalDaily.MergeFile | extract_historical_daily.py:313-334 | a missing file or a file without rows changes nothing; otherwise its daily entries overwrite |
| HistoricalDaily.ContributionOf | extract_historical_daily.py:319-328 | the loop's daily statistics are the file's contribution |
| HistoricalDaily.MergedOverStep | extract_historical_daily.py:313-334 | one more file merged in argument order |
| HistoricalDaily.MergedTypesStep | extract_historical_daily.py:309-334 | one more measurement type merged over all files |
| HistoricalDaily.ExtractAll | extract_historical_daily.py:305-334 | the result is all files merged in order for each type |
| HistoricalDaily.MergedOverLastWins | extract_historical_daily.py:312-334 | an entry comes from the last file that has it |
| HistoricalDaily.MergedOverUntouched | extract_historical_daily.py:312-334 | an entry no file has is left as it was |
| HistoricalDaily.MergedTypesLastWins | extract_historical_daily.py:309-334 | over all types, an entry holds what the last file with that day, sensor and type contributes |
| HistoricalDaily.MergedTypesNone | extract_historical_daily.py:309-334 | there is no entry for a key no file has |
| HistoricalDaily.ExtractedLastWins | extract_historical_daily.py:305-334 | later databases take precedence per (day, sensor, type) |
| HistoricalDaily.ExtractedNone | extract_historical_daily.py:305-334 | no entry appears that no database provides |
| HistoricalDaily.MeasurementTypesDistinct | extract_historical_daily.py:52 | the two measurement types are distinct |
| HistoricalDaily.SortedOutputKeys | extract_historical_daily.py:341 | the keys in increasing (day, sensor, type) order, each once |
| HistoricalDaily.EmitRows | extract_historical_daily.py:340-344 | every entry is emitted once with its statistics, in increasing (day, sensor, type) order |

## Left out

- Process plumbing is not modelled: asyncio socket loops, reconnection,
  timeouts and sleeps, the HTTP servers, argparse, logging, and progress and
  summary output on stderr. Clock readings and fetched documents are
  parameters.
- SQLite itself is not modelled: connections, `CREATE TABLE` text, the SQL
  string templates (`create_sql`, `create_summary_sql`, `table_name`,
  `summary_table_name`) and `get_tables`/`get_table_columns`. Tables are maps
  keyed by their primary key. In the historical extractor, table names are
  the `TableName` constructors and columns are the `Column` constructors.
- A `measurement` row with more columns than the model needs is reduced to
  the columns the script reads.
- Local time, DST and ISO parsing (`fromisoformat`, `parse_timestamp`,
  `fromtimestamp`, `timestamp()`) are not modelled. Timestamps are integer
  epoch seconds in UTC.
- `day_start_unix` on a datetime is `DayStartFromTs` on the epoch seconds.
- IEEE floats are not modelled. Readings are `real`. `round(x, 2)` in
  `aggregate_to_daily` is left out, and so are the rounding error of
  `- 273.15` and the `abs_tol` and infinity cases of `math.isclose`.
- The buffer's `threading.Lock` and HTTP thread are left out, because the
  model is single-threaded.
- The `except Exception` path of `extract_hourly_data` is not a separate
  case. A query of a missing column yields no rows (`Selected`), which is what
  that path returns. The `'error'` schema label it reports is not modelled.
- Missing database files are `None` in the list of files.
- JSON encoding and decoding and `stringify` are not modelled. The answer of
  `get_measurements_json` is the per-sensor map before `json.dumps`.
- `json_query` and `summary_json_query` as a whole are left out: integer
  parsing of `start`/`end`, the sorted sensor list, and writing the
  response. Their parts are modelled: `MeasurementType`, `ResolveWindow` and
  the matrix builders. `json_query` computes the window but does not use it,
  and `result_matrix_from_summaries` is not called from anywhere. It is
  modelled on its own.
- `MeasurementBrowser.Route` hands static files to the file server as a
  response value. Serving the file is left out.
- `MeasurementBrowser.UrlPath` treats every request target as having no
  scheme, which holds for the origin-form targets (`/...`) browsers send.
  It does not model a target that `urlsplit` reads as having a scheme
  (`http://host/...`, `a:b`). It also does not model the leading control
  characters and tab or newline characters that `urlsplit` strips, or the
  `ValueError` raised for a malformed `[` in the network location.
- `MeasurementCollector.Collector.Persist`: the source upserts the sensor's
  `last_seen_at` before the quantity loop. A `TypeError` raised inside the
  loop escapes before `commit` and closes the connection, so the model
  discards the whole advertisement's work.
- `MeasurementCollector.PersistQuantity`: the source reads the stored
  `recorded_at` back through `fromisoformat`. The model compares integer
  seconds directly.
- `MeasurementSummarizer.SummarizeTable` and the other summarizer members
  require a positive period width. `t % 0` raises in the source.
- `MeasurementSummarizer.Sample` types all five columns of `measurement`
  as non-NULL reals, so the model assumes every column exists and no value
  is NULL. The collector's decoders can leave a reading NULL. In the source a NULL among a
  sensor's values makes `values.sort()` (measurement_summarizer.py:37) or,
  for a lone NULL, `sum(values)` (:50) raise `TypeError`. A missing column
  makes the `SELECT` (:31) raise `OperationalError`. Either aborts `main`
  with the rows of the sensors already handled committed (:52) and the
  remaining quantities and periods not summarized. The model does not
  capture that failure.
- `MeasurementSummarizer.SummarizeTable` states its result only for a
  table without NULLs, as `Sample` admits; the partial commit on a NULL is
  not modelled.
- `MeasurementSummarizer.Database.SummarizePeriodContaining` likewise
  states the new state only for a table without NULLs and with every
  column; the failure raised mid-loop after earlier commits is not
  modelled.
- `MeasurementSummarizer.Database.SummarizeStandardPeriods` takes the three
  clock readings of `main` as parameters, one per period.
- `HistoricalDaily.FillDaily` skips a group with an empty list. A group
  produced by the grouping loop is never empty (`GroupValues`).
- `measurement_buffer_live_client.py` and `star_schemify.py` are not part of
  this model.

## Findings

| source | as written | input that shows it | evidently intended | confidence | as-written member | corrected member |
|---|---|---|---|---|---|---|
| measurement_collector.py:48-53 (and measurement_buffer.py:39-43) | `if value:` skips the conversion for a raw reading of 0, so 0 mK is stored as 0.0 degrees | `temperature_as_millikelvins = 0` decodes to 0.0, the same value as `273150` | -273.15 degrees, as the comment at measurement_collector.py:51 computes | not executed; the decoders are short and the case analysis is exhaustive | Packet.TemperatureZeroPassThrough | Packet.TemperatureRoundTrip |

The buffer and the collector keep the decoder as written
(`Packet.TemperatureAsWritten`), so a raw 0 mK is stored and compared as
0.0 there, as in the source. `Packet.Temperature` is the corrected decoder,
with its round trip proved.
