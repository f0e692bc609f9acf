/** The recent-readings buffer: an in-memory `measurement` table fed by the
    radio bridge, pruned to the last 24h15m on every insert, and served as the
    last hour of readings grouped per sensor. The clock is a parameter `now`
    (integer epoch seconds); the lock is dropped because the model is
    single-threaded. */
module MeasurementBuffer {
  import opened Wrappers
  import opened Tables
  import opened Text
  import Packet

  /** The non-key columns of a `measurement` row. */
  datatype Climate = Climate(temperature: real, humidity: real)

  /** One element of a sensor's list in the JSON answer. */
  datatype Entry = Entry(recordedAt: int, temperature: real, humidity: real)

  /** Rows older than 24 hours and 15 minutes are deleted. */
  const MaxAge: int := 24 * 3600 + 15 * 60

  /** The JSON answer covers the last hour. */
  const RecentAge: int := 3600

  /** Every row is at most `MaxAge` old at time `now`. */
  ghost predicate Retained(t: map<Key, Climate>, now: int) {
    forall k :: k in t ==> now - MaxAge <= k.0
  }

  /** `DELETE FROM measurement WHERE recorded_at < cutoff`. */
  function Prune(t: map<Key, Climate>, cutoff: int): (r: map<Key, Climate>)
    ensures forall k :: k in r ==> cutoff <= k.0
    ensures forall k :: k in r ==> k in t && r[k] == t[k]
    ensures forall k :: k in t && cutoff <= k.0 ==> k in r
  {
    map k | k in t && cutoff <= k.0 :: t[k]
  }

  /** `SELECT ... WHERE recorded_at >= cutoff` (no upper bound). */
  function Since(t: map<Key, Climate>, cutoff: int): (r: map<Key, Climate>)
    ensures forall k :: k in r <==> k in t && cutoff <= k.0
    ensures forall k :: k in r ==> r[k] == t[k]
  {
    map k | k in t && cutoff <= k.0 :: t[k]
  }

  datatype HandleResult =
    | Skipped       // temperature or humidity missing: nothing is written
    | Inserted      // the row was inserted and old rows were pruned
    | DuplicateKey  // the plain INSERT hit the primary key: the statement fails

  function EntryOf(r: Row<Climate>): Entry {
    Entry(r.at, r.value.temperature, r.value.humidity)
  }

  /** The entries for `sensor`, in the order of `rows`: what the grouping loop
      appends to that sensor's list. */
  function EntriesFor(rows: seq<Row<Climate>>, sensor: string): seq<Entry> {
    if rows == [] then []
    else
      var last := rows[|rows| - 1];
      EntriesFor(rows[..|rows| - 1], sensor) + (if last.sensor == sensor then [EntryOf(last)] else [])
  }

  /** A sensor's list holds exactly the entries of that sensor's rows. */
  lemma {:induction false} EntriesForMembership(rows: seq<Row<Climate>>, sensor: string)
    ensures forall r :: r in rows && r.sensor == sensor ==> EntryOf(r) in EntriesFor(rows, sensor)
    ensures forall e :: e in EntriesFor(rows, sensor) ==>
      Row(e.recordedAt, sensor, Climate(e.temperature, e.humidity)) in rows
  {
    if rows != [] {
      var init := rows[..|rows| - 1];
      assert rows == init + [rows[|rows| - 1]];
      EntriesForMembership(init, sensor);
    }
  }

  predicate Ascending(es: seq<Entry>) {
    forall i, j :: 0 <= i < j < |es| ==> es[i].recordedAt < es[j].recordedAt
  }

  /** Rows in time order with distinct keys give every sensor a strictly
      ascending list. */
  lemma {:induction false} EntriesForAscending(rows: seq<Row<Climate>>, sensor: string)
    requires TimeOrdered(rows) && DistinctKeys(rows)
    ensures Ascending(EntriesFor(rows, sensor))
    ensures forall e :: e in EntriesFor(rows, sensor) ==> exists i :: 0 <= i < |rows| && rows[i] == Row(e.recordedAt, sensor, Climate(e.temperature, e.humidity))
  {
    if rows != [] {
      var init := rows[..|rows| - 1];
      var last := rows[|rows| - 1];
      assert rows == init + [last];
      EntriesForAscending(init, sensor);
      var es := EntriesFor(init, sensor);
      if last.sensor == sensor {
        forall e | e in es ensures e.recordedAt < last.at {
          EarlierEntry(rows, sensor, e);
        }
        assert forall i :: 0 <= i < |es| ==> es[i] in es;
      }
    }
  }

  /** An entry listed from the rows before the last one is older than the
      last row when both are of the same sensor. */
  lemma EarlierEntry(rows: seq<Row<Climate>>, sensor: string, e: Entry)
    requires TimeOrdered(rows) && DistinctKeys(rows) && rows != [] && rows[|rows| - 1].sensor == sensor
    requires exists i :: 0 <= i < |rows| - 1 && rows[i] == Row(e.recordedAt, sensor, Climate(e.temperature, e.humidity))
    ensures e.recordedAt < rows[|rows| - 1].at
  {
    var i :| 0 <= i < |rows| - 1 && rows[i] == Row(e.recordedAt, sensor, Climate(e.temperature, e.humidity));
    SameSensorStrictlyIncreasing(rows, i, |rows| - 1);
  }

  /** The loop of `get_measurements_json`: walks the rows in query order and
      appends each to its sensor's list, creating the list on first sight. */
  method GroupBySensor(rows: seq<Row<Climate>>) returns (m: map<string, seq<Entry>>)
    ensures forall s :: s in m <==> EntriesFor(rows, s) != []
    ensures forall s :: s in m ==> m[s] == EntriesFor(rows, s)
  {
    m := map[];
    var i := 0;
    while i < |rows|
      invariant 0 <= i <= |rows|
      invariant forall s :: s in m <==> EntriesFor(rows[..i], s) != []
      invariant forall s :: s in m ==> m[s] == EntriesFor(rows[..i], s)
    {
      var r := rows[i];
      assert rows[..i + 1][..i] == rows[..i];
      if r.sensor !in m {
        m := m[r.sensor := []];
      }
      m := m[r.sensor := m[r.sensor] + [EntryOf(r)]];
      i := i + 1;
    }
    assert rows[..i] == rows;
  }

  /** `m` is what the grouping loop leaves after walking `rows`. */
  ghost predicate GroupedFrom(m: map<string, seq<Entry>>, rows: seq<Row<Climate>>) {
    && (forall s :: s in m <==> EntriesFor(rows, s) != [])
    && (forall s :: s in m ==> m[s] == EntriesFor(rows, s))
  }

  /** Grouping time-ordered rows with distinct keys gives every sensor a
      strictly ascending list. */
  lemma GroupedAscending(m: map<string, seq<Entry>>, rows: seq<Row<Climate>>)
    requires TimeOrdered(rows) && DistinctKeys(rows) && GroupedFrom(m, rows)
    ensures AllAscending(m)
  {
    forall s | s in m
      ensures Ascending(m[s])
    {
      EntriesForAscending(rows, s);
    }
  }

  /** Every grouped entry is a row of the table, with its values. */
  lemma GroupedSound(m: map<string, seq<Entry>>, rows: seq<Row<Climate>>, t: map<Key, Climate>)
    requires Lists(rows, t, t.Keys) && GroupedFrom(m, rows)
    ensures EntriesSound(m, t)
  {
    forall s, e | s in m && e in m[s]
      ensures (e.recordedAt, s) in t && t[(e.recordedAt, s)] == Climate(e.temperature, e.humidity)
    {
      EntrySound(rows, t, s, e);
    }
  }

  lemma EntrySound(rows: seq<Row<Climate>>, t: map<Key, Climate>, s: string, e: Entry)
    requires Lists(rows, t, t.Keys) && e in EntriesFor(rows, s)
    ensures (e.recordedAt, s) in t && t[(e.recordedAt, s)] == Climate(e.temperature, e.humidity)
  {
    EntriesForMembership(rows, s);
    var r := Row(e.recordedAt, s, Climate(e.temperature, e.humidity));
    assert r in rows;
    assert r.Key() == (e.recordedAt, s);
  }

  /** Every row of the table appears in its sensor's list. */
  lemma GroupedComplete(m: map<string, seq<Entry>>, rows: seq<Row<Climate>>, t: map<Key, Climate>)
    requires Lists(rows, t, t.Keys) && GroupedFrom(m, rows)
    ensures EntriesComplete(m, t)
  {
    forall k | k in t
      ensures k.1 in m && Entry(k.0, t[k].temperature, t[k].humidity) in m[k.1]
    {
      EntriesForMembership(rows, k.1);
      var r := Row(k.0, k.1, t[k]);
      assert r in rows;
      assert EntryOf(r) in EntriesFor(rows, k.1);
    }
  }

  /** A sensor is listed exactly when it has at least one row. */
  lemma GroupedSensors(m: map<string, seq<Entry>>, rows: seq<Row<Climate>>, t: map<Key, Climate>)
    requires Lists(rows, t, t.Keys) && GroupedFrom(m, rows)
    ensures ListsEverySensor(m, t)
  {
    GroupedSound(m, rows, t);
    GroupedComplete(m, rows, t);
    forall s | s in m
      ensures exists k :: k in t && k.1 == s
    {
      var e := m[s][0];
      assert e in m[s];
      assert (e.recordedAt, s) in t;
    }
  }

  /** A sensor has a list exactly when it has at least one row. */
  ghost predicate ListsEverySensor(m: map<string, seq<Entry>>, t: map<Key, Climate>) {
    forall s :: s in m <==> exists k :: k in t && k.1 == s
  }

  predicate AllAscending(m: map<string, seq<Entry>>) {
    forall s :: s in m ==> Ascending(m[s])
  }

  /** Every listed entry is a row of `t`, with its values. */
  ghost predicate EntriesSound(m: map<string, seq<Entry>>, t: map<Key, Climate>) {
    forall s, e :: s in m && e in m[s] ==>
      (e.recordedAt, s) in t && t[(e.recordedAt, s)] == Climate(e.temperature, e.humidity)
  }

  /** Every row of `t` is listed under its sensor. */
  ghost predicate EntriesComplete(m: map<string, seq<Entry>>, t: map<Key, Climate>) {
    forall k :: k in t ==> k.1 in m && Entry(k.0, t[k].temperature, t[k].humidity) in m[k.1]
  }

  /** `m` is the JSON answer for table `t`: one list per sensor that has a
      row, each list holding exactly that sensor's rows, in ascending time. */
  ghost predicate GroupsTable(m: map<string, seq<Entry>>, t: map<Key, Climate>) {
    ListsEverySensor(m, t) && AllAscending(m) && EntriesSound(m, t) && EntriesComplete(m, t)
  }

  /** Grouping the rows of `t` in time order answers for `t`. */
  lemma GroupedTable(m: map<string, seq<Entry>>, rows: seq<Row<Climate>>, t: map<Key, Climate>)
    requires TimeOrdered(rows) && Lists(rows, t, t.Keys) && GroupedFrom(m, rows)
    ensures GroupsTable(m, t)
  {
    GroupedSensors(m, rows, t);
    GroupedAscending(m, rows);
    GroupedSound(m, rows, t);
    GroupedComplete(m, rows, t);
  }

  /** `get_measurements_json`: the rows of the last hour, grouped per sensor,
      each sensor's list in ascending time. */
  method RecentMeasurements(table: map<Key, Climate>, now: int) returns (m: map<string, seq<Entry>>)
    ensures GroupsTable(m, Since(table, now - RecentAge))
  {
    var recent := Since(table, now - RecentAge);
    var rows := OrderByTime(recent);
    m := GroupBySensor(rows);
    GroupedTable(m, rows, recent);
  }

  /** The one path the HTTP handler serves. */
  const Endpoint: string := "/measurements.json"

  /** The test in `do_GET`: the endpoint itself, or the endpoint followed by
      a query string. */
  predicate ServesMeasurements(path: string) {
    path == Endpoint || StartsWith(path, Endpoint + "?")
  }

  lemma EndpointHasNoQueryMark()
    ensures '?' !in Endpoint
  {
  }

  /** `do_GET` answers with JSON exactly when the request path up to its
      first `?` is the endpoint: any query is accepted, while a fragment, a
      trailing slash or a longer name is refused. */
  lemma {:induction false} ServesMeasurementsIffPath(path: string)
    ensures ServesMeasurements(path) <==> Before(path, '?') == Endpoint
  {
    var r := Before(path, '?');
    EndpointHasNoQueryMark();
    if StartsWith(path, Endpoint + "?") {
      assert path[|Endpoint|] == '?';
      assert r == path[..|r|];
    }
  }

  /** The HTTP answer: status 200 with the JSON document, or 404. */
  datatype Reply = Json(measurements: map<string, seq<Entry>>) | NotFound

  class Buffer {
    /** The `measurement` table, keyed by its primary key `(recorded_at, sensor)`. */
    var table: map<Key, Climate>

    constructor ()
      ensures table == map[]
    {
      table := map[];
    }

    /** `cleanup_old_entries`: deletes every row older than 24h15m. */
    method CleanupOldEntries(now: int)
      modifies this
      ensures table == Prune(old(table), now - MaxAge)
      ensures Retained(table, now)
    {
      table := Prune(table, now - MaxAge);
    }

    /** `handle`: decodes one advertisement and, when both temperature and
        humidity are present, inserts it at `(now, sensor)` and prunes. */
    method Handle(a: Packet.Advertisement, now: int) returns (result: HandleResult)
      modifies this
      ensures var temperature, humidity := Packet.TemperatureAsWritten(a), Packet.Humidity(a);
        result == Skipped <==> temperature.None? || humidity.None?
      ensures var key := (now, Packet.MacAddress(a.macAddress));
        result == DuplicateKey <==> result != Skipped && key in old(table)
      ensures result != Inserted ==> table == old(table)
      ensures result == Inserted ==>
        var key := (now, Packet.MacAddress(a.macAddress));
        var row := Climate(Packet.TemperatureAsWritten(a).value, Packet.Humidity(a).value);
        && table == Prune(old(table)[key := row], now - MaxAge)
        && key in table && table[key] == row
        && Retained(table, now)
    {
      var sensor := Packet.MacAddress(a.macAddress);
      var temperature := Packet.TemperatureAsWritten(a);
      var humidity := Packet.Humidity(a);
      if temperature.None? || humidity.None? {
        return Skipped;
      }
      if (now, sensor) in table {
        return DuplicateKey;
      }
      table := table[(now, sensor) := Climate(temperature.value, humidity.value)];
      CleanupOldEntries(now);
      result := Inserted;
    }

    /** `get_measurements_json` on the current table. */
    method MeasurementsJson(now: int) returns (m: map<string, seq<Entry>>)
      ensures GroupsTable(m, Since(table, now - RecentAge))
    {
      m := RecentMeasurements(table, now);
    }

    /** `BufferHandler.do_GET`: the last hour of readings for the endpoint,
        404 for every other path. */
    method Get(path: string, now: int) returns (reply: Reply)
      ensures reply.Json? <==> Before(path, '?') == Endpoint
      ensures reply.Json? ==> GroupsTable(reply.measurements, Since(table, now - RecentAge))
    {
      ServesMeasurementsIffPath(path);
      if ServesMeasurements(path) {
        var m := MeasurementsJson(now);
        reply := Json(m);
      } else {
        reply := NotFound;
      }
    }
  }
}
