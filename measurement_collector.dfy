/** The persisting collector: every advertisement updates the sensor's
    `last_seen_at` and, for each of four quantities, appends the decoded
    reading to that quantity's table after "plateau compaction": when the
    sensor's last two rows are less than an hour apart, the last one is less
    than an hour old and the new value is relatively close to it, the last
    row is deleted first, so a steady reading keeps only the ends of its run.
    The clock is the parameter `now` (integer epoch seconds). */
module MeasurementCollector {
  import opened Wrappers
  import opened Tables
  import opened Epoch
  import Packet

  /** The `measurement_<quantity>` tables, in the order `persist` visits them. */
  datatype Quantity = Temperature | Pressure | Humidity | Voltage

  const Quantities: seq<Quantity> := [Temperature, Pressure, Humidity, Voltage]

  /** Where `q` comes in `Quantities`: each quantity exactly once. */
  function Position(q: Quantity): (i: nat)
    ensures i < |Quantities| && Quantities[i] == q
    ensures forall j :: 0 <= j < |Quantities| && Quantities[j] == q ==> j == i
  {
    match q
    case Temperature => 0
    case Pressure => 1
    case Humidity => 2
    case Voltage => 3
  }

  /** A `measurement_<quantity>` table; its `value` column is nullable. */
  type Table = map<Key, Option<real>>

  /** `QUANTITY_CHANGE_THRESHOLD`: the relative tolerance per quantity. */
  function Threshold(q: Quantity): (tol: real)
    ensures 0.0 < tol < 1.0
  {
    match q
    case Temperature => 0.02
    case Pressure => 0.03
    case Humidity => 0.1
    case Voltage => 0.05
  }

  /** The decoded reading `persist` stores for `q`. */
  function ValueFor(a: Packet.Advertisement, q: Quantity): Option<real> {
    match q
    case Temperature => Packet.TemperatureAsWritten(a)
    case Pressure => Packet.Pressure(a)
    case Humidity => Packet.Humidity(a)
    case Voltage => Packet.BatteryVoltage(a)
  }

  function Abs(x: real): real {
    if x < 0.0 then -x else x
  }

  /** The larger of the two magnitudes. */
  function Larger(a: real, b: real): real {
    if Abs(a) < Abs(b) then Abs(b) else Abs(a)
  }

  /** `math.isclose(a, b, rel_tol=tol)` with the default `abs_tol` of zero. */
  predicate IsClose(a: real, b: real, tol: real): (close: bool)
    ensures 0.0 <= tol && a == b ==> close
    ensures close && a != b ==> 0.0 < tol
  {
    Abs(a - b) <= tol * Larger(a, b)
  }

  /** Closeness is symmetric and reflexive. */
  lemma IsCloseSymmetric(a: real, b: real, tol: real)
    requires 0.0 < tol
    ensures IsClose(a, b, tol) <==> IsClose(b, a, tol)
    ensures IsClose(a, a, tol)
  {
    assert Abs(a - b) == Abs(b - a) && Larger(a, b) == Larger(b, a);
  }

  /** With a tolerance below one nothing but zero is close to zero. */
  lemma IsCloseToZero(b: real, tol: real)
    requires 0.0 < tol < 1.0
    ensures IsClose(0.0, b, tol) <==> b == 0.0
  {
    if b != 0.0 && IsClose(0.0, b, tol) {
      WithinScaled(Abs(0.0 - b), Larger(0.0, b), tol);
    }
  }

  /** With a tolerance below one, close values share their sign. */
  lemma IsCloseSign(a: real, b: real, tol: real)
    requires 0.0 < tol < 1.0
    ensures IsClose(a, b, tol) && a > 0.0 ==> b > 0.0
    ensures IsClose(a, b, tol) && a < 0.0 ==> b < 0.0
  {
    if a != 0.0 && IsClose(a, b, tol) {
      WithinScaled(Abs(a - b), Larger(a, b), tol);
    }
  }

  /** A distance within a fraction below one of a positive bound is below it. */
  lemma WithinScaled(d: real, m: real, tol: real)
    requires m > 0.0 && 0.0 < tol < 1.0 && d <= tol * m
    ensures d < m
  {
  }

  /** The rows of one sensor: `WHERE sensor = ?`. */
  function SensorRows(t: Table, sensor: string): (s: Table)
    ensures forall k :: k in s <==> k in t && k.1 == sensor
    ensures forall k :: k in s ==> s[k] == t[k]
  {
    map k | k in t && k.1 == sensor :: t[k]
  }

  /** `k1` and `k2` are the sensor's latest and second latest rows: what
      `ORDER BY recorded_at DESC LIMIT 2` returns when there are two. */
  ghost predicate LastTwo(t: Table, sensor: string, k1: Key, k2: Key) {
    && k1 in t && k2 in t && k1.1 == sensor && k2.1 == sensor
    && k2.0 < k1.0
    && (forall k :: k in t && k.1 == sensor && k != k1 ==> k.0 <= k2.0)
  }

  /** The latest two rows are determined by the table. */
  lemma LastTwoUnique(t: Table, sensor: string, k1: Key, k2: Key, j1: Key, j2: Key)
    requires LastTwo(t, sensor, k1, k2) && LastTwo(t, sensor, j1, j2)
    ensures k1 == j1 && k2 == j2
  {
    assert k1 == j1 by {
      assert k1 != j1 ==> j1.0 <= k2.0 < k1.0 <= j2.0 < j1.0;
    }
    assert k2.0 <= j2.0 && j2.0 <= k2.0;
  }

  /** Both readings are under an hour apart and the last is under an hour old. */
  predicate Recent(k1: Key, k2: Key, now: int) {
    k1.0 - k2.0 < Hour && now - k1.0 < Hour
  }

  /** `math.isclose` is reached with a NULL operand and raises `TypeError`. */
  predicate Fails(last: Option<real>, k1: Key, k2: Key, now: int, value: Option<real>) {
    Recent(k1, k2, now) && (last.None? || value.None?)
  }

  /** The delete condition of `persist`, short-circuited as Python's `and`. */
  predicate Plateau(last: Option<real>, k1: Key, k2: Key, now: int, value: Option<real>, tol: real) {
    Recent(k1, k2, now) && last.Some? && value.Some? && IsClose(last.value, value.value, tol)
  }

  ghost function ChosenLastTwo(t: Table, sensor: string): (r: (Key, Key))
    requires exists k1, k2 :: LastTwo(t, sensor, k1, k2)
    ensures LastTwo(t, sensor, r.0, r.1)
  {
    var k1, k2 :| LastTwo(t, sensor, k1, k2); (k1, k2)
  }

  /** One quantity's step of `persist`: with two earlier rows, the latest is
      deleted on a plateau (or the step fails on a NULL comparison); then the
      new value is upserted at `(now, sensor)`. `None` is the failure. */
  ghost function Persisted(t: Table, sensor: string, now: int, value: Option<real>, tol: real): (r: Option<Table>)
    ensures r.Some? ==> (now, sensor) in r.value && r.value[(now, sensor)] == value
  {
    if exists k1, k2 :: LastTwo(t, sensor, k1, k2) then
      var (k1, k2) := ChosenLastTwo(t, sensor);
      if Fails(t[k1], k1, k2, now, value) then None
      else Some((if Plateau(t[k1], k1, k2, now, value, tol) then t - {k1} else t)[(now, sensor) := value])
    else Some(t[(now, sensor) := value])
  }

  /** The sensor's rows in time order end with its latest two rows. */
  lemma LatestRows(t: Table, sensor: string, rows: seq<Row<Option<real>>>)
    requires TimeOrdered(rows) && Lists(rows, SensorRows(t, sensor), SensorRows(t, sensor).Keys)
    requires |rows| >= 2
    ensures var n := |rows|; LastTwo(t, sensor, rows[n - 1].Key(), rows[n - 2].Key())
    ensures rows[|rows| - 1].value == t[rows[|rows| - 1].Key()]
  {
    var s := SensorRows(t, sensor);
    var n := |rows|;
    assert rows[n - 1] in rows && rows[n - 2] in rows;
    SameSensorStrictlyIncreasing(rows, n - 2, n - 1);
    forall k | k in t && k.1 == sensor && k != rows[n - 1].Key()
      ensures k.0 <= rows[n - 2].at
    {
      assert k in s;
      var i :| 0 <= i < n && rows[i] == Row(k.0, k.1, s[k]);
      assert i != n - 1;
    }
  }

  /** A sensor with a latest and a second latest row has at least two rows
      in any listing of its rows. */
  lemma LastTwoListed(t: Table, sensor: string, rows: seq<Row<Option<real>>>)
    requires Lists(rows, SensorRows(t, sensor), SensorRows(t, sensor).Keys)
    ensures (exists k1, k2 :: LastTwo(t, sensor, k1, k2)) ==> |rows| >= 2
  {
    var s := SensorRows(t, sensor);
    if exists k1, k2 :: LastTwo(t, sensor, k1, k2) {
      var k1, k2 :| LastTwo(t, sensor, k1, k2);
      assert k1 in s && k2 in s;
      assert Row(k1.0, k1.1, s[k1]) in rows && Row(k2.0, k2.1, s[k2]) in rows;
      var i :| 0 <= i < |rows| && rows[i] == Row(k1.0, k1.1, s[k1]);
      var j :| 0 <= j < |rows| && rows[j] == Row(k2.0, k2.1, s[k2]);
      assert i != j;
    }
  }

  /** The loop body of `persist` for one quantity. */
  method PersistQuantity(t: Table, sensor: string, now: int, value: Option<real>, tol: real) returns (r: Option<Table>)
    ensures r == Persisted(t, sensor, now, value, tol)
  {
    var rows := OrderByTime(SensorRows(t, sensor));
    var table := t;
    if |rows| >= 2 {
      var last, second := rows[|rows| - 1], rows[|rows| - 2];
      LatestRows(t, sensor, rows);
      var chosen := ChosenLastTwo(t, sensor);
      LastTwoUnique(t, sensor, last.Key(), second.Key(), chosen.0, chosen.1);
      if last.at - second.at < Hour && now - last.at < Hour {
        if last.value.None? || value.None? {
          return None;
        }
        if IsClose(last.value.value, value.value, tol) {
          table := table - {last.Key()};
        }
      }
    } else {
      LastTwoListed(t, sensor, rows);
    }
    r := Some(table[(now, sensor) := value]);
  }

  /** The keys of one sensor's rows. */
  function SensorKeys(t: Table, sensor: string): set<Key> {
    set k | k in t && k.1 == sensor
  }

  /** With fewer than two earlier rows for the sensor, nothing is deleted:
      the step is the plain upsert. */
  lemma FewRowsNoDelete(t: Table, sensor: string, now: int, value: Option<real>, tol: real)
    requires |SensorKeys(t, sensor)| < 2
    ensures Persisted(t, sensor, now, value, tol) == Some(t[(now, sensor) := value])
  {
    if exists k1, k2 :: LastTwo(t, sensor, k1, k2) {
      var k1, k2 :| LastTwo(t, sensor, k1, k2);
      assert {k1, k2} <= SensorKeys(t, sensor);
      assert |{k1, k2}| == 2;
      SubsetCardinality({k1, k2}, SensorKeys(t, sensor));
      assert false;
    }
  }

  lemma {:induction false} SubsetCardinality<T>(a: set<T>, b: set<T>)
    requires a <= b
    ensures |a| <= |b|
    decreases |b|
  {
    if a != {} {
      var x :| x in a;
      SubsetCardinality(a - {x}, b - {x});
    }
  }

  /** The step fails exactly when the two latest rows are recent and the
      comparison meets a NULL, and on success deletes the latest row exactly
      on a plateau. */
  lemma PersistedDeletesOnPlateau(t: Table, sensor: string, now: int, value: Option<real>, tol: real, k1: Key, k2: Key)
    requires LastTwo(t, sensor, k1, k2)
    ensures Persisted(t, sensor, now, value, tol).None? <==> Fails(t[k1], k1, k2, now, value)
    ensures var r := Persisted(t, sensor, now, value, tol);
      r.Some? && k1 != (now, sensor) ==> (k1 in r.value <==> !Plateau(t[k1], k1, k2, now, value, tol))
  {
    var chosen := ChosenLastTwo(t, sensor);
    LastTwoUnique(t, sensor, k1, k2, chosen.0, chosen.1);
  }

  /** On success the new value is at `(now, sensor)`, every other row is an
      earlier row with its value, rows of other sensors are untouched, and
      the sensor's row count grows by at most one. */
  lemma PersistedShape(t: Table, sensor: string, now: int, value: Option<real>, tol: real)
    requires Persisted(t, sensor, now, value, tol).Some?
    ensures var r := Persisted(t, sensor, now, value, tol).value;
      && (now, sensor) in r && r[(now, sensor)] == value
      && (forall k :: k in r && k != (now, sensor) ==> k in t && r[k] == t[k])
      && (forall k: Key :: k.1 != sensor ==> (k in r <==> k in t))
      && |SensorKeys(r, sensor)| <= |SensorKeys(t, sensor)| + 1
  {
    var r := Persisted(t, sensor, now, value, tol).value;
    assert SensorKeys(r, sensor) <= SensorKeys(t, sensor) + {(now, sensor)};
    SubsetCardinality(SensorKeys(r, sensor), SensorKeys(t, sensor) + {(now, sensor)});
  }

  /** The loop of `persist` over the quantities, in order: `None` as soon
      as one step fails, otherwise every table after its step. */
  method PersistTables(before: map<Quantity, Table>, sensor: string, now: int, a: Packet.Advertisement)
    returns (r: Option<map<Quantity, Table>>)
    requires forall q: Quantity :: q in before
    ensures r.Some? <==> forall q: Quantity :: Persisted(before[q], sensor, now, ValueFor(a, q), Threshold(q)).Some?
    ensures r.Some? ==> forall q: Quantity ::
      q in r.value && r.value[q] == Persisted(before[q], sensor, now, ValueFor(a, q), Threshold(q)).value
  {
    var updated := before;
    var i := 0;
    while i < |Quantities|
      invariant 0 <= i <= |Quantities|
      invariant forall q: Quantity :: q in updated
      invariant forall q: Quantity :: Position(q) >= i ==> updated[q] == before[q]
      invariant forall q: Quantity :: Position(q) < i ==>
        && Persisted(before[q], sensor, now, ValueFor(a, q), Threshold(q)).Some?
        && updated[q] == Persisted(before[q], sensor, now, ValueFor(a, q), Threshold(q)).value
    {
      var q := Quantities[i];
      assert Position(q) == i;
      var step := PersistQuantity(updated[q], sensor, now, ValueFor(a, q), Threshold(q));
      if step.None? {
        return None;
      }
      updated := updated[q := step.value];
      i := i + 1;
    }
    r := Some(updated);
  }

  /** The collector's database: the `sensor` table and the four quantity tables. */
  class Collector {
    /** `sensor`: `last_seen_at` per sensor. */
    var sensors: map<string, int>
    var tables: map<Quantity, Table>

    /** Every quantity has its table. */
    predicate Valid()
      reads this
    {
      forall q: Quantity :: q in tables
    }

    /** `create_tables` on a new database. */
    constructor ()
      ensures Valid() && sensors == map[]
      ensures forall q: Quantity :: tables[q] == map[]
    {
      sensors := map[];
      tables := map[Temperature := map[], Pressure := map[], Humidity := map[], Voltage := map[]];
      new;
      forall q: Quantity
        ensures q in tables && tables[q] == map[]
      {
        match q
        case Temperature =>
        case Pressure =>
        case Humidity =>
        case Voltage =>
      }
    }

    /** `persist`: the work of one advertisement, committed at the end. A
        `TypeError` from a NULL comparison escapes before the commit, so the
        whole transaction is discarded and nothing changes. */
    method Persist(a: Packet.Advertisement, now: int) returns (committed: bool)
      requires Valid()
      modifies this
      ensures Valid()
      ensures var sensor := Packet.MacAddress(a.macAddress);
        committed <==> forall q: Quantity :: Persisted(old(tables)[q], sensor, now, ValueFor(a, q), Threshold(q)).Some?
      ensures !committed ==> sensors == old(sensors) && tables == old(tables)
      ensures committed ==>
        var sensor := Packet.MacAddress(a.macAddress);
        && sensors == old(sensors)[sensor := now]
        && (forall q: Quantity :: tables[q] == Persisted(old(tables)[q], sensor, now, ValueFor(a, q), Threshold(q)).value)
    {
      var sensor := Packet.MacAddress(a.macAddress);
      var r := PersistTables(tables, sensor, now, a);
      if r.None? {
        return false;
      }
      sensors := sensors[sensor := now];
      tables := r.value;
      committed := true;
    }
  }
}
