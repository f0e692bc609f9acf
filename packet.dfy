/** Decoding of one advertisement as the radio bridge delivers it: a JSON
    object with the sensor's MAC address as a list of byte values and raw
    integer readings in milli-kelvins, parts per million, pascals and
    millivolts. The buffer and the persisting collector share these decoders. */
module Packet {
  import opened Wrappers

  type Byte = b: int | 0 <= b < 256

  /** The fields the decoders read; a raw reading is `None` when its key is absent
      (or null). JSON numbers are modelled as `real`. */
  datatype Advertisement = Advertisement(
    macAddress: seq<Byte>,
    temperatureMillikelvins: Option<real>,
    humidityPpm: Option<real>,
    pressurePascals: Option<real>,
    batteryMillivolts: Option<real>)

  // ---------------------------------------------------------------------------
  // Sensor identifier: `"{0:0>2X}".format(n)` per byte, joined.

  /** The upper-case hexadecimal digit for `d`. */
  function HexDigit(d: int): (c: char)
    requires 0 <= d < 16
    ensures '0' <= c <= '9' || 'A' <= c <= 'F'
  {
    if d < 10 then ('0' as int + d) as char else ('A' as int + d - 10) as char
  }

  function HexValue(c: char): (v: Option<int>)
    ensures v.Some? ==> 0 <= v.value < 16
  {
    if '0' <= c <= '9' then Some(c as int - '0' as int)
    else if 'A' <= c <= 'F' then Some(c as int - 'A' as int + 10)
    else None
  }

  predicate IsUpperHexDigit(c: char) {
    '0' <= c <= '9' || 'A' <= c <= 'F'
  }

  /** The sensor identifier: two upper-case hex digits per byte, high nibble first. */
  function MacAddress(bytes: seq<Byte>): (s: string)
    ensures |s| == 2 * |bytes|
    ensures forall i :: 0 <= i < |s| ==> IsUpperHexDigit(s[i])
  {
    if bytes == [] then ""
    else [HexDigit(bytes[0] / 16), HexDigit(bytes[0] % 16)] + MacAddress(bytes[1..])
  }

  /** Reads a sensor identifier back into its bytes; the inverse of `MacAddress`. */
  function ParseMacAddress(s: string): Option<seq<Byte>>
    decreases |s|
  {
    if s == [] then Some([])
    else if |s| == 1 then None
    else match (HexValue(s[0]), HexValue(s[1]), ParseMacAddress(s[2..]))
      case (Some(hi), Some(lo), Some(rest)) => Some([hi * 16 + lo] + rest)
      case _ => None
  }

  lemma HexDigitRoundTrip(d: int)
    requires 0 <= d < 16
    ensures HexValue(HexDigit(d)) == Some(d)
  {
  }

  /** Every byte list is recovered from its identifier: the encoding loses nothing. */
  lemma {:induction false} MacAddressRoundTrip(bytes: seq<Byte>)
    ensures ParseMacAddress(MacAddress(bytes)) == Some(bytes)
  {
    if bytes != [] {
      var b := bytes[0];
      var s := MacAddress(bytes);
      HexDigitRoundTrip(b / 16);
      HexDigitRoundTrip(b % 16);
      assert s[2..] == MacAddress(bytes[1..]);
      MacAddressRoundTrip(bytes[1..]);
      assert (b / 16) * 16 + b % 16 == b;
      assert bytes == [b] + bytes[1..];
    }
  }

  /** Two sensors with different MAC addresses never share an identifier. */
  lemma MacAddressInjective(a: seq<Byte>, b: seq<Byte>)
    requires MacAddress(a) == MacAddress(b)
    ensures a == b
  {
    MacAddressRoundTrip(a);
    MacAddressRoundTrip(b);
  }

  // ---------------------------------------------------------------------------
  // Unit conversions. Each decoder tests `if value:`, so a missing reading
  // (None) and a reading of zero are both returned without conversion.

  predicate Truthy(raw: Option<real>) {
    raw.Some? && raw.value != 0.0
  }

  /** `extract_temperature` as written: milli-kelvins to degrees Celsius,
      except that a zero reading is passed through as 0.0. */
  function TemperatureAsWritten(a: Advertisement): (r: Option<real>)
    ensures r.None? <==> a.temperatureMillikelvins.None?
    ensures a.temperatureMillikelvins == Some(0.0) ==> r == Some(0.0)
    ensures Truthy(a.temperatureMillikelvins) ==>
      CelsiusToMillikelvins(r.value) == a.temperatureMillikelvins.value
  {
    var raw := a.temperatureMillikelvins;
    if Truthy(raw) then Some(raw.value / 1000.0 - 273.15) else raw
  }

  /** Milli-kelvins to degrees Celsius for every present reading, zero included
      (0 mK is -273.15 degrees): the conversion `extract_temperature` is
      meant to perform. The buffer and the collector store what the decoder
      as written returns. */
  function Temperature(a: Advertisement): (r: Option<real>)
    ensures r.None? <==> a.temperatureMillikelvins.None?
    ensures r.Some? ==> CelsiusToMillikelvins(r.value) == a.temperatureMillikelvins.value
  {
    match a.temperatureMillikelvins
    case None => None
    case Some(mk) => Some(mk / 1000.0 - 273.15)
  }

  /** `extract_humidity`: parts per million to percent relative humidity. */
  function Humidity(a: Advertisement): (r: Option<real>)
    ensures r.None? <==> a.humidityPpm.None?
    ensures r.Some? ==> r.value * 10000.0 == a.humidityPpm.value
  {
    var raw := a.humidityPpm;
    if Truthy(raw) then Some(raw.value / 10000.0) else raw
  }

  /** `extract_pressure`: pascals to hectopascals. */
  function Pressure(a: Advertisement): (r: Option<real>)
    ensures r.None? <==> a.pressurePascals.None?
    ensures r.Some? ==> r.value * 100.0 == a.pressurePascals.value
  {
    var raw := a.pressurePascals;
    if Truthy(raw) then Some(raw.value / 100.0) else raw
  }

  /** `extract_battery_voltage`: millivolts to volts. */
  function BatteryVoltage(a: Advertisement): (r: Option<real>)
    ensures r.None? <==> a.batteryMillivolts.None?
    ensures r.Some? ==> r.value * 1000.0 == a.batteryMillivolts.value
  {
    var raw := a.batteryMillivolts;
    if Truthy(raw) then Some(raw.value / 1000.0) else raw
  }

  /** The raw temperature field, back from degrees Celsius. */
  function CelsiusToMillikelvins(c: real): real { (c + 273.15) * 1000.0 }

  /** A decoded reading is missing exactly when its raw field is missing. */
  lemma DecodersKeepMissing(a: Advertisement)
    ensures Temperature(a).None? <==> a.temperatureMillikelvins.None?
    ensures TemperatureAsWritten(a).None? <==> a.temperatureMillikelvins.None?
    ensures Humidity(a).None? <==> a.humidityPpm.None?
    ensures Pressure(a).None? <==> a.pressurePascals.None?
    ensures BatteryVoltage(a).None? <==> a.batteryMillivolts.None?
  {
  }

  /** Every present temperature reading converts back to its raw value. */
  lemma TemperatureRoundTrip(a: Advertisement)
    requires a.temperatureMillikelvins.Some?
    ensures Temperature(a).Some?
    ensures CelsiusToMillikelvins(Temperature(a).value) == a.temperatureMillikelvins.value
  {
  }

  /** For humidity, pressure and voltage the zero pass-through is harmless:
      zero divided by the scale is zero, so each decoder is the plain
      division for every present reading, and multiplying back recovers it. */
  lemma ScaledDecodersRoundTrip(a: Advertisement)
    ensures a.humidityPpm.Some? ==>
      Humidity(a) == Some(a.humidityPpm.value / 10000.0) && Humidity(a).value * 10000.0 == a.humidityPpm.value
    ensures a.pressurePascals.Some? ==>
      Pressure(a) == Some(a.pressurePascals.value / 100.0) && Pressure(a).value * 100.0 == a.pressurePascals.value
    ensures a.batteryMillivolts.Some? ==>
      BatteryVoltage(a) == Some(a.batteryMillivolts.value / 1000.0) && BatteryVoltage(a).value * 1000.0 == a.batteryMillivolts.value
  {
  }

  /** The temperature decoder as written agrees with the conversion on every
      reading except zero, which it reports as 0.0 degrees instead of -273.15:
      a raw 0 mK and a raw 273150 mK decode to the same temperature. */
  lemma TemperatureZeroPassThrough(a: Advertisement, b: Advertisement)
    requires a.temperatureMillikelvins == Some(0.0)
    requires b.temperatureMillikelvins == Some(273150.0)
    ensures TemperatureAsWritten(a) == TemperatureAsWritten(b) == Some(0.0)
    ensures Temperature(a) == Some(-273.15) != Temperature(b)
    ensures forall c: Advertisement :: c.temperatureMillikelvins != Some(0.0) ==> TemperatureAsWritten(c) == Temperature(c)
  {
  }
}
