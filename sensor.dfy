/** Values shared by the reading store and both dashboards: the four measured
    metrics and the eight-field sensor snapshot exchanged as JSON. */
module Sensor {

  /** A JSON field that may be absent. `None` stands for JavaScript's
      `undefined`: a key missing from the object, or one set to `undefined`
      (which `JSON.stringify` then drops). */
  datatype Option<+T> = None | Some(value: T)

  /** The four measured metrics; also the keys of a history buffer. */
  datatype Metric = SoilTemp | AirTemp | Humidity | SoilMoisture

  /** The keys of the history object literal, in `Object.keys` order. */
  const MetricKeys: seq<Metric> := [SoilTemp, AirTemp, Humidity, SoilMoisture]

  lemma MetricKeysCoverAll(m: Metric)
    ensures m in MetricKeys
  {
    match m
    case SoilTemp => assert MetricKeys[0] == m;
    case AirTemp => assert MetricKeys[1] == m;
    case Humidity => assert MetricKeys[2] == m;
    case SoilMoisture => assert MetricKeys[3] == m;
  }

  /** A sensor snapshot: four measured readings and four ideal targets.
      Readings are only ever copied, so an integer stands for any number. */
  datatype Snapshot = Snapshot(
    soilTemp: Option<int>,
    airTemp: Option<int>,
    humidity: Option<int>,
    soilMoisture: Option<int>,
    idealSoilTemp: Option<int>,
    idealAirTemp: Option<int>,
    idealHumidity: Option<int>,
    idealSoilMoisture: Option<int>)
  {
    /** `snapshot[m]` for a measured key. */
    function Measured(m: Metric): Option<int>
    {
      match m
      case SoilTemp => soilTemp
      case AirTemp => airTemp
      case Humidity => humidity
      case SoilMoisture => soilMoisture
    }

    /** `snapshot["Ideal" + m]`, the target paired with a measured key. */
    function Ideal(m: Metric): Option<int>
    {
      match m
      case SoilTemp => idealSoilTemp
      case AirTemp => idealAirTemp
      case Humidity => idealHumidity
      case SoilMoisture => idealSoilMoisture
    }
  }

  /** An object with none of the eight snapshot keys, such as `{}`. */
  const NoFields: Snapshot := Snapshot(None, None, None, None, None, None, None, None)

  /** The eight keys determine a snapshot: two snapshots that agree on every
      measured and every ideal field are the same object value. */
  lemma SnapshotExtensionality(a: Snapshot, b: Snapshot)
    requires forall m :: a.Measured(m) == b.Measured(m)
    requires forall m :: a.Ideal(m) == b.Ideal(m)
    ensures a == b
  {
    assert a.Measured(SoilTemp) == b.Measured(SoilTemp);
    assert a.Measured(AirTemp) == b.Measured(AirTemp);
    assert a.Measured(Humidity) == b.Measured(Humidity);
    assert a.Measured(SoilMoisture) == b.Measured(SoilMoisture);
    assert a.Ideal(SoilTemp) == b.Ideal(SoilTemp);
    assert a.Ideal(AirTemp) == b.Ideal(AirTemp);
    assert a.Ideal(Humidity) == b.Ideal(Humidity);
    assert a.Ideal(SoilMoisture) == b.Ideal(SoilMoisture);
  }
}
