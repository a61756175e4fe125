/** The reading store of `server.js`: one process-wide snapshot, replaced
    field-by-field by `POST /api/sensor-data` and returned by
    `GET /api/sensor-data`. */
module ReadingStore {
  import opened Sensor

  /** The snapshot the process starts with. */
  const InitialSnapshot: Snapshot :=
    Snapshot(Some(25), Some(22), Some(60), Some(40), Some(23), Some(21), Some(65), Some(41))

  const OkStatus: int := 200
  const PostAck: string := "Data received successfully"

  /** `{ ...current, SoilTemp, AirTemp, Humidity, SoilMoisture }` with the four
      names destructured from the request body: every measured field becomes
      the body's (undefined when the body lacks it), every ideal field stays. */
  function Merge(current: Snapshot, body: Snapshot): (next: Snapshot)
    ensures forall m :: next.Measured(m) == body.Measured(m)
    ensures forall m :: next.Ideal(m) == current.Ideal(m)
  {
    current.(soilTemp := body.soilTemp, airTemp := body.airTemp,
             humidity := body.humidity, soilMoisture := body.soilMoisture)
  }

  /** The stored measured values are forgotten: two stores that agree on
      their ideal fields agree after the same POST. */
  lemma MergeForgetsMeasured(a: Snapshot, b: Snapshot, body: Snapshot)
    requires forall m :: a.Ideal(m) == b.Ideal(m)
    ensures Merge(a, body) == Merge(b, body)
  {
    SnapshotExtensionality(Merge(a, body), Merge(b, body));
  }

  /** Posting the same body twice leaves the store as posting it once. */
  lemma MergeIdempotent(current: Snapshot, body: Snapshot)
    ensures Merge(Merge(current, body), body) == Merge(current, body)
  {
    MergeForgetsMeasured(Merge(current, body), current, body);
  }

  /** Ideal fields sent in a body are ignored: only its measured fields matter. */
  lemma MergeIgnoresBodyIdeals(current: Snapshot, body: Snapshot, other: Snapshot)
    requires forall m :: body.Measured(m) == other.Measured(m)
    ensures Merge(current, body) == Merge(current, other)
  {
    SnapshotExtensionality(Merge(current, body), Merge(current, other));
  }

  /** A body carrying only `SoilTemp` leaves the other three measured fields
      undefined rather than keeping their previous values. */
  lemma PartialBodyClearsOthers(current: Snapshot, t: int)
    ensures var next := Merge(current, NoFields.(soilTemp := Some(t)));
      && next.soilTemp == Some(t)
      && next.airTemp.None? && next.humidity.None? && next.soilMoisture.None?
      && (forall m :: next.Ideal(m) == current.Ideal(m))
  {
  }

  /** The store behind both handlers. */
  class Store {
    var latestSensorData: Snapshot

    constructor()
      ensures latestSensorData == InitialSnapshot
    {
      latestSensorData := InitialSnapshot;
    }

    /** The POST handler: merge the body, answer 200 with the fixed message. */
    method Post(body: Snapshot) returns (status: int, message: string)
      modifies this
      ensures latestSensorData == Merge(old(latestSensorData), body)
      ensures status == OkStatus && message == PostAck
    {
      latestSensorData := Merge(latestSensorData, body);
      status, message := OkStatus, PostAck;
    }

    /** The GET handler: the current snapshot, unchanged. */
    method Get() returns (snapshot: Snapshot)
      ensures snapshot == latestSensorData
    {
      snapshot := latestSensorData;
    }
  }
}
