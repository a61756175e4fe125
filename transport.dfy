/** One poll of the `src/App.jsx` dashboard against the `server.js` store.
    The dashboard polls with `POST /api/sensor-data` and body `{}`; this
    server answers that route with its update handler, so the poll clears
    the stored readings and the reply `{ message }` carries no reading. The
    poll the store serves readings to is `GET /api/sensor-data`, which the
    `src/dashboard.jsx` dashboard uses. */
module PollTransport {
  import opened Sensor
  import opened Series
  import ReadingStore
  import AgeTieredHistory

  /** The request body of the poll, `{}`. */
  const PollRequestBody: Snapshot := NoFields

  /** The reply of the POST handler, `{ message: ... }`: none of the eight
      snapshot keys. */
  const PostReply: Snapshot := NoFields

  /** The store and the dashboard's buffer after one poll as written. */
  function AppPollAsWritten(stored: Snapshot, history: History, currentTime: int): (Snapshot, History)
  {
    (ReadingStore.Merge(stored, PollRequestBody),
     AgeTieredHistory.TieredMerge(history, PostReply, currentTime))
  }

  /** As written, a poll wipes the four stored readings, records no point,
      and leaves the cards with no current value to show. */
  lemma AppPollAsWrittenLosesReadings(stored: Snapshot, history: History, currentTime: int)
    ensures var (store, buffer) := AppPollAsWritten(stored, history, currentTime);
      && (forall m :: store.Measured(m).None? && store.Ideal(m) == stored.Ideal(m))
      && buffer == history
      && (forall m :: AgeTieredHistory.DisplayData(Some(PostReply)).Measured(m).None?)
  {
    assert forall m :: PostReply.Measured(m).None?;
  }

  /** The concrete case: a store holding a soil temperature of 25 and an
      empty buffer still yield an empty soil-temperature series after the
      poll, and the store has lost the 25. */
  lemma AppPollAsWrittenExample(currentTime: int)
    ensures var (store, buffer) := AppPollAsWritten(ReadingStore.InitialSnapshot, EmptyHistory, currentTime);
      && ReadingStore.InitialSnapshot.soilTemp == Some(25)
      && store.soilTemp.None?
      && buffer[SoilTemp] == []
  {
    AppPollAsWrittenLosesReadings(ReadingStore.InitialSnapshot, EmptyHistory, currentTime);
  }

  /** The store and the dashboard's buffer after one poll by GET. */
  function AppPollByGet(stored: Snapshot, history: History, currentTime: int): (Snapshot, History)
  {
    (stored, AgeTieredHistory.TieredMerge(history, stored, currentTime))
  }

  /** By GET, the store is untouched and every stored reading reaches the
      buffer as its newest point; a metric with no stored reading keeps its
      series. */
  lemma AppPollByGetRecords(stored: Snapshot, history: History, currentTime: int, m: Metric)
    requires m in history
    ensures var (store, buffer) := AppPollByGet(stored, history, currentTime);
      && store == stored
      && m in buffer
      && (stored.Measured(m).None? ==> buffer[m] == history[m])
      && (stored.Measured(m).Some? ==>
            |buffer[m]| > 0 && buffer[m][|buffer[m]| - 1] == Point(currentTime, stored.Measured(m).value))
  {
    AgeTieredHistory.TieredMergeMeaning(history, stored, currentTime, m);
  }
}
