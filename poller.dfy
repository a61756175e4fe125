/** The outcome of one tick of a dashboard's two-second poller and the
    notice shown after a failed one; both dashboards handle outcomes the same
    way. */
module Polling {
  import opened Sensor

  /** What one tick of the poller delivers: a parsed response together with
      the `Date.now()` read after it, or a failure (network error, non-ok
      status, unparsable body). */
  datatype PollOutcome = Succeeded(data: Snapshot, currentTime: int) | Failed

  /** The notice both dashboards show after a failed poll. */
  const FetchErrorMessage: string := "Failed to fetch sensor data. Using placeholder values."
}
