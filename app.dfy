/** The dashboard of `src/App.jsx`: a history buffer pruned by age tiers
    (everything under a minute, then one point per 5 s up to five minutes,
    then one per 15 s up to ten minutes), the poll outcome handling, and the
    placeholder snapshot shown before the first successful poll. */
module AgeTieredHistory {
  import opened Sensor
  import opened Series
  import opened Polling

  /** JavaScript's `a % b`: the remainder truncated toward zero, so that it
      takes the sign of `a` (Dafny's `%` never returns a negative value). */
  function JsRemainder(a: int, b: int): (r: int)
    requires b > 0
    ensures a >= 0 ==> r == a % b
    ensures a < 0 ==> -b < r <= 0
  {
    if a >= 0 then a % b else -((-a) % b)
  }

  /** `shouldKeepTimestamp(timestamp, latestTimestamp)`: the age-tiered
      retention rule on integer milliseconds. A kept point is always less
      than ten minutes old, and every point less than a minute old is kept. */
  function ShouldKeepTimestamp(timestamp: int, latestTimestamp: int): (keep: bool)
    ensures keep ==> latestTimestamp - timestamp < 10 * OneMinute
    ensures latestTimestamp - timestamp < OneMinute ==> keep
  {
    var age := latestTimestamp - timestamp;
    if age < OneMinute then true
    else if age < 5 * OneMinute then JsRemainder(age, 5 * 1000) == 0
    else if age < 10 * OneMinute then JsRemainder(age, 15 * 1000) == 0
    else false
  }

  /** Under a minute everything is kept, including points stamped after
      `latestTimestamp` (a negative age). */
  lemma RecentTierKeepsAll(timestamp: int, latestTimestamp: int)
    requires latestTimestamp - timestamp < OneMinute
    ensures ShouldKeepTimestamp(timestamp, latestTimestamp)
  {
  }

  /** From one to five minutes only whole multiples of 5 s survive. */
  lemma FiveSecondTier(timestamp: int, latestTimestamp: int)
    requires OneMinute <= latestTimestamp - timestamp < 5 * OneMinute
    ensures ShouldKeepTimestamp(timestamp, latestTimestamp) <==> (latestTimestamp - timestamp) % 5000 == 0
  {
  }

  /** From five to ten minutes only whole multiples of 15 s survive. */
  lemma FifteenSecondTier(timestamp: int, latestTimestamp: int)
    requires 5 * OneMinute <= latestTimestamp - timestamp < 10 * OneMinute
    ensures ShouldKeepTimestamp(timestamp, latestTimestamp) <==> (latestTimestamp - timestamp) % 15000 == 0
  {
  }

  /** Ten minutes or older is always discarded. */
  lemma OldTierDropsAll(timestamp: int, latestTimestamp: int)
    requires latestTimestamp - timestamp >= 10 * OneMinute
    ensures !ShouldKeepTimestamp(timestamp, latestTimestamp)
  {
  }

  /** Worked ages: 61 s is dropped, 65 s is kept, 300 s is kept, 305 s is
      dropped, 601 s is dropped. */
  lemma TierExamples(latestTimestamp: int)
    ensures !ShouldKeepTimestamp(latestTimestamp - 61000, latestTimestamp)
    ensures ShouldKeepTimestamp(latestTimestamp - 65000, latestTimestamp)
    ensures ShouldKeepTimestamp(latestTimestamp - 300000, latestTimestamp)
    ensures !ShouldKeepTimestamp(latestTimestamp - 305000, latestTimestamp)
    ensures !ShouldKeepTimestamp(latestTimestamp - 601000, latestTimestamp)
  {
  }

  /** `prevData[key].filter(point => shouldKeepTimestamp(point.time, currentTime))`:
      every point that passes the age rule, as often as it occurs, in order. */
  function KeepTiered(s: seq<Point>, currentTime: int): (r: seq<Point>)
    ensures IsSubsequence(r, s)
    ensures forall p :: p in r <==> p in s && ShouldKeepTimestamp(p.time, currentTime)
    ensures forall p :: multiset(r)[p] == if ShouldKeepTimestamp(p.time, currentTime) then multiset(s)[p] else 0
  {
    Filter(s, (p: Point) => ShouldKeepTimestamp(p.time, currentTime))
  }

  /** The `setHistoricalData` updater of one successful poll: the same keys,
      and a metric the response leaves undefined untouched. */
  function TieredMerge(prev: History, data: Snapshot, currentTime: int): (next: History)
    ensures next.Keys == prev.Keys
    ensures forall m :: m in prev && data.Measured(m).None? ==> next[m] == prev[m]
  {
    Merged(prev, data, currentTime, KeepTiered)
  }

  /** What a successful poll does to the buffer: the same keys; a metric the
      response leaves undefined is untouched; a metric it defines becomes the
      old points that pass the age rule, in their order, followed by exactly
      one new point at `currentTime`, and then holds nothing ten minutes old. */
  lemma TieredMergeMeaning(prev: History, data: Snapshot, currentTime: int, m: Metric)
    requires m in prev
    ensures var next := TieredMerge(prev, data, currentTime);
      next.Keys == prev.Keys && m in next
    ensures data.Measured(m).None? ==> TieredMerge(prev, data, currentTime)[m] == prev[m]
    ensures data.Measured(m).Some? ==>
      var s := TieredMerge(prev, data, currentTime)[m];
      && |s| > 0
      && s[|s| - 1] == Point(currentTime, data.Measured(m).value)
      && IsSubsequence(s[..|s| - 1], prev[m])
      && (forall p :: p in s[..|s| - 1] <==> p in prev[m] && ShouldKeepTimestamp(p.time, currentTime))
      && (forall p :: multiset(s[..|s| - 1])[p] ==
            if ShouldKeepTimestamp(p.time, currentTime) then multiset(prev[m])[p] else 0)
      && (forall p :: p in s ==> currentTime - p.time < 10 * OneMinute)
  {
    var next := TieredMerge(prev, data, currentTime);
    if data.Measured(m).Some? {
      var kept := KeepTiered(prev[m], currentTime);
      var s := next[m];
      assert s == kept + [Point(currentTime, data.Measured(m).value)];
      assert s[..|s| - 1] == kept;
    }
  }

  /** If a series is ordered and none of its points lies after `currentTime`,
      the poll keeps it ordered and not after `currentTime`, at most one point
      longer, and ending at `currentTime` when the metric was in the response. */
  lemma TieredMergeOrdered(prev: History, data: Snapshot, currentTime: int, m: Metric)
    requires m in prev && Sorted(prev[m]) && NotAfter(prev[m], currentTime)
    ensures var next := TieredMerge(prev, data, currentTime);
      && m in next
      && Sorted(next[m]) && NotAfter(next[m], currentTime)
      && |next[m]| <= |prev[m]| + 1
      && (data.Measured(m).Some? ==> |next[m]| > 0 && next[m][|next[m]| - 1].time == currentTime)
  {
    NewSeriesOrdered(prev[m], data.Measured(m), currentTime, KeepTiered);
  }

  /** `placeholderData`: shown until the first successful poll. Its ideal soil
      moisture is 45, not the server's 41. */
  const Placeholder: Snapshot :=
    Snapshot(Some(25), Some(22), Some(60), Some(40), Some(23), Some(21), Some(65), Some(45))

  /** `displayData = sensorData || placeholderData`: a received response
      object (always truthy) wins, otherwise the placeholder. A measured field
      the result leaves undefined is rendered as '-'. */
  function DisplayData(sensorData: Option<Snapshot>): (shown: Snapshot)
    ensures sensorData.None? ==> shown == Placeholder
    ensures sensorData.Some? ==> shown == sensorData.value
  {
    match sensorData
    case None => Placeholder
    case Some(data) => data
  }

  /** The buffer after a run of ticks, oldest first: each success merges its
      response, each failure leaves the buffer as it was. No tick adds or
      removes a key. */
  function TieredReplay(h: History, outcomes: seq<PollOutcome>): (r: History)
    ensures r.Keys == h.Keys
    decreases |outcomes|
  {
    if outcomes == [] then h
    else
      var before := TieredReplay(h, outcomes[..|outcomes| - 1]);
      match outcomes[|outcomes| - 1]
      case Succeeded(data, currentTime) => TieredMerge(before, data, currentTime)
      case Failed => before
  }

  /** The response on screen after a run of ticks, oldest first: that of the
      newest success, or what was there before when every tick failed. */
  function LastResponse(init: Option<Snapshot>, outcomes: seq<PollOutcome>): (r: Option<Snapshot>)
    ensures r.None? <==> init.None? && forall k :: 0 <= k < |outcomes| ==> outcomes[k].Failed?
    decreases |outcomes|
  {
    if outcomes == [] then init
    else
      var before := LastResponse(init, outcomes[..|outcomes| - 1]);
      assert forall k :: 0 <= k < |outcomes| - 1 ==> outcomes[..|outcomes| - 1][k] == outcomes[k];
      match outcomes[|outcomes| - 1]
      case Succeeded(data, _) => Some(data)
      case Failed => before
  }

  /** A failed tick only sets the notice: a run of ticks that all fail
      leaves the response on screen as it was. */
  lemma {:induction false} AllFailedKeeps(init: Option<Snapshot>, outcomes: seq<PollOutcome>)
    requires forall k :: 0 <= k < |outcomes| ==> outcomes[k].Failed?
    ensures LastResponse(init, outcomes) == init
    decreases |outcomes|
  {
    if outcomes != [] {
      AllFailedKeeps(init, outcomes[..|outcomes| - 1]);
    }
  }

  /** After a run of ticks the response on screen is that of the newest
      success, whatever came before it. */
  lemma {:induction false} NewestSuccessShown(init: Option<Snapshot>, outcomes: seq<PollOutcome>, k: int)
    requires 0 <= k < |outcomes| && outcomes[k].Succeeded?
    requires forall j :: k < j < |outcomes| ==> outcomes[j].Failed?
    ensures LastResponse(init, outcomes) == Some(outcomes[k].data)
    decreases |outcomes|
  {
    if k < |outcomes| - 1 {
      var front := outcomes[..|outcomes| - 1];
      assert front[k] == outcomes[k];
      assert forall j :: k < j < |front| ==> front[j] == outcomes[j];
      NewestSuccessShown(init, front, k);
    }
  }

  /** The component state of `src/App.jsx` and the effect of each poll. */
  class Dashboard {
    var sensorData: Option<Snapshot>
    var error: Option<string>
    var historicalData: History

    /** Mounting: no response yet, no error, four empty series. */
    constructor()
      ensures sensorData == None && error == None && historicalData == EmptyHistory
    {
      sensorData := None;
      error := None;
      historicalData := EmptyHistory;
    }

    /** The body of `fetchData`. A success stores the response, clears the
        error and merges the response into the buffer; a failure sets the
        fixed notice and leaves the readings and the buffer as they were. */
    method Poll(outcome: PollOutcome)
      modifies this
      ensures outcome.Succeeded? ==>
        && sensorData == Some(outcome.data)
        && error == None
        && historicalData == TieredMerge(old(historicalData), outcome.data, outcome.currentTime)
      ensures outcome.Failed? ==>
        && sensorData == old(sensorData)
        && error == Some(FetchErrorMessage)
        && historicalData == old(historicalData)
    {
      match outcome
      case Succeeded(data, currentTime) =>
        sensorData := Some(data);
        error := None;
        historicalData := ApplyPoll(historicalData, data, currentTime, KeepTiered);
      case Failed =>
        error := Some(FetchErrorMessage);
    }

    /** The two-second poller over a run of ticks, oldest first. The
        placeholder stays on screen exactly as long as no tick has succeeded;
        after a success the newest successful response is shown, and the
        notice reflects the last tick alone. */
    method PollAll(outcomes: seq<PollOutcome>)
      modifies this
      ensures sensorData.None? <==> old(sensorData).None? && forall k :: 0 <= k < |outcomes| ==> outcomes[k].Failed?
      ensures sensorData.None? ==> DisplayData(sensorData) == Placeholder
      ensures forall k ::
        (0 <= k < |outcomes| && outcomes[k].Succeeded? && forall j :: k < j < |outcomes| ==> outcomes[j].Failed?)
        ==> DisplayData(sensorData) == outcomes[k].data
      ensures |outcomes| > 0 ==>
        error == if outcomes[|outcomes| - 1].Failed? then Some(FetchErrorMessage) else None
      ensures |outcomes| == 0 ==> sensorData == old(sensorData) && error == old(error)
      ensures sensorData == LastResponse(old(sensorData), outcomes)
      ensures historicalData == TieredReplay(old(historicalData), outcomes)
    {
      var i := 0;
      while i < |outcomes|
        invariant 0 <= i <= |outcomes|
        invariant i > 0 ==> error == if outcomes[i - 1].Failed? then Some(FetchErrorMessage) else None
        invariant i == 0 ==> sensorData == old(sensorData) && error == old(error)
        invariant sensorData == LastResponse(old(sensorData), outcomes[..i])
        invariant historicalData == TieredReplay(old(historicalData), outcomes[..i])
      {
        Poll(outcomes[i]);
        assert outcomes[..i + 1][..i] == outcomes[..i];
        i := i + 1;
      }
      assert outcomes[..i] == outcomes;
      forall k | 0 <= k < |outcomes| && outcomes[k].Succeeded? && forall j :: k < j < |outcomes| ==> outcomes[j].Failed?
        ensures sensorData == Some(outcomes[k].data)
      {
        NewestSuccessShown(old(sensorData), outcomes, k);
      }
    }
  }
}
