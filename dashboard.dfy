/** The dashboard of `src/dashboard.jsx`: ten seeded points per metric, a
    history buffer pruned to the last ten minutes and at most sixty old
    points, the poll outcome handling, and the `|| default` display fallback. */
module SlidingWindowHistory {
  import opened Sensor
  import opened Series
  import opened Polling

  /** Only points strictly newer than `currentTime - WindowMs` survive. */
  const WindowMs: int := 10 * OneMinute
  /** `.slice(-60)`: at most this many old points survive. */
  const MaxKept: nat := 60
  /** The seeding loop runs `i` from 9 down to 0. */
  const SeedCount: nat := 10

  /** `prevData[key].filter(point => point.time > tenMinutesAgo)`: every
      point of the last ten minutes, as often as it occurs, in order. */
  function Recent(s: seq<Point>, currentTime: int): (r: seq<Point>)
    ensures IsSubsequence(r, s)
    ensures forall p :: p in r <==> p in s && p.time > currentTime - WindowMs
    ensures forall p :: multiset(r)[p] == if p.time > currentTime - WindowMs then multiset(s)[p] else 0
  {
    Filter(s, (p: Point) => p.time > currentTime - WindowMs)
  }

  /** `.filter(...).slice(-60)`: the points of the last ten minutes, in
      order, cut to the newest sixty. */
  function KeepWindow(s: seq<Point>, currentTime: int): (r: seq<Point>)
    ensures IsSubsequence(r, s)
    ensures |r| <= MaxKept
    ensures forall p :: p in r ==> p in s && p.time > currentTime - WindowMs
  {
    var recent := Recent(s, currentTime);
    var r := TakeLast(recent, MaxKept);
    SubsequenceTransitive(r, recent, s);
    SubsequenceMembers(r, recent);
    r
  }

  /** Of the points inside the window exactly the newest
      `min(60, count)` are kept, as a suffix. */
  lemma KeepWindowIsNewestOfRecent(s: seq<Point>, currentTime: int)
    ensures var recent := Recent(s, currentTime);
      var r := KeepWindow(s, currentTime);
      && |r| == (if |recent| <= MaxKept then |recent| else MaxKept)
      && r == recent[|recent| - |r|..]
  {
  }

  /** A series already inside the window and at most sixty long loses
      nothing. */
  lemma KeepWindowKeepsShortRecent(s: seq<Point>, currentTime: int)
    requires forall p :: p in s ==> p.time > currentTime - WindowMs
    requires |s| <= MaxKept
    ensures KeepWindow(s, currentTime) == s
  {
    FilterKeepsAll(s, (p: Point) => p.time > currentTime - WindowMs);
    assert Recent(s, currentTime) == s;
  }

  /** The `setHistoricalData` updater of one successful poll: the same keys,
      and a metric the response leaves undefined untouched. */
  function WindowMerge(prev: History, data: Snapshot, currentTime: int): (next: History)
    ensures next.Keys == prev.Keys
    ensures forall m :: m in prev && data.Measured(m).None? ==> next[m] == prev[m]
  {
    Merged(prev, data, currentTime, KeepWindow)
  }

  /** What a successful poll does to the buffer: the same keys; a metric the
      response leaves undefined is untouched; a metric it defines becomes at
      most sixty old points of the last ten minutes, in their order, followed
      by exactly one new point at `currentTime`. */
  lemma WindowMergeMeaning(prev: History, data: Snapshot, currentTime: int, m: Metric)
    requires m in prev
    ensures var next := WindowMerge(prev, data, currentTime);
      next.Keys == prev.Keys && m in next
    ensures data.Measured(m).None? ==> WindowMerge(prev, data, currentTime)[m] == prev[m]
    ensures data.Measured(m).Some? ==>
      var s := WindowMerge(prev, data, currentTime)[m];
      && 0 < |s| <= MaxKept + 1
      && s[|s| - 1] == Point(currentTime, data.Measured(m).value)
      && IsSubsequence(s[..|s| - 1], prev[m])
      && (forall p :: p in s[..|s| - 1] ==> p in prev[m] && p.time > currentTime - WindowMs)
      && (var recent := Recent(prev[m], currentTime); s[..|s| - 1] == recent[|recent| - (|s| - 1)..])
  {
    var next := WindowMerge(prev, data, currentTime);
    if data.Measured(m).Some? {
      var kept := KeepWindow(prev[m], currentTime);
      var s := next[m];
      assert s == kept + [Point(currentTime, data.Measured(m).value)];
      assert s[..|s| - 1] == kept;
    }
  }

  /** A metric in the response keeps exactly `min(60, count)` of its old
      points, `count` being how many lie inside the window. */
  lemma WindowMergeKeepsNewest(prev: History, data: Snapshot, currentTime: int, m: Metric)
    requires m in prev && data.Measured(m).Some?
    ensures var s := WindowMerge(prev, data, currentTime)[m];
      var n := |Recent(prev[m], currentTime)|;
      |s| - 1 == if n <= MaxKept then n else MaxKept
  {
    KeepWindowIsNewestOfRecent(prev[m], currentTime);
  }

  /** Sixty-one points is a bound the buffer never leaves once inside it. */
  lemma WindowBoundPreserved(prev: History, data: Snapshot, currentTime: int)
    requires forall m :: m in prev ==> |prev[m]| <= MaxKept + 1
    ensures var next := WindowMerge(prev, data, currentTime);
      forall m :: m in next ==> |next[m]| <= MaxKept + 1
  {
    var next := WindowMerge(prev, data, currentTime);
    forall m | m in next ensures |next[m]| <= MaxKept + 1 {
      WindowMergeMeaning(prev, data, currentTime, m);
    }
  }

  /** If a series is ordered and none of its points lies after `currentTime`,
      the poll keeps it ordered and not after `currentTime`, and a metric in
      the response then ends at `currentTime`. */
  lemma WindowMergeOrdered(prev: History, data: Snapshot, currentTime: int, m: Metric)
    requires m in prev && Sorted(prev[m]) && NotAfter(prev[m], currentTime)
    ensures var next := WindowMerge(prev, data, currentTime);
      && m in next
      && Sorted(next[m]) && NotAfter(next[m], currentTime)
      && (data.Measured(m).Some? ==> |next[m]| > 0 && next[m][|next[m]| - 1].time == currentTime)
  {
    NewSeriesOrdered(prev[m], data.Measured(m), currentTime, KeepWindow);
  }

  /** The buffer the seeding effect builds at time `now`, `draw(i, m)` being
      the random baseline drawn for metric `m` when the loop counter is `i`:
      every metric has ten points, one minute apart, the last at `now`. */
  ghost predicate IsSeeded(h: History, now: int, draw: (nat, Metric) -> int)
  {
    && (forall m: Metric :: m in h)
    && (forall m :: m in h ==> |h[m]| == SeedCount)
    && (forall m, k :: m in h && 0 <= k < |h[m]| ==>
          h[m][k] == Point(now - (SeedCount - 1 - k) * OneMinute, draw(SeedCount - 1 - k, m)))
  }

  /** The seeding loop: `i` from 9 down to 0, and for each key a push of the
      point stamped `now - i * 60000`. */
  method SeedHistory(now: int, draw: (nat, Metric) -> int) returns (initialData: History)
    ensures IsSeeded(initialData, now, draw)
    ensures forall m :: m in initialData ==> initialData[m][SeedCount - 1].time == now
    ensures forall m, k :: m in initialData && 0 < k < SeedCount ==>
      initialData[m][k].time == initialData[m][k - 1].time + OneMinute
  {
    initialData := EmptyHistory;
    forall m: Metric ensures m in initialData {
      EmptyHistoryHasAllKeys(m);
    }
    var i: int := SeedCount - 1;
    while i >= 0
      invariant -1 <= i < SeedCount
      invariant forall m: Metric :: m in initialData
      invariant forall m :: m in initialData ==> |initialData[m]| == SeedCount - 1 - i
      invariant forall m, k :: m in initialData && 0 <= k < |initialData[m]| ==>
        initialData[m][k] == Point(now - (SeedCount - 1 - k) * OneMinute, draw(SeedCount - 1 - k, m))
    {
      var time := now - i * OneMinute;
      var j := 0;
      while j < |MetricKeys|
        invariant 0 <= j <= |MetricKeys|
        invariant forall m: Metric :: m in initialData
        invariant forall m :: m in initialData ==>
          |initialData[m]| == if m in MetricKeys[..j] then SeedCount - i else SeedCount - 1 - i
        invariant forall m, k :: m in initialData && 0 <= k < |initialData[m]| ==>
          initialData[m][k] == Point(now - (SeedCount - 1 - k) * OneMinute, draw(SeedCount - 1 - k, m))
      {
        var key := MetricKeys[j];
        initialData := initialData[key := initialData[key] + [Point(time, draw(i, key))]];
        assert MetricKeys[..j + 1] == MetricKeys[..j] + [key];
        j := j + 1;
      }
      forall m: Metric ensures m in MetricKeys[..j] {
        MetricKeysCoverAll(m);
        assert MetricKeys[..j] == MetricKeys;
      }
      i := i - 1;
    }
  }

  /** A first poll less than a minute after seeding keeps all ten seeded
      points: the oldest is under ten minutes old. No clock order is assumed:
      a poll stamped before `now` keeps them too. */
  lemma FirstPollKeepsSeed(s: seq<Point>, now: int, currentTime: int)
    requires |s| == SeedCount
    requires forall k :: 0 <= k < |s| ==> s[k].time == now - (SeedCount - 1 - k) * OneMinute
    requires currentTime < now + OneMinute
    ensures KeepWindow(s, currentTime) == s
  {
    forall p | p in s ensures p.time > currentTime - WindowMs {
      var k :| 0 <= k < |s| && s[k] == p;
    }
    KeepWindowKeepsShortRecent(s, currentTime);
  }

  /** JavaScript truthiness of a reading: defined and non-zero. */
  predicate Truthy(reading: Option<int>)
  {
    reading.Some? && reading.value != 0
  }

  /** `reading || fallback`. */
  function OrDefault(reading: Option<int>, fallback: int): (shown: int)
    ensures Truthy(reading) ==> shown == reading.value
    ensures !Truthy(reading) ==> shown == fallback
  {
    if Truthy(reading) then reading.value else fallback
  }

  /** The fallback of each current-value card. */
  function DefaultCurrent(m: Metric): int
  {
    match m
    case SoilTemp => 25
    case AirTemp => 22
    case Humidity => 60
    case SoilMoisture => 40
  }

  /** The fallback of each ideal-value card. */
  function DefaultIdeal(m: Metric): int
  {
    match m
    case SoilTemp => 23
    case AirTemp => 21
    case Humidity => 65
    case SoilMoisture => 45
  }

  /** `sensorData?.<m> || <default>`: the reading when there is a response and
      its field is truthy, the fixed default otherwise. */
  function CurrentShown(sensorData: Option<Snapshot>, m: Metric): (shown: int)
    ensures sensorData.Some? && Truthy(sensorData.value.Measured(m)) ==>
      shown == sensorData.value.Measured(m).value
    ensures !(sensorData.Some? && Truthy(sensorData.value.Measured(m))) ==>
      shown == DefaultCurrent(m)
  {
    OrDefault(if sensorData.Some? then sensorData.value.Measured(m) else None, DefaultCurrent(m))
  }

  /** `sensorData?.Ideal<m> || <default>`. */
  function IdealShown(sensorData: Option<Snapshot>, m: Metric): (shown: int)
    ensures sensorData.Some? && Truthy(sensorData.value.Ideal(m)) ==>
      shown == sensorData.value.Ideal(m).value
    ensures !(sensorData.Some? && Truthy(sensorData.value.Ideal(m))) ==>
      shown == DefaultIdeal(m)
  {
    OrDefault(if sensorData.Some? then sensorData.value.Ideal(m) else None, DefaultIdeal(m))
  }

  /** A reading of 0 is displayed exactly as a missing reading or no response
      at all: as the default. */
  lemma ZeroReadingShowsDefault(data: Snapshot, m: Metric)
    ensures data.Measured(m) == Some(0) ==>
      CurrentShown(Some(data), m) == CurrentShown(None, m) == DefaultCurrent(m)
    ensures data.Ideal(m) == Some(0) ==>
      IdealShown(Some(data), m) == IdealShown(None, m) == DefaultIdeal(m)
  {
  }

  /** The component state of `src/dashboard.jsx` and the effect of each poll. */
  class Dashboard {
    var sensorData: Option<Snapshot>
    var error: Option<string>
    var historicalData: History

    /** Mounting: no response yet, no error, four empty series. */
    constructor()
      ensures sensorData == None && error == None && historicalData == EmptyHistory
    {
      sensorData := None;
      error := None;
      historicalData := EmptyHistory;
    }

    /** The seeding effect: replace the buffer with the seeded one. */
    method Seed(now: int, draw: (nat, Metric) -> int)
      modifies this
      ensures IsSeeded(historicalData, now, draw)
      ensures sensorData == old(sensorData) && error == old(error)
    {
      historicalData := SeedHistory(now, draw);
    }

    /** The body of `fetchData`. A success stores the response, clears the
        error and merges the response into the buffer; a failure sets the
        fixed notice and leaves the readings and the buffer as they were. */
    method Poll(outcome: PollOutcome)
      modifies this
      ensures outcome.Succeeded? ==>
        && sensorData == Some(outcome.data)
        && error == None
        && historicalData == WindowMerge(old(historicalData), outcome.data, outcome.currentTime)
      ensures outcome.Failed? ==>
        && sensorData == old(sensorData)
        && error == Some(FetchErrorMessage)
        && historicalData == old(historicalData)
    {
      match outcome
      case Succeeded(data, currentTime) =>
        sensorData := Some(data);
        error := None;
        historicalData := ApplyPoll(historicalData, data, currentTime, KeepWindow);
      case Failed =>
        error := Some(FetchErrorMessage);
    }
  }
}
