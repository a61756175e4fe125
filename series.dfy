/** Timestamped points, the per-metric history buffer, and the merge step that
    both dashboards run on every successful poll: for each key of the buffer
    whose reading the response carries, prune the previous points and append one
    new point. The two dashboards differ only in the pruning rule. */
module Series {
  import opened Sensor

  /** `{ time, value }` of one chart point; `time` is `Date.now()` in integer
      milliseconds. The display string of the source is not modelled. */
  datatype Point = Point(time: int, value: int)

  /** The history buffer: one ordered series per metric key. */
  type History = map<Metric, seq<Point>>

  /** The initial `{ SoilTemp: [], AirTemp: [], Humidity: [], SoilMoisture: [] }`. */
  const EmptyHistory: History := map[SoilTemp := [], AirTemp := [], Humidity := [], SoilMoisture := []]

  /** The initial buffer has a series for every metric. */
  lemma EmptyHistoryHasAllKeys(m: Metric)
    ensures m in EmptyHistory
  {
    match m
    case SoilTemp =>
    case AirTemp =>
    case Humidity =>
    case SoilMoisture =>
  }

  /** Sixty thousand milliseconds, the unit of both pruning rules and of the
      seeded spacing. */
  const OneMinute: int := 60 * 1000

  /** Times never decrease along the series. */
  predicate Sorted(s: seq<Point>)
  {
    forall i, j :: 0 <= i < j < |s| ==> s[i].time <= s[j].time
  }

  /** No point of the series lies after `t`. */
  predicate NotAfter(s: seq<Point>, t: int)
  {
    forall p :: p in s ==> p.time <= t
  }

  /** `r` is `s` with some elements removed and the rest in their order. */
  predicate IsSubsequence(r: seq<Point>, s: seq<Point>)
    decreases |s|
  {
    if r == [] then true
    else if s == [] then false
    else (r[0] == s[0] && IsSubsequence(r[1..], s[1..])) || IsSubsequence(r, s[1..])
  }

  lemma {:induction false} SubsequenceMembers(r: seq<Point>, s: seq<Point>)
    requires IsSubsequence(r, s)
    ensures |r| <= |s|
    ensures forall p :: p in r ==> p in s
    decreases |s|
  {
    if r != [] {
      if r[0] == s[0] && IsSubsequence(r[1..], s[1..]) {
        SubsequenceMembers(r[1..], s[1..]);
        forall p | p in r ensures p in s {
          if p != r[0] {
            assert p in r[1..];
          }
        }
      } else {
        SubsequenceMembers(r, s[1..]);
      }
    }
  }

  /** Removing points never puts two of them out of time order. */
  lemma {:induction false} SubsequenceSorted(r: seq<Point>, s: seq<Point>)
    requires IsSubsequence(r, s) && Sorted(s)
    ensures Sorted(r)
    decreases |s|
  {
    if r != [] {
      assert Sorted(s[1..]) by {
        forall i, j | 0 <= i < j < |s[1..]| ensures s[1..][i].time <= s[1..][j].time {
          assert s[1..][i] == s[i + 1] && s[1..][j] == s[j + 1];
        }
      }
      if r[0] == s[0] && IsSubsequence(r[1..], s[1..]) {
        SubsequenceSorted(r[1..], s[1..]);
        SubsequenceMembers(r[1..], s[1..]);
        forall i, j | 0 <= i < j < |r| ensures r[i].time <= r[j].time {
          assert r[j] == r[1..][j - 1];
          if i == 0 {
            assert r[j] in s[1..];
            var k :| 0 <= k < |s[1..]| && s[1..][k] == r[j];
            assert s[k + 1] == r[j];
          } else {
            assert r[i] == r[1..][i - 1];
          }
        }
      } else {
        SubsequenceSorted(r, s[1..]);
      }
    }
  }

  lemma {:induction false} SubsequenceReflexive(s: seq<Point>)
    ensures IsSubsequence(s, s)
    decreases |s|
  {
    if s != [] {
      SubsequenceReflexive(s[1..]);
    }
  }

  lemma {:induction false} SuffixIsSubsequence(s: seq<Point>, k: nat)
    requires k <= |s|
    ensures IsSubsequence(s[k..], s)
    decreases k
  {
    if k == 0 {
      SubsequenceReflexive(s);
      assert s[0..] == s;
    } else {
      SuffixIsSubsequence(s[1..], k - 1);
      assert s[1..][k - 1..] == s[k..];
    }
  }

  lemma {:induction false} SubsequenceTransitive(a: seq<Point>, b: seq<Point>, c: seq<Point>)
    requires IsSubsequence(a, b) && IsSubsequence(b, c)
    ensures IsSubsequence(a, c)
    decreases |c|
  {
    if a != [] {
      SubsequenceMembers(a, b);
      SubsequenceMembers(b, c);
      if b[0] == c[0] && IsSubsequence(b[1..], c[1..]) {
        if a[0] == b[0] && IsSubsequence(a[1..], b[1..]) {
          SubsequenceTransitive(a[1..], b[1..], c[1..]);
        } else {
          SubsequenceTransitive(a, b[1..], c[1..]);
        }
      } else {
        SubsequenceTransitive(a, b, c[1..]);
      }
    }
  }

  /** `s.filter(keep)`: the points that pass, in their original order, each
      as many times as it occurs in `s`. */
  function Filter(s: seq<Point>, keep: Point -> bool): (r: seq<Point>)
    ensures |r| <= |s|
    ensures forall p :: p in r <==> p in s && keep(p)
    ensures forall p :: multiset(r)[p] == if keep(p) then multiset(s)[p] else 0
    ensures IsSubsequence(r, s)
  {
    if s == [] then []
    else
      assert s == [s[0]] + s[1..];
      if keep(s[0]) then [s[0]] + Filter(s[1..], keep)
      else Filter(s[1..], keep)
  }

  /** A filter that every point passes returns the series unchanged. */
  lemma {:induction false} FilterKeepsAll(s: seq<Point>, keep: Point -> bool)
    requires forall p :: p in s ==> keep(p)
    ensures Filter(s, keep) == s
  {
    if s != [] {
      FilterKeepsAll(s[1..], keep);
    }
  }

  /** `s.slice(-n)` for a positive `n`: the last `n` points, or all of them
      when there are fewer. */
  function TakeLast(s: seq<Point>, n: nat): (r: seq<Point>)
    requires n > 0
    ensures |r| == if |s| <= n then |s| else n
    ensures r == s[|s| - |r|..]
    ensures IsSubsequence(r, s)
  {
    SuffixIsSubsequence(s, if |s| > n then |s| - n else 0);
    s[if |s| > n then |s| - n else 0..]
  }

  /** One metric's series after a successful poll: unchanged when the
      response has no value for it, otherwise the pruned previous points followed
      by the new point. */
  function NewSeries(previous: seq<Point>, reading: Option<int>, currentTime: int,
                     prune: (seq<Point>, int) -> seq<Point>): seq<Point>
  {
    match reading
    case None => previous
    case Some(v) => prune(previous, currentTime) + [Point(currentTime, v)]
  }

  /** The shape of a new series: unchanged for an undefined reading, otherwise
      exactly one point longer than what the rule kept, the kept points first
      and the new point last. */
  lemma NewSeriesShape(previous: seq<Point>, reading: Option<int>, currentTime: int,
                       prune: (seq<Point>, int) -> seq<Point>)
    ensures reading.None? ==> NewSeries(previous, reading, currentTime, prune) == previous
    ensures reading.Some? ==> var r := NewSeries(previous, reading, currentTime, prune);
      && |r| == |prune(previous, currentTime)| + 1
      && r[|r| - 1] == Point(currentTime, reading.value)
      && r[..|r| - 1] == prune(previous, currentTime)
  {
  }

  /** The whole buffer after a successful poll: every key of the previous buffer,
      each with its `NewSeries`. The buffer keeps exactly its keys, and a
      metric the response does not carry keeps its series untouched. */
  function Merged(prev: History, data: Snapshot, currentTime: int,
                  prune: (seq<Point>, int) -> seq<Point>): (next: History)
    ensures next.Keys == prev.Keys
    ensures forall m :: m in prev && data.Measured(m).None? ==> next[m] == prev[m]
  {
    map m | m in prev :: NewSeries(prev[m], data.Measured(m), currentTime, prune)
  }

  /** The history updater: copy the previous buffer, then walk its keys and
      assign each key whose reading is defined. */
  method ApplyPoll(prev: History, data: Snapshot, currentTime: int,
                   prune: (seq<Point>, int) -> seq<Point>) returns (next: History)
    ensures next == Merged(prev, data, currentTime, prune)
  {
    next := prev;
    var i := 0;
    while i < |MetricKeys|
      invariant 0 <= i <= |MetricKeys|
      invariant next.Keys == prev.Keys
      invariant forall m :: m in prev ==>
        next[m] == if m in MetricKeys[..i] then NewSeries(prev[m], data.Measured(m), currentTime, prune) else prev[m]
    {
      var key := MetricKeys[i];
      assert MetricKeys[..i + 1] == MetricKeys[..i] + [key];
      if key in next && data.Measured(key).Some? {
        next := next[key := prune(prev[key], currentTime) + [Point(currentTime, data.Measured(key).value)]];
      }
      i := i + 1;
    }
    assert MetricKeys[..i] == MetricKeys;
    assert forall m :: m in MetricKeys by {
      forall m: Metric ensures m in MetricKeys {
        MetricKeysCoverAll(m);
      }
    }
  }

  /** A series only ever gains one point, at the poll time, after points that
      the rule kept in order: if the previous series is ordered and not later than
      the poll time, so is the new one, and it is at most one point longer. */
  lemma NewSeriesOrdered(previous: seq<Point>, reading: Option<int>, currentTime: int,
                         prune: (seq<Point>, int) -> seq<Point>)
    requires IsSubsequence(prune(previous, currentTime), previous)
    requires Sorted(previous) && NotAfter(previous, currentTime)
    ensures var r := NewSeries(previous, reading, currentTime, prune);
      Sorted(r) && NotAfter(r, currentTime) && |r| <= |previous| + 1
    ensures reading.Some? ==> var r := NewSeries(previous, reading, currentTime, prune);
      |r| > 0 && r[|r| - 1] == Point(currentTime, reading.value)
  {
    if reading.Some? {
      var kept := prune(previous, currentTime);
      SubsequenceSorted(kept, previous);
      SubsequenceMembers(kept, previous);
      var r := kept + [Point(currentTime, reading.value)];
      forall i, j | 0 <= i < j < |r| ensures r[i].time <= r[j].time {
        assert r[i] == kept[i] && r[i] in previous;
        if j < |kept| {
          assert r[j] == kept[j];
        }
      }
    }
  }
}
