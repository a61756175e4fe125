# Plant-environment dashboard: reading store and sensor history buffers

This project is a Dafny model of the bookkeeping core of a small plant-monitoring
web application. There are three parts:

- **Reading store** (`server.js`). One process-wide sensor snapshot. It holds four
  measured readings (SoilTemp, AirTemp, Humidity, SoilMoisture) and four ideal
  targets. `POST /api/sensor-data` overwrites the four measured fields with the
  request body's values. `GET /api/sensor-data` returns the snapshot.
- **Age-tiered history buffer** (`src/App.jsx`). A dashboard that polls the store.
  It keeps one series of `{time, value}` points per metric. On each successful
  poll, each series whose metric the response defines is pruned with
  `shouldKeepTimestamp` (everything under a minute old is kept, then only
  multiples of 5 s up to five minutes, then only multiples of 15 s up to ten
  minutes) and gets one new point; the other series are untouched. A failed poll
  only sets the error notice. A placeholder snapshot is shown until the first
  successful poll.
- **Sliding-window history buffer** (`src/dashboard.jsx`). The second dashboard.
  It seeds ten points per metric, one minute apart. On each successful poll, each
  series whose metric the response defines keeps its old points newer than ten
  minutes, cut to the newest sixty, and gets the new point; the other series are
  untouched. A failed poll only sets the error notice. Its cards show
  `reading || default`.

Modules:

- `Sensor` (sensor.dfy): the metric keys and the eight-field `Snapshot`. A missing
  JSON field (`undefined`) is `None`.
- `Series` (series.dfy): points, subsequences, `Filter`, `TakeLast` (JavaScript's
  `slice(-n)`), and the merge step both dashboards share. `ApplyPoll` is the
  per-key loop. It is proved equal to the `Merged` function. Each dashboard
  passes its own pruning function.
- `AgeTieredHistory` (app.dfy): `src/App.jsx`. `Dashboard` is a class holding
  `sensorData`, `error` and `historicalData`.
- `SlidingWindowHistory` (dashboard.dfy): `src/dashboard.jsx`, with its own
  `Dashboard` class.
- `ReadingStore` (server.js → server.dfy): the `Store` class with `Post` and `Get`.
- `Polling` (poller.dfy): the outcome of one poll and the failure notice, shared
  by both dashboards.
- `PollTransport` (transport.dfy): one App poll composed with the store (see
  Findings).

A poll is an abstract `PollOutcome`. It is either `Succeeded(data, currentTime)`,
meaning the parsed response plus the `Date.now()` read after it, or `Failed`.

Three behaviours of the code that a reader might not expect:

- A POST sets any measured field missing from the body to `undefined`. It does not
  keep the old value (`ReadingStore.PartialBodyClearsOthers`). So after
  `update({SoilTemp: 30})` the other three measured fields are gone, not unchanged.
- Both dashboards prune the OLD points and then append the new one. The new point
  is never pruned.
- A failed poll leaves the history untouched. Nothing is substituted into the
  history. `src/App.jsx` shows its placeholder only while no poll has ever
  succeeded.

## Model

| member | source | states |
|---|---|---|
| Series.Filter | src/App.jsx:66-67 | `filter` keeps exactly the points that pass, each as many times as it occurs in the input, is no longer than its input, and is a subsequence of it (order kept) |
| Series.TakeLast | src/dashboard.jsx:86 | `slice(-n)`: length `min(len, n)`, the suffix of that length, a subsequence of the input |
| Series.SubsequenceSorted | src/App.jsx:66-69 | dropping points from a time-ordered series leaves it time-ordered |
| Series.SubsequenceTransitive | src/dashboard.jsx:84-86 | a subsequence of a subsequence (filter then slice) is a subsequence of the original |
| Series.ApplyPoll | src/App.jsx:56-73 | the copy-then-assign loop over the buffer's keys yields exactly `Merged`: each key present in the response gets pruned old points plus the new point; every other key keeps its series |
| Series.NewSeriesOrdered | src/App.jsx:66-69 | if the pruning keeps a subsequence and the old series is ordered and not after `currentTime`, the new series is ordered, not after `currentTime`, at most one longer, and ends with `{currentTime, value}` |
| Series.NewSeriesShape | src/App.jsx:59-70 | a metric undefined in the response keeps its series; a defined one becomes the pruned old points followed by exactly one point `{currentTime, data[key]}` |
| Series.Merged | src/App.jsx:57-59 | a poll keeps exactly the buffer's keys, and a metric undefined in the response keeps its series |
| AgeTieredHistory.JsRemainder | src/App.jsx:32-33 | JavaScript's truncating `%` agrees with Dafny's `%` on non-negative ages and is non-positive for negative ones |
| AgeTieredHistory.ShouldKeepTimestamp | src/App.jsx:27-35 | a kept point is under ten minutes old, and every point under one minute old is kept |
| AgeTieredHistory.RecentTierKeepsAll | src/App.jsx:28-31 | every age below 60000 ms is kept, negative ages included |
| AgeTieredHistory.FiveSecondTier | src/App.jsx:32 | for 60000 ≤ age < 300000: kept exactly when age mod 5000 = 0 |
| AgeTieredHistory.FifteenSecondTier | src/App.jsx:33 | for 300000 ≤ age < 600000: kept exactly when age mod 15000 = 0 |
| AgeTieredHistory.OldTierDropsAll | src/App.jsx:34 | any age of 600000 or more is dropped |
| AgeTieredHistory.TierExamples | src/App.jsx:27-35 | 61 s and 305 s are dropped, 65 s and 300 s kept, 601 s dropped |
| AgeTieredHistory.KeepTiered | src/App.jsx:66-67 | the old points that pass the age rule, each as many times as it occurs, in their original order, and no others |
| AgeTieredHistory.TieredMerge | src/App.jsx:56-73 | the updater keeps the buffer's keys and leaves a metric undefined in the response untouched |
| AgeTieredHistory.TieredMergeMeaning | src/App.jsx:56-73 | after a successful poll the keys are unchanged; an undefined metric keeps its series; a defined one becomes the old points passing the rule, in order, each as many times as it occurs, followed by exactly `{currentTime, data[key]}`, and then holds no point ten minutes old |
| AgeTieredHistory.TieredMergeOrdered | src/App.jsx:66-69 | a time-ordered series with no point after `currentTime` stays ordered and not after it, grows by at most one, and ends at `currentTime` when updated |
| AgeTieredHistory.DisplayData | src/App.jsx:86-97 | the placeholder (ideal soil moisture 45) while no response has arrived, otherwise the last response; with the constructor and `Poll`, the placeholder shows until the first successful poll |
| AgeTieredHistory.Dashboard.constructor | src/App.jsx:17-24 | no snapshot, no error, four empty series |
| AgeTieredHistory.Dashboard.Poll | src/App.jsx:47-76 | success: snapshot stored, error cleared, buffer merged; failure: fixed message set, snapshot and buffer unchanged |
| AgeTieredHistory.TieredReplay | src/App.jsx:56-73 | a run of ticks never adds or removes a buffer key |
| AgeTieredHistory.LastResponse | src/App.jsx:47-76 | the response on screen after a run of ticks is absent exactly when it was absent before and every tick failed |
| AgeTieredHistory.AllFailedKeeps | src/App.jsx:74-75 | a run of ticks that all fail leaves the response on screen as it was |
| AgeTieredHistory.NewestSuccessShown | src/App.jsx:47-76 | after a run of ticks the response on screen is that of the newest success, whatever came before it |
| AgeTieredHistory.Dashboard.PollAll | src/App.jsx:80-81 | over a run of ticks the snapshot stays absent, so the placeholder shows, exactly while no tick has succeeded; the snapshot is the newest successful response, or the one from before the run when every tick failed; the notice follows the last tick; the buffer is the replay of the successes |
| SlidingWindowHistory.Recent | src/dashboard.jsx:83-85 | exactly the old points with `time > currentTime - 600000`, each as many times as it occurs, in order |
| SlidingWindowHistory.KeepWindow | src/dashboard.jsx:83-86 | at most 60 old points, all inside the window, a subsequence of the old series |
| SlidingWindowHistory.KeepWindowIsNewestOfRecent | src/dashboard.jsx:86 | of the points inside the window exactly the newest `min(60, count)` survive, as a suffix |
| SlidingWindowHistory.WindowMerge | src/dashboard.jsx:71-92 | the updater keeps the buffer's keys and leaves a metric undefined in the response untouched |
| SlidingWindowHistory.KeepWindowKeepsShortRecent | src/dashboard.jsx:83-88 | a series already inside the window and at most 60 long keeps every point |
| SlidingWindowHistory.WindowMergeMeaning | src/dashboard.jsx:71-92 | after a successful poll the keys are unchanged; an undefined metric keeps its series; a defined one has at most 61 points, ends with `{currentTime, data[key]}`, and the rest are a suffix of the old points inside the window, in order |
| SlidingWindowHistory.WindowMergeKeepsNewest | src/dashboard.jsx:83-88 | a metric in the response keeps exactly `min(60, count)` old points, `count` being how many lie inside the window |
| SlidingWindowHistory.WindowBoundPreserved | src/dashboard.jsx:86-88 | the bound of 61 points per series is preserved by every poll |
| SlidingWindowHistory.WindowMergeOrdered | src/dashboard.jsx:84-88 | a time-ordered series with no point after `currentTime` stays ordered and ends at `currentTime` when updated |
| SlidingWindowHistory.SeedHistory | src/dashboard.jsx:37-53 | every metric gets exactly 10 points at now−540000, …, now, 60000 apart, the last at `now`, with the drawn baselines |
| SlidingWindowHistory.FirstPollKeepsSeed | src/dashboard.jsx:83-85 | a first poll less than a minute after seeding (or stamped before it) keeps all ten seeded points |
| SlidingWindowHistory.OrDefault | src/dashboard.jsx:110 | `reading || fallback`: the reading when defined and non-zero, the fallback otherwise |
| SlidingWindowHistory.CurrentShown | src/dashboard.jsx:105-146 | the card shows the truthy reading of the response, otherwise 25/22/60/40 |
| SlidingWindowHistory.IdealShown | src/dashboard.jsx:111-141 | the card shows the truthy ideal of the response, otherwise 23/21/65/45 |
| SlidingWindowHistory.ZeroReadingShowsDefault | src/dashboard.jsx:110-141 | a reading or ideal of 0 displays like a missing one: as the default |
| SlidingWindowHistory.Dashboard.constructor | src/dashboard.jsx:17-24 | no snapshot, no error, four empty series |
| SlidingWindowHistory.Dashboard.Seed | src/dashboard.jsx:27-56 | the buffer becomes the seeded one; snapshot and error unchanged |
| SlidingWindowHistory.Dashboard.Poll | src/dashboard.jsx:58-97 | success: snapshot stored, error cleared, buffer window-merged; failure: fixed message set, snapshot and buffer unchanged |
| ReadingStore.Merge | server.js:25-34 | every measured field becomes the body's (undefined if absent); every ideal field keeps its stored value |
| ReadingStore.MergeForgetsMeasured | server.js:28-34 | the state after POST does not depend on the previously stored measured values |
| ReadingStore.MergeIdempotent | server.js:28-34 | posting the same body twice equals posting it once |
| ReadingStore.MergeIgnoresBodyIdeals | server.js:26 | ideal fields sent in a body have no effect |
| ReadingStore.PartialBodyClearsOthers | server.js:26-34 | a body with only SoilTemp leaves the other measured fields undefined and the ideals as stored |
| ReadingStore.Store.constructor | server.js:14-23 | the store starts at 25/22/60/40 with ideals 23/21/65/41 |
| ReadingStore.Store.Post | server.js:25-37 | the snapshot becomes `Merge(old, body)`; the reply is status 200 with "Data received successfully" |
| ReadingStore.Store.Get | server.js:40-44 | returns the current snapshot and changes nothing |
| PollTransport.AppPollAsWrittenLosesReadings | src/App.jsx:40-46 | polling by POST with `{}` clears the stored readings, adds no point to any series, and leaves no current value to display |
| PollTransport.AppPollAsWrittenExample | src/App.jsx:40-46 | from the initial store (SoilTemp 25) and an empty buffer, the poll leaves SoilTemp undefined in the store and the SoilTemp series empty |
| PollTransport.AppPollByGetRecords | src/dashboard.jsx:61 | polling by GET leaves the store unchanged, and every stored reading becomes the newest point of its series |

## Left out

- Rendering is not modelled: recharts, `toLocaleTimeString`/`displayTime`, `toFixed`, `formatXAxis`, the Y-axis `Math.floor`/`Math.ceil` domain, the tooltip and the page layout. These are presentation and floating-point concerns.
- `fetch`, `setInterval`/`clearInterval`, the one-second `setTimeout` before the GET reply, Express routing, CORS and `console.log` are not modelled. Each tick is one `PollOutcome`, and outcomes are applied one at a time. Overlapping in-flight requests are not modelled.
- The three React state setters of a successful poll are modelled as one atomic step.
- Clock monotonicity is not assumed. The ordering lemmas hold when no stored point lies after the poll time.
- Randomness: the seeding loop's `Math.random` baselines are the `draw` parameter.
- Readings are integers. Sensor values are only copied, so nothing is computed on them. Floating point, `NaN`, `null` and non-numeric JSON values are not modelled.
- Malformed request bodies, which `express.json` rejects before the POST handler runs, are not modelled.
- AgeTieredHistory.TieredMergeOrdered: does not state a maximum point count for the age-tiered buffer. It proves only that no kept point is ten minutes old and that each poll adds at most one point. Bounding the count would need distinct timestamps, which the source does not enforce.
- `src/components/navbar.jsx` is not part of this model. It is navigation UI and a random ember animation.
- `NodeMcuHTTPcode/src/main.cpp` is not part of this model. It is WiFi/HTTP client code that posts random readings.

## Findings

| source | as written | input that shows it | evidently intended | confidence | as-written member | corrected member |
|---|---|---|---|---|---|---|
| src/App.jsx:40-46 | The dashboard polls `/api/sensor-data` with `POST` and body `{}`. `server.js` serves that route with its update handler. That handler sets all four measured fields to undefined and replies only `{message}`. | Store at its initial snapshot, empty buffer, one poll: the store loses SoilTemp 25 and no series gains a point. | Poll with `GET`, as `src/dashboard.jsx:61` does. Each stored reading is then appended and the store is left alone. | medium (the dev-server proxy is not visible); not executed | PollTransport.AppPollAsWrittenLosesReadings | PollTransport.AppPollByGetRecords |
