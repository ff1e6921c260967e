# bus-time-travel, modelled in Dafny

bus-time-travel records where city buses are over time and replays their recent movement on a map.

A Rust backend polls a public GTFS-realtime vehicle feed every 30 seconds. It keeps the vehicles of a few watched routes, joins each one with its route metadata, and appends the resulting record to a history of at most 720 records. That history is served at `/history`. A React front end fetches it and draws three things: each vehicle's trail, one colour per route, and markers for where each vehicle was five and ten minutes earlier.

The repository has two versions of the backend, and both are modelled:

- **The older backend.** It reads a static route table (`ROUTES`) keyed by route id, and follows a fixed list of route ids.
- **The newer backend.** A refresher task re-downloads the route table every hour, keyed by route short name. A readiness signal is fired on the first successful refresh. A poller task waits for that signal, then keeps the feed entities of the watched short names `212` and `215`.

## Modules

| file | module | what it holds |
|---|---|---|
| `wrappers.dfy` | `Wrappers` | `Option`, `Result` |
| `transit.dfy` | `Transit` | routes, feed entities, locations, records, the JSON fields the rate-limit check looks at, the `Error` enum with its display text and HTTP response |
| `history.dfy` | `History` | the bounded history: `Window` (the eviction rule as a function) and the `HistoryBuffer` class |
| `route_table.dfy` | `RouteTable` | row decoding, the keyed map both backends build, and the newer backend's `refresh_routes` loop as a method |
| `feed.dfy` | `Feed` | the part of `get_location` the two backends share: the rate-limit check, the decoding outcome, then the filter and join |
| `static_backend.dfy` | `StaticBackend` | the older backend: `ROUTES`, its `get_location` and one poller iteration |
| `string_order.dfy` | `StringOrder` | the lexicographic order on strings and the least element of a set, used for the tie-break of the corrected join |
| `live_backend.dfy` | `LiveBackend` | the newer backend. The `Backend` class holds the shared state, and its refresher and poller steps are methods. The same transitions also exist as values (`State`, `Run`), so that lemmas can state properties of whole runs |
| `trails.dfy` | `Trails` | the front end's helpers: pairing up trail segments, grouping records into vehicle trails (an imperative method plus its specification function), picking the latest records, route colours and the five- and ten-minute markers |

Throughout, `now` is a parameter: it is the poll's own timestamp (`Utc::now()` in the source). The outcome of each network fetch is also a parameter. For the feed that is a `Fetched` value. For the route table it is the downloaded rows or the failure that happened before any row was read.

### The join of the newer backend

The filter at backend/temp/src/main.rs:203 keeps the entities whose route id is the `route_id` of a watched directory entry. The join at line 208 then looks that same route id up in the monitored map. That map is keyed by short name: `refresh_routes` inserts each route under `route_short_name` (line 152), and the collect at lines 197-199 keeps those keys. So the `unwrap` panics for every kept entity whose route id is not also a short name in the map.

The model keeps both readings apart; see "## Findings":

- `LiveBackend.GetLocation` is the join as written. It requires the lookup to succeed (`LiveJoinDefined`).
- `LiveBackend.JoinKeyMismatch` shows a case that breaks this requirement: a directory `{"A": route "1"}` watching `A`, with a vehicle on route `1`.
- `LiveBackend.IntendedGetLocation` joins through the monitored routes re-keyed by route id (`RouteIndex`). It needs no precondition. This is the join `Backend.PollerStep` uses.

Four other lines of the newer backend do not type-check as written. The model gives each its evident meaning and keeps the keys exactly as written:

- Line 85 passes `route_info_list_clone` by value inside the loop, so the second iteration would use a moved value. The model reads the current directory on every iteration.
- Line 197 iterates a mutex guard by value. The model iterates the entries.
- Line 203 moves a `String` out of a borrowed route and compares it with a `&str`. The model compares the route ids.
- Line 208 stores a reference where a `RouteInfo` is expected. The model clones the route.

## Model

| member | source | states |
|---|---|---|
| Transit.Display | backend/temp/src/main.rs:228-238 | the `#[error]` text of each variant; what it says inside a response is stated by `IntoResponse` and `RateLimitedBodyCarriesMessage` |
| Transit.IntoResponse | backend/temp/src/main.rs:240-254 | every error becomes status 500, and the body's `error` member is that error's display text |
| Transit.RateLimitedBodyCarriesMessage | backend/temp/src/main.rs:228-254 | a rate-limit response body is the fixed `Rate limited: ` prefix followed by the upstream message, so the message can be recovered |
| Transit.ResponseStatusIsGeneric | backend/src/main.rs:167-181 | the HTTP status does not tell the error kinds apart |
| History.Window | backend/temp/src/main.rs:90-95 | what push-then-drain leaves; its meaning is stated by `WindowShape`, `WindowPush` and `AppendAllIsWindow` |
| History.WindowShape | backend/temp/src/main.rs:87-95 | after eviction, the buffer holds `min(len, 720)` records, and they are a suffix of what was there; a list within the bound is left alone |
| History.WindowAppend | backend/temp/src/main.rs:87-95 | evicting before the next push loses nothing that evicting after it would keep |
| History.WindowPush | backend/src/main.rs:55-63 | one push-then-drain keeps the bound, puts the new record last and keeps the older records in order |
| History.AppendAllIsWindow | backend/temp/src/main.rs:86-95 | any number of single appends to a buffer within the bound leaves exactly the newest 720 of everything, in order |
| History.WindowConcat | backend/temp/src/main.rs:86-95 | evicting part-way and then appending more is the same as evicting once at the end |
| History.AppendsFromEmpty | backend/temp/src/main.rs:48-95 | starting from the empty vector, N successful polls leave the last `min(N, 720)` records, in poll order |
| History.HistoryBuffer.constructor | backend/temp/src/main.rs:48 | the history starts empty and within the bound |
| History.HistoryBuffer.Append | backend/temp/src/main.rs:87-95 | push then drain: the new contents are the eviction window of the old contents plus the record, and the bound holds |
| History.HistoryBuffer.Snapshot | backend/temp/src/main.rs:165-168 | `/history` returns a copy of the whole buffer, oldest first |
| RouteTable.DecodeRow | backend/src/main.rs:25-30 | a row decodes exactly when it was read and has at least four fields; the route is built from fields 0, 2 and 3 |
| RouteTable.DecodeIgnoresField1 | backend/src/main.rs:26-28 | the unused second column does not affect the decoded route |
| RouteTable.LastWithKey | backend/src/main.rs:32-33 | finds the last row with a given key, or -1 when none has it |
| RouteTable.Collect | backend/src/main.rs:23-33 | the map built by inserting the decoded rows in order; its meaning is stated by `CollectSpec` against `LastWithKey` |
| RouteTable.CollectSpec | backend/src/main.rs:23-33 | a key is in the map exactly when some row decodes with that key, and it maps to the route of the last such row (later rows win) |
| RouteTable.CollectKeysMatchValues | backend/src/main.rs:32-33 | every map key is the key field of the route it maps to |
| RouteTable.CollectSkipsUndecodable | backend/src/main.rs:24-31 | a row that does not decode leaves the map unchanged |
| RouteTable.RefreshRoutes | backend/temp/src/main.rs:149-155 | the insert loop returns exactly `RefreshResult`: the map of every row keyed by short name, or an error at the first bad row, or the download's own failure |
| RouteTable.RefreshResultSpec | backend/temp/src/main.rs:149-155 | a refresh succeeds exactly when every row decodes; a short name is then a key exactly when some row has it, with the last such row as its value |
| RouteTable.OneBadRowFailsRefresh | backend/temp/src/main.rs:150-151 | one undecodable row anywhere makes the whole refresh fail |
| Feed.RateLimitMessage | backend/temp/src/main.rs:178-183 | rate limiting is signalled exactly when `statusCode` is the unsigned integer 429; the message is the string `message` member, or `Rate limit exceeded` when that member is absent or not a string |
| Feed.Emit | backend/src/main.rs:129-138 | the filter plus join yields no more locations than there are entities, and every location's route is one of the table's routes |
| Feed.EmitConcat | backend/src/main.rs:129-138 | filtering and joining distribute over concatenation, so kept entities come out in feed order |
| Feed.EmitSingle | backend/src/main.rs:130-137 | a single entity yields its own location when its route id is kept, and nothing otherwise |
| Feed.EmitExactly | backend/temp/src/main.rs:202-211 | every kept entity yields its location, and every location comes from a kept entity, with its coordinates, timestamp and vehicle id copied |
| Feed.Poll | backend/temp/src/main.rs:170-224 | a transport failure is a reqwest error. A 429 status is a rate-limit error whatever the body holds. Otherwise an undecodable body is a serde_json error. Otherwise the result is a record stamped `now` holding the filtered, joined locations |
| Feed.OtherStatusFallsThrough | backend/src/main.rs:110-115 | a status other than 429 has no effect on the outcome |
| Feed.RateLimitedPollMessage | backend/src/main.rs:110-115 | a rate-limited poll fails with the upstream message, or with the default text |
| StaticBackend.Routes | backend/src/main.rs:17-34 | `ROUTES`; its meaning is stated by `RoutesSpec` |
| StaticBackend.RoutesSpec | backend/src/main.rs:17-34 | a route id is in `ROUTES` exactly when some row with at least four fields has it in field 0; its entry comes from the last such row, and short or unreadable rows are skipped |
| StaticBackend.GetLocation | backend/src/main.rs:102-151 | `get_location` of the older backend; its outcomes are stated by `Feed.Poll`, and its locations by `StaticLocations` |
| StaticBackend.StaticLocations | backend/src/main.rs:124-138 | every location comes from an entity on a listed route id, with that route's own `ROUTES` entry; every such entity is emitted |
| StaticBackend.PollStep | backend/src/main.rs:51-72 | one poller iteration: the outcome is `get_location`'s; on success the history becomes the eviction window of old plus the record, and on failure it is unchanged |
| LiveBackend.MonitoredRoutes | backend/temp/src/main.rs:192-200 | the directory entries whose short name is watched, under their short-name keys; stated by `LiveLocations` |
| LiveBackend.WatchedRouteIds | backend/temp/src/main.rs:203 | the route ids the filter keeps; stated by `LiveLocations` |
| LiveBackend.GetLocation | backend/temp/src/main.rs:170-224 | `get_location` of the newer backend with the join as written; its outcomes are stated by `Feed.Poll`, its locations by `LiveLocations`, and its failing case by `JoinKeyMismatch` |
| LiveBackend.LiveLocations | backend/temp/src/main.rs:192-211 | the emitted locations are exactly the entities whose route id belongs to a watched directory entry; each location's route is a watched directory entry |
| LiveBackend.JoinKeyMismatch | backend/temp/src/main.rs:197-208 | for a directory `{"A": route "1"}` watching `A` and a vehicle on route `1`, the filter keeps the vehicle, but `1` is not a key of the short-name map, so the join as written cannot succeed |
| StringOrder.Least | backend/temp/src/main.rs:197-208 | the least element of a non-empty set of strings in lexicographic order; the tie-break `RouteIndex` uses |
| LiveBackend.RouteIndex | backend/temp/src/main.rs:203-208 | the monitored routes re-keyed by route id: its keys are exactly the route ids the filter keeps, and each maps to a monitored entry with that route id |
| LiveBackend.IntendedGetLocation | backend/temp/src/main.rs:170-224 | `get_location` with the join by route id; its outcomes are stated by `Feed.Poll` and its locations by `IntendedLocations` |
| LiveBackend.IntendedLocations | backend/temp/src/main.rs:202-211 | with the join by route id, the locations are exactly the entities on a watched entry's route id, each joined with a watched entry that has the entity's own route id |
| LiveBackend.IntendedEndToEnd | backend/temp/src/main.rs:192-224 | for a directory `{"A": route "1"}` watching `A` and one vehicle on route `1`, the corrected join yields one record with one location, on route `A`, with the vehicle's coordinates and id |
| LiveBackend.RunKeepsInv | backend/temp/src/main.rs:56-104 | every iteration of either task keeps four things: the history bound, `ready == !first`, at most one readiness signal, and an empty history before readiness |
| LiveBackend.ReadyNeverReverts | backend/temp/src/main.rs:57-67 | once readiness is signalled it stays signalled; once `first` is cleared, no further signal is sent |
| LiveBackend.ReadyIffOkRefreshFrom | backend/temp/src/main.rs:59-67 | readiness holds after a run exactly when it held before or some refresh in the run succeeded |
| LiveBackend.ReadyIffOkRefresh | backend/temp/src/main.rs:43-83 | from start-up, readiness is signalled exactly when a refresh has succeeded, and at most once |
| LiveBackend.StaleOnFailure | backend/temp/src/main.rs:69-71 | failed refreshes keep the previous directory (stale data rather than none) |
| LiveBackend.DirectoryIsLastRefresh | backend/temp/src/main.rs:60-62 | the directory is the map of the last successful refresh, replaced wholesale |
| LiveBackend.HistoryIsWindowOfPolls | backend/temp/src/main.rs:84-100 | once ready, the history is the newest 720 records of all successful polls, in order; failed polls and refreshes leave it alone |
| LiveBackend.NoPollBeforeRefresh | backend/temp/src/main.rs:64-83 | from start-up, nothing is recorded before a refresh has succeeded: the poller waits for the readiness signal |
| LiveBackend.HistoryFromStart | backend/temp/src/main.rs:56-104 | from start-up, the history is the newest 720 records of the successful polls after the first successful refresh, in order |
| LiveBackend.AfterRefresh | backend/temp/src/main.rs:59-71 | one refresher iteration as a value; stated by `ReadyNeverReverts`, `StaleOnFailure` and `DirectoryIsLastRefresh` |
| LiveBackend.AfterPoll | backend/temp/src/main.rs:83-100 | one poller iteration as a value, a no-op before readiness; stated by `HistoryIsWindowOfPolls` and `NoPollBeforeRefresh` |
| LiveBackend.Backend.constructor | backend/temp/src/main.rs:43-57 | start-up state: empty directory and history, `first` set, nothing signalled |
| LiveBackend.Backend.RefresherStep | backend/temp/src/main.rs:56-75 | one refresher iteration: the outcome is `refresh_routes`'s; on success the directory is replaced and readiness is signalled if `first` was set; the invariant holds |
| LiveBackend.Backend.PollerStep | backend/temp/src/main.rs:82-104 | one poller iteration after readiness: the outcome is `IntendedGetLocation` on the current directory, which needs no lookup precondition; the history is updated as in `AfterPoll`, and the invariant holds |
| Trails.WindowPairs | src/App.tsx:26-28 | consecutive pairs: `n - 1` of them (0 for an empty array), pair i is `(arr[i], arr[i+1])`, and neighbouring pairs share an element |
| Trails.FindTrail | src/App.tsx:53 | the first trail with the key, or the number of trails when there is none |
| Trails.BuildVehicleTrails | src/App.tsx:48-64 | the map-based nested loop returns exactly `Grouped` of the flattened records |
| Trails.Grouped | src/App.tsx:48-64 | the trails as a function of the flattened locations; its meaning is stated by `GroupedSpec`, `GroupedTotal`, `TrailMembers` and `NoLocationInTwoTrails` |
| Trails.GroupedSpec | src/App.tsx:48-64 | trails come one per distinct `route_id:vehicle_id` key, in order of first appearance. Each trail holds exactly the locations with its key, in record order, is never empty, and takes its route and vehicle ids from its locations |
| Trails.GroupedTotal | src/App.tsx:50-61 | the trails together hold as many locations as the records did |
| Trails.MemberAt | src/App.tsx:52-60 | a location is in trail i exactly when it is in the records and has that trail's key |
| Trails.HeadAt | src/App.tsx:53-60 | every trail is non-empty, and its route id is its first location's |
| Trails.TrailMembers | src/App.tsx:52-60 | for every trail: a location is in it exactly when it is in the records with that trail's key |
| Trails.EveryLocationInATrail | src/App.tsx:50-61 | every location of the records lands in some trail |
| Trails.NoLocationInTwoTrails | src/App.tsx:52-60 | no location lands in two different trails |
| Trails.KeysCanCollide | src/App.tsx:52 | the `route_id:vehicle_id` key is ambiguous: different route ids can give the same key when an id contains `:` |
| Trails.KeyDeterminesRoute | src/App.tsx:52 | when route ids contain no `:`, equal keys mean equal route ids |
| Trails.IndexOf | src/App.tsx:98 | `indexOf`: -1 exactly when absent; otherwise the first position holding the value |
| Trails.DistinctBasics | src/App.tsx:103 | `Array.from(new Set(...))` has no duplicates and the same members as its input |
| Trails.DistinctOrder | src/App.tsx:103 | it keeps the order of first appearance |
| Trails.GetRouteColor | src/App.tsx:96-100 | a listed route gets the palette colour at its first index mod 6; an unlisted one gets `undefined` (index -1 and JavaScript's `%` give -1, which indexes nothing) |
| Trails.EveryTrailColoured | src/App.tsx:96-103 | every trail's route gets a palette colour |
| Trails.ColourAt | src/App.tsx:96-103 | the i-th distinct route gets palette colour `i mod 6` |
| Trails.PaletteDistinct | src/App.tsx:97 | the six palette colours differ |
| Trails.ColoursDiffer | src/App.tsx:96-100 | in a duplicate-free route list, the first six routes get pairwise different colours |
| Trails.FirstSixColoursDiffer | src/App.tsx:96-103 | the first six routes of the trails get pairwise different colours |
| Trails.FlattenContains | src/App.tsx:50-51 | every location of every record is visited by the loop |
| Trails.LocationRouteHasTrail | src/App.tsx:50-63 | when route ids contain no `:`, every location's route id is the route id of some trail |
| Trails.LatestLocationsColoured | src/App.tsx:91-141 | under that condition, every marker of the latest record gets a colour |
| Trails.NewestFirst | src/App.tsx:70-74 | `res.data.reverse()`; stated by `LatestOfHistory` and `SelectionOfHistory` |
| Trails.Latest | src/App.tsx:91 | `data[0]` or null; stated by `LatestHeadsTenLatest` and `LatestOfHistory` |
| Trails.TenLatest | src/App.tsx:93 | the first 24 records of `data`, or none without data; stated by `LatestHeadsTenLatest` and `SelectionOfHistory` |
| Trails.LatestHeadsTenLatest | src/App.tsx:91-93 | `tenLatest` holds `min(24, n)` records (none without data), it is empty exactly when there is no latest record, and the latest record is its first |
| Trails.LatestOfHistory | src/App.tsx:70-74 | after the reversal in `fetchHistory`, the latest record is the newest one the backend appended (none when the history is empty) |
| Trails.SelectionOfHistory | src/App.tsx:70-93 | `tenLatest` is the newest `min(24, n)` records of the backend history, newest first |
| Trails.SortNewestFirst | src/App.tsx:165 | the sorted copy of a trail; stated by `SortSpec` |
| Trails.InsertByTsContents | src/App.tsx:165 | inserting into the sorted copy adds exactly that location |
| Trails.InsertByTsSorted | src/App.tsx:165 | inserting keeps the copy sorted newest first |
| Trails.SortSpec | src/App.tsx:165 | the sorted copy of a trail is ordered newest first and is a permutation of the trail |
| Trails.FirstAged | src/App.tsx:169-170 | `find`: the first position whose age reaches the threshold, or the length when there is none |
| Trails.Find | src/App.tsx:169-170 | `sorted.find` with an age threshold; stated by `FindSpec` |
| Trails.FindSpec | src/App.tsx:169-170 | searching the sorted copy gives the newest location whose age reaches the threshold, or nothing exactly when none does |
| Trails.TrailMarkers | src/App.tsx:164-170 | the now, five-minute and ten-minute markers of one trail; stated by `MarkersNow`, `MarkersAged` and `MarkersNested` |
| Trails.MarkersNow | src/App.tsx:165-168 | the "now" location belongs to the trail and has its largest timestamp |
| Trails.MarkersAged | src/App.tsx:164-170 | the five- and ten-minute markers are the newest locations at least 300 and 600 seconds older than "now", or absent exactly when there is none |
| Trails.MarkersNested | src/App.tsx:169-170 | a ten-minute marker implies a five-minute marker that is no older than it |

## Left out

- HTTP, TLS and the `x-api-key` header: each fetch is a parameter giving its outcome, with reqwest failures represented by their display text.
- Reading the ZIP archive and the `routes.txt` entry, and CSV parsing. A failure before any row is read is one `DownloadFailed` outcome; this includes the `unwrap` of `ZipArchive::new` at backend/temp/src/main.rs:139, which would panic rather than return an error.
- Reading `assets/routes.txt` in the older backend, whose failure ends the process through `expect`: the rows are a parameter.
- Serde's header-based decoding of `RouteInfo` in the newer backend: the model decodes positionally like the older backend (fields 0, 2, 3 of a row with at least four fields). A header that names the columns in a different order is not modelled.
- serde_json's decoding of the feed body into `Res`: the body is given already decoded or marked undecodable.
- Tokio tasks, mutexes and sleeps: each loop iteration is one method call. Interleavings within an iteration (the lock is held only around the map or vector update) are not modelled.
- `Notify::notify_waiters` only wakes tasks that are already waiting. If the first refresh finishes before the poller reaches `notified().await`, the poller waits forever. The model treats readiness as a flag that the poller needs set, so that lost wake-up is not modelled.
- The `println!` logging, the pretty-printed body dump and the map links: output only.
- `get_current`: the newer backend returns a constant placeholder, and the older one answers with the same `get_location` that `StaticBackend.GetLocation` models.
- The API key check at start-up (`expect` on `API_KEY`), the CORS layer, the router and the listener.
- LiveBackend.GetLocation: requires the lookup in the join to succeed (`LiveJoinDefined`). When it fails, the source panics inside the poller task; the model has no panics.
- LiveBackend.RouteIndex: when several watched entries share a route id, the join by route id takes the entry under the least short name. The source gives no rule for that case.
- LiveBackend.Backend.PollerStep: uses the join by route id. The panic of the join as written is modelled only by `LiveBackend.GetLocation` and `LiveBackend.JoinKeyMismatch`.
- StaticBackend.GetLocation: requires every listed route id that reaches the join to be in `ROUTES`, for the same reason.
- Feed.Emit: latitude and longitude are `real` values that are only copied; `f64` rounding is not modelled.
- Trails.SortNewestFirst: a stable insertion sort standing for `Array.prototype.sort` with the comparator `b.ts - a.ts`. Only order and permutation are proved, not stability, and which of several equal-timestamp locations is "now" is not stated.
- The front-end's timestamps are integers: `Number(ts)` of a string that is not a number (NaN) is not modelled.
- `getSegmentOpacity` (floating point), `date` (locale formatting), the query hook and all JSX and Leaflet rendering.
- The front end reads `route.short_name`, while the newer backend serialises `route_short_name`; only `route_id`, which both use, enters the model.
- The crates under `backend/core`, the Lambda functions and the infrastructure code are not part of this model.

## Findings

| source | as written | input that shows it | evidently intended | confidence | as-written member | corrected member |
|---|---|---|---|---|---|---|
| backend/temp/src/main.rs:208 | the join looks the entity's route id up in the monitored map, which is keyed by short name (lines 152 and 197-199), and unwraps the result | a directory `{"A": route "1"}` watching `A` and one vehicle on route `1`: the filter at line 203 keeps the vehicle, and the lookup of `1` fails, so the poller task panics | look the kept entity's route id up by route id among the monitored routes; every kept entity then yields a location on its own route | high (not executed) | LiveBackend.JoinKeyMismatch | LiveBackend.IntendedGetLocation |
