/**
 * The newer backend, backend/temp/src/main.rs: a route directory keyed by
 * short name that a refresher task replaces every hour, a readiness
 * signal fired on the first successful refresh, and a poller task that
 * waits for it and then appends each successful poll to the history.
 *
 * Tokio tasks, locks and sleeps are not modelled: `Backend` holds the
 * shared state and its two methods are one iteration of each loop body.
 * `State`, `AfterRefresh`, `AfterPoll` and `Run` give the same
 * transitions as values, so that properties of whole runs can be stated.
 */
module LiveBackend {
  import opened Wrappers
  import opened Transit
  import History
  import opened RouteTable
  import opened Feed
  import StringOrder

  /** `busses_to_watch` in `get_location`: route short names. */
  const BussesToWatch: seq<string> := ["212", "215"]

  /** The directory entries whose route's short name is watched; the keys
      stay what they are in the directory (short names). */
  function MonitoredRoutes(directory: map<string, RouteInfo>, watched: seq<string>): map<string, RouteInfo>
  {
    map k | k in directory && directory[k].shortName in watched :: directory[k]
  }

  /** `routes.values().map(|r| r.route_id)`: the route ids the filter keeps. */
  function WatchedRouteIds(routes: map<string, RouteInfo>): set<string>
  {
    set k | k in routes :: routes[k].routeId
  }

  /** The join of this backend looks the entity's ROUTE ID up in the
      monitored map, whose keys are SHORT NAMES (`refresh_routes` inserts
      under `route_short_name`). As written, the `unwrap` only succeeds for
      a kept entity whose route id happens to be a short name in the map;
      this predicate states that condition. */
  predicate LiveJoinDefined(fetched: Fetched, directory: map<string, RouteInfo>, watched: seq<string>)
  {
    var routes := MonitoredRoutes(directory, watched);
    JoinDefined(fetched, WatchedRouteIds(routes), routes)
  }

  /** `get_location` of this backend, with the key mismatch kept. */
  function GetLocation(fetched: Fetched, directory: map<string, RouteInfo>, watched: seq<string>, now: string): Result<Record, Error>
    requires LiveJoinDefined(fetched, directory, watched)
  {
    var routes := MonitoredRoutes(directory, watched);
    Poll(fetched, WatchedRouteIds(routes), routes, now)
  }

  /** The emitted locations are exactly the feed entities whose route id
      is the route id of a watched directory entry; each copies its
      entity's fields, and its route is a watched directory entry. */
  lemma LiveLocations(fetched: Fetched, directory: map<string, RouteInfo>, watched: seq<string>, now: string)
    requires LiveJoinDefined(fetched, directory, watched)
    ensures var r := GetLocation(fetched, directory, watched, now);
      r.Success? ==>
        forall loc :: loc in r.value.locations ==>
          && loc.route in directory.Values
          && loc.route.shortName in watched
          && exists i :: 0 <= i < |fetched.payload.body.entities| &&
               var e := fetched.payload.body.entities[i];
               && (exists k :: k in directory && directory[k].shortName in watched && directory[k].routeId == e.routeId)
               && loc == ToLocation(e, loc.route)
    ensures var r := GetLocation(fetched, directory, watched, now);
      r.Success? ==>
        forall e, k :: e in fetched.payload.body.entities && k in directory &&
                       directory[k].shortName in watched && directory[k].routeId == e.routeId ==>
          && e.routeId in MonitoredRoutes(directory, watched)
          && ToLocation(e, MonitoredRoutes(directory, watched)[e.routeId]) in r.value.locations
  {
    var r := GetLocation(fetched, directory, watched, now);
    if r.Success? {
      var es := fetched.payload.body.entities;
      var routes := MonitoredRoutes(directory, watched);
      var ids := WatchedRouteIds(routes);
      EmitExactly(es, ids, routes);
      forall loc | loc in r.value.locations
        ensures && loc.route in directory.Values
                && loc.route.shortName in watched
                && exists i :: 0 <= i < |es|
                     && (exists k :: k in directory && directory[k].shortName in watched && directory[k].routeId == es[i].routeId)
                     && loc == ToLocation(es[i], loc.route)
      {
        var i :| 0 <= i < |es| && es[i].routeId in ids && es[i].routeId in routes && loc == Located(es[i], routes);
        var k :| k in routes && routes[k].routeId == es[i].routeId;
        assert directory[es[i].routeId] == loc.route;
      }
      forall e, k | e in es && k in directory && directory[k].shortName in watched && directory[k].routeId == e.routeId
        ensures e.routeId in routes && ToLocation(e, routes[e.routeId]) in r.value.locations
      {
        assert k in routes;
        var i :| 0 <= i < |es| && es[i] == e;
      }
    }
  }

  /** The end-to-end case of a directory {"A": route "1"} watching "A" and
      a feed with one vehicle on route "1": the filter keeps the vehicle,
      but its route id "1" is not a key of the short-name map, so the
      `unwrap` of the join would panic. */
  lemma JoinKeyMismatch()
    ensures
      var dir := map["A" := RouteInfo("1", "A", "Route A")];
      var e := Entity("e1", "1", "1700000000", 40.0, -74.0, "V1");
      && e.routeId in WatchedRouteIds(MonitoredRoutes(dir, ["A"]))
      && !LiveJoinDefined(Received(Payload(None, None, Entities([e]))), dir, ["A"])
  {
    var dir := map["A" := RouteInfo("1", "A", "Route A")];
    var e := Entity("e1", "1", "1700000000", 40.0, -74.0, "V1");
    var p := Payload(None, None, Entities([e]));
    var routes := MonitoredRoutes(dir, ["A"]);
    assert "A" in routes;
    assert "1" in WatchedRouteIds(routes);
    assert "1" !in routes;
    assert RateLimitMessage(p).None?;
    assert [e][0].routeId in WatchedRouteIds(routes) && [e][0].routeId !in routes;
    assert !Joinable([e], WatchedRouteIds(routes), routes);
  }

  /** The directory keys of the monitored entries whose route id is `id`. */
  function KeysWithRouteId(routes: map<string, RouteInfo>, id: string): set<string>
  {
    set k | k in routes && routes[k].routeId == id
  }

  /** The monitored routes re-keyed by route id, the map the join at line
      208 evidently means to look in. When several monitored entries share
      a route id, the one under the least short name is taken: the source
      has no rule for that case. */
  function RouteIndex(routes: map<string, RouteInfo>): (index: map<string, RouteInfo>)
    ensures index.Keys == WatchedRouteIds(routes)
    ensures forall id :: id in index ==> index[id] in routes.Values && index[id].routeId == id
  {
    map id | id in WatchedRouteIds(routes) ::
      var ks := KeysWithRouteId(routes, id);
      assert exists k :: k in routes && routes[k].routeId == id && k in ks;
      routes[StringOrder.Least(ks)]
  }

  /** `get_location` of this backend with the join looking the route id up
      among the monitored routes by route id. No lookup can fail, so it
      needs no precondition. */
  function IntendedGetLocation(fetched: Fetched, directory: map<string, RouteInfo>, watched: seq<string>, now: string): Result<Record, Error>
  {
    var routes := MonitoredRoutes(directory, watched);
    var index := RouteIndex(routes);
    assert JoinDefined(fetched, WatchedRouteIds(routes), index);
    Poll(fetched, WatchedRouteIds(routes), index, now)
  }

  /** With the corrected join, the emitted locations are exactly the feed
      entities whose route id is the route id of a watched directory
      entry, and each carries a watched directory entry with the entity's
      OWN route id. */
  lemma IntendedLocations(fetched: Fetched, directory: map<string, RouteInfo>, watched: seq<string>, now: string)
    ensures var r := IntendedGetLocation(fetched, directory, watched, now);
      r.Success? ==>
        forall loc :: loc in r.value.locations ==>
          && loc.route in directory.Values
          && loc.route.shortName in watched
          && exists i :: 0 <= i < |fetched.payload.body.entities| &&
               var e := fetched.payload.body.entities[i];
               e.routeId == loc.route.routeId && loc == ToLocation(e, loc.route)
    ensures var r := IntendedGetLocation(fetched, directory, watched, now);
      r.Success? ==>
        forall e, k :: e in fetched.payload.body.entities && k in directory &&
                       directory[k].shortName in watched && directory[k].routeId == e.routeId ==>
          exists loc :: loc in r.value.locations && loc.route.routeId == e.routeId && loc == ToLocation(e, loc.route)
  {
    var r := IntendedGetLocation(fetched, directory, watched, now);
    if r.Success? {
      var es := fetched.payload.body.entities;
      var routes := MonitoredRoutes(directory, watched);
      var ids := WatchedRouteIds(routes);
      var index := RouteIndex(routes);
      EmitExactly(es, ids, index);
      forall loc | loc in r.value.locations
        ensures && loc.route in directory.Values
                && loc.route.shortName in watched
                && exists i :: 0 <= i < |es| && es[i].routeId == loc.route.routeId && loc == ToLocation(es[i], loc.route)
      {
        var i :| 0 <= i < |es| && es[i].routeId in ids && es[i].routeId in index && loc == Located(es[i], index);
        var k :| k in routes && routes[k] == index[es[i].routeId];
        assert directory[k] == loc.route;
      }
      forall e, k | e in es && k in directory && directory[k].shortName in watched && directory[k].routeId == e.routeId
        ensures exists loc :: loc in r.value.locations && loc.route.routeId == e.routeId && loc == ToLocation(e, loc.route)
      {
        assert k in routes;
        var i :| 0 <= i < |es| && es[i] == e;
        assert Located(e, index) in r.value.locations;
      }
    }
  }

  /** The case that fails as written: with the corrected join, a directory
      {"A": route "1"} watching "A" and one vehicle on route "1" yields one
      record with that vehicle on route "A". */
  lemma IntendedEndToEnd()
    ensures
      var route := RouteInfo("1", "A", "Route A");
      var e := Entity("e1", "1", "1700000000", 40.0, -74.0, "V1");
      IntendedGetLocation(Received(Payload(None, None, Entities([e]))), map["A" := route], ["A"], "1700000030")
        == Success(Record("1700000030", [Location(40.0, -74.0, "1700000000", route, "V1")]))
  {
    var route := RouteInfo("1", "A", "Route A");
    var dir := map["A" := route];
    var e := Entity("e1", "1", "1700000000", 40.0, -74.0, "V1");
    var routes := MonitoredRoutes(dir, ["A"]);
    assert routes == dir;
    assert routes["A"].routeId == "1";
    assert "1" in WatchedRouteIds(routes);
    var index := RouteIndex(routes);
    assert "1" in index && index["1"] == route;
    assert RateLimitMessage(Payload(None, None, Entities([e]))).None?;
    EmitSingle(e, WatchedRouteIds(routes), index);
  }

  /** The shared state, as a value: the directory, the refresher's `first`
      flag, whether readiness was signalled, how often `notify_waiters`
      was called, and the history. */
  datatype State = State(
    directory: map<string, RouteInfo>,
    first: bool,
    ready: bool,
    notifications: nat,
    history: seq<Record>)

  /** At start-up: empty directory and history, nothing signalled. */
  const Initial: State := State(map[], true, false, 0, [])

  /** What every reachable state satisfies: the history is within the
      bound, readiness has been signalled exactly when the first refresh
      succeeded, it was signalled at most once, and nothing was recorded
      before it. */
  predicate Inv(s: State)
  {
    && |s.history| <= History.Cap
    && s.ready == !s.first
    && s.notifications == (if s.ready then 1 else 0)
    && (!s.ready ==> s.history == [])
  }

  /** One refresher iteration: `Ok(routes)` replaces the directory
      wholesale and signals readiness if `first` is set, then clears
      `first`; `Err` changes nothing. */
  function AfterRefresh(s: State, outcome: Result<map<string, RouteInfo>, RefreshError>): State
  {
    match outcome
    case Failure(_) => s
    case Success(routes) =>
      if s.first then s.(directory := routes, ready := true, notifications := s.notifications + 1, first := false)
      else s.(directory := routes)
  }

  /** One poller iteration: `Ok(record)` is appended with eviction; `Err`
      changes nothing. Before readiness the poller is still blocked in
      `notified().await`, so no poll takes effect. */
  function AfterPoll(s: State, outcome: Result<Record, Error>): State
  {
    if !s.ready then s
    else
      match outcome
      case Failure(_) => s
      case Success(record) => s.(history := History.Window(s.history + [record]))
  }

  /** One iteration of either loop, with the outcome of its fetch. */
  datatype Event =
    | Refreshed(routes: Result<map<string, RouteInfo>, RefreshError>)
    | Polled(record: Result<Record, Error>)

  function Step(s: State, ev: Event): State
  {
    match ev
    case Refreshed(o) => AfterRefresh(s, o)
    case Polled(o) => AfterPoll(s, o)
  }

  /** The state after the iterations `evs`, in that order. */
  function Run(s: State, evs: seq<Event>): State
    decreases |evs|
  {
    if evs == [] then s else Run(Step(s, evs[0]), evs[1..])
  }

  /** The records of the successful polls among `evs`, in order. */
  function OkRecords(evs: seq<Event>): seq<Record>
    decreases |evs|
  {
    if evs == [] then []
    else if evs[0].Polled? && evs[0].record.Success? then [evs[0].record.value] + OkRecords(evs[1..])
    else OkRecords(evs[1..])
  }

  predicate IsOkRefresh(ev: Event)
  {
    ev.Refreshed? && ev.routes.Success?
  }

  predicate SomeOkRefresh(evs: seq<Event>)
  {
    exists i :: 0 <= i < |evs| && IsOkRefresh(evs[i])
  }

  lemma {:induction false} RunConcat(s: State, a: seq<Event>, b: seq<Event>)
    ensures Run(s, a + b) == Run(Run(s, a), b)
    decreases |a|
  {
    if a == [] {
      assert a + b == b;
    } else {
      assert (a + b)[1..] == a[1..] + b;
      RunConcat(Step(s, a[0]), a[1..], b);
    }
  }

  /** Every iteration keeps the invariant. */
  lemma {:induction false} RunKeepsInv(s: State, evs: seq<Event>)
    requires Inv(s)
    ensures Inv(Run(s, evs))
    decreases |evs|
  {
    if evs != [] {
      RunKeepsInv(Step(s, evs[0]), evs[1..]);
    }
  }

  /** Readiness, once signalled, stays signalled; once `first` is cleared it
      stays cleared and no further signal is sent. */
  lemma {:induction false} ReadyNeverReverts(s: State, evs: seq<Event>)
    ensures s.ready ==> Run(s, evs).ready
    ensures !s.first ==> !Run(s, evs).first && Run(s, evs).notifications == s.notifications
    decreases |evs|
  {
    if evs != [] {
      ReadyNeverReverts(Step(s, evs[0]), evs[1..]);
    }
  }

  /** Readiness is signalled by the end of a run exactly when it was
      before or some refresh in the run succeeded. */
  lemma {:induction false} ReadyIffOkRefreshFrom(s: State, evs: seq<Event>)
    requires Inv(s)
    ensures Run(s, evs).ready <==> s.ready || SomeOkRefresh(evs)
    decreases |evs|
  {
    if evs != [] {
      var s' := Step(s, evs[0]);
      ReadyIffOkRefreshFrom(s', evs[1..]);
      if SomeOkRefresh(evs[1..]) {
        var i :| 0 <= i < |evs[1..]| && IsOkRefresh(evs[1..][i]);
        assert IsOkRefresh(evs[i + 1]);
      }
      if SomeOkRefresh(evs) && !IsOkRefresh(evs[0]) {
        var i :| 0 <= i < |evs| && IsOkRefresh(evs[i]);
        assert i > 0 && IsOkRefresh(evs[1..][i - 1]);
      }
    }
  }

  /** From start-up, readiness is signalled exactly when some refresh has
      succeeded, and never more than once. */
  lemma ReadyIffOkRefresh(evs: seq<Event>)
    ensures Run(Initial, evs).ready <==> SomeOkRefresh(evs)
    ensures Run(Initial, evs).notifications <= 1
  {
    ReadyIffOkRefreshFrom(Initial, evs);
    RunKeepsInv(Initial, evs);
  }

  /** A run without a successful refresh keeps the old directory: stale
      data is kept rather than dropped. */
  lemma {:induction false} StaleOnFailure(s: State, evs: seq<Event>)
    requires !SomeOkRefresh(evs)
    ensures Run(s, evs).directory == s.directory
    decreases |evs|
  {
    if evs != [] {
      assert !IsOkRefresh(evs[0]);
      assert forall i :: 0 <= i < |evs[1..]| ==> evs[1..][i] == evs[i + 1];
      StaleOnFailure(Step(s, evs[0]), evs[1..]);
    }
  }

  /** The directory is exactly the map of the last successful refresh. */
  lemma DirectoryIsLastRefresh(s: State, before: seq<Event>, routes: map<string, RouteInfo>, after: seq<Event>)
    requires !SomeOkRefresh(after)
    ensures Run(s, before + [Refreshed(Success(routes))] + after).directory == routes
  {
    RunConcat(s, before + [Refreshed(Success(routes))], after);
    RunConcat(s, before, [Refreshed(Success(routes))]);
    StaleOnFailure(Run(s, before + [Refreshed(Success(routes))]), after);
  }

  /** Once ready, one iteration changes the history as appending its
      successful record, if any, would. */
  lemma StepHistory(s: State, ev: Event)
    requires |s.history| <= History.Cap && s.ready
    ensures Step(s, ev).history == History.Window(s.history + OkRecords([ev]))
    ensures Step(s, ev).ready && |Step(s, ev).history| <= History.Cap
  {
    assert [ev][1..] == [];
    if !(ev.Polled? && ev.record.Success?) {
      assert s.history + [] == s.history;
    }
    History.WindowShape(s.history + OkRecords([ev]));
  }

  lemma OkRecordsCons(evs: seq<Event>)
    requires evs != []
    ensures OkRecords(evs) == OkRecords([evs[0]]) + OkRecords(evs[1..])
  {
    assert [evs[0]][1..] == [];
  }

  /** Once ready, the history is the newest `Cap` of the records of all
      successful polls, in order; failed polls and refreshes leave it
      alone. */
  lemma {:induction false} HistoryIsWindowOfPolls(s: State, evs: seq<Event>)
    requires |s.history| <= History.Cap && s.ready
    ensures Run(s, evs).history == History.Window(s.history + OkRecords(evs))
    decreases |evs|
  {
    if evs == [] {
      assert s.history + [] == s.history;
    } else {
      var s' := Step(s, evs[0]);
      var rest := evs[1..];
      var mine := OkRecords([evs[0]]);
      StepHistory(s, evs[0]);
      OkRecordsCons(evs);
      calc {
        Run(s, evs).history;
        Run(s', rest).history;
        { HistoryIsWindowOfPolls(s', rest); }
        History.Window(s'.history + OkRecords(rest));
        History.Window(History.Window(s.history + mine) + OkRecords(rest));
        { History.WindowConcat(s.history + mine, OkRecords(rest)); }
        History.Window((s.history + mine) + OkRecords(rest));
        { assert (s.history + mine) + OkRecords(rest) == s.history + OkRecords(evs); }
        History.Window(s.history + OkRecords(evs));
      }
    }
  }

  /** Nothing is recorded before a refresh has succeeded: the poller only
      starts once the directory was loaded. */
  lemma NoPollBeforeRefresh(evs: seq<Event>)
    ensures Run(Initial, evs).history != [] ==> SomeOkRefresh(evs)
  {
    RunKeepsInv(Initial, evs);
    ReadyIffOkRefresh(evs);
  }

  /** From start-up, the history holds the newest `Cap` records of the
      successful polls after the first successful refresh, in order; polls
      before it are lost. */
  lemma HistoryFromStart(before: seq<Event>, routes: map<string, RouteInfo>, after: seq<Event>)
    requires !SomeOkRefresh(before)
    ensures Run(Initial, before + [Refreshed(Success(routes))] + after).history == History.Window(OkRecords(after))
  {
    var s0 := Run(Initial, before);
    ReadyIffOkRefresh(before);
    RunKeepsInv(Initial, before);
    var s1 := Step(s0, Refreshed(Success(routes)));
    assert s1.ready && s1.history == [];
    RunConcat(Initial, before + [Refreshed(Success(routes))], after);
    RunConcat(Initial, before, [Refreshed(Success(routes))]);
    assert Run(s0, [Refreshed(Success(routes))]) == s1;
    HistoryIsWindowOfPolls(s1, after);
    assert s1.history + OkRecords(after) == OkRecords(after);
  }

  /** The state both tasks share (`route_info_list`, `routes_ready`,
      `history`), with the refresher's `first` flag. */
  class Backend {
    var directory: map<string, RouteInfo>
    var first: bool
    var ready: bool
    ghost var notifications: nat
    const history: History.HistoryBuffer

    ghost function View(): State
      reads this, history
    {
      State(directory, first, ready, notifications, history.records)
    }

    ghost predicate Valid()
      reads this, history
    {
      Inv(View())
    }

    constructor ()
      ensures Valid() && View() == Initial && fresh(history)
    {
      directory := map[];
      first := true;
      ready := false;
      notifications := 0;
      history := new History.HistoryBuffer();
    }

    /** One iteration of the refresher loop body. */
    method RefresherStep(download: Result<seq<RawRow>, RefreshError>)
      returns (outcome: Result<map<string, RouteInfo>, RefreshError>)
      requires Valid()
      modifies this
      ensures Valid()
      ensures outcome == RefreshResult(download)
      ensures View() == AfterRefresh(old(View()), outcome)
    {
      outcome := RefreshRoutes(download);
      match outcome
      case Success(routes) =>
        directory := routes;
        if first {
          ready := true;  // routes_ready.notify_waiters()
          notifications := notifications + 1;
          first := false;
        }
      case Failure(_) =>
    }

    /** One iteration of the poller loop body, reached only after the
        readiness signal, with the join by route id. */
    method PollerStep(fetched: Fetched, now: string) returns (outcome: Result<Record, Error>)
      requires Valid() && ready
      modifies history
      ensures Valid()
      ensures outcome == IntendedGetLocation(fetched, old(directory), BussesToWatch, now)
      ensures View() == AfterPoll(old(View()), outcome)
    {
      outcome := IntendedGetLocation(fetched, directory, BussesToWatch, now);
      match outcome
      case Success(record) =>
        history.Append(record);
      case Failure(_) =>
    }
  }
}
