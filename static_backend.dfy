/**
 * The older backend, backend/src/main.rs: a route table read once from
 * `assets/routes.txt` and keyed by route id, a fixed list of route ids to
 * follow, and a poller that appends each successful poll to the history.
 */
module StaticBackend {
  import opened Wrappers
  import opened Transit
  import History
  import opened RouteTable
  import opened Feed

  /** `route_ids` in `get_location`. */
  const RouteIds: seq<string> := ["4658_98094", "4658_98097", "4658_98087", "4658_98244", "4685_99482"]

  /** `ROUTES`: the readable rows with at least four fields, keyed by
      route id. */
  function Routes(rows: seq<RawRow>): map<string, RouteInfo>
  {
    Collect(rows, ByRouteId)
  }

  /** A route id is in `ROUTES` exactly when some row with at least four
      fields has it in field 0; its entry is built from fields 0, 2 and 3
      of the last such row. Short and unreadable rows are skipped. */
  lemma {:induction false} RoutesSpec(rows: seq<RawRow>, k: string)
    ensures k in Routes(rows) <==>
      exists i :: 0 <= i < |rows| && rows[i].Row? && |rows[i].fields| >= 4 && rows[i].fields[0] == k
    ensures k in Routes(rows) ==>
      var i := LastWithKey(rows, ByRouteId, k);
      && 0 <= i
      && rows[i].Row? && |rows[i].fields| >= 4
      && Routes(rows)[k] == RouteInfo(k, rows[i].fields[2], rows[i].fields[3])
      && forall j :: i < j < |rows| && rows[j].Row? && |rows[j].fields| >= 4 ==> rows[j].fields[0] != k
  {
    CollectSpec(rows, ByRouteId, k);
    forall i | 0 <= i < |rows|
      ensures HasKey(rows[i], ByRouteId, k) <==> rows[i].Row? && |rows[i].fields| >= 4 && rows[i].fields[0] == k
    {
    }
  }

  function IdSet(ids: seq<string>): set<string>
  {
    set x | x in ids
  }

  /** `get_location` of this backend: entities whose route id is listed,
      joined with `ROUTES[route_id]` (the `unwrap` requires the id to be in
      the table). */
  function GetLocation(fetched: Fetched, routes: map<string, RouteInfo>, routeIds: seq<string>, now: string): Result<Record, Error>
    requires JoinDefined(fetched, IdSet(routeIds), routes)
  {
    Poll(fetched, IdSet(routeIds), routes, now)
  }

  /** Every emitted location comes from a feed entity with a listed route
      id, copies that entity's fields, and carries that route id's own
      entry of `ROUTES`; every such entity is emitted. */
  lemma StaticLocations(fetched: Fetched, rows: seq<RawRow>, routeIds: seq<string>, now: string)
    requires JoinDefined(fetched, IdSet(routeIds), Routes(rows))
    ensures var r := GetLocation(fetched, Routes(rows), routeIds, now);
      r.Success? ==>
        forall loc :: loc in r.value.locations ==>
          && loc.route.routeId in routeIds
          && loc.route.routeId in Routes(rows)
          && loc.route == Routes(rows)[loc.route.routeId]
          && exists i :: 0 <= i < |fetched.payload.body.entities| &&
               var e := fetched.payload.body.entities[i];
               e.routeId == loc.route.routeId && loc == ToLocation(e, loc.route)
    ensures var r := GetLocation(fetched, Routes(rows), routeIds, now);
      r.Success? ==>
        forall e :: e in fetched.payload.body.entities && e.routeId in routeIds ==>
          e.routeId in Routes(rows) && ToLocation(e, Routes(rows)[e.routeId]) in r.value.locations
  {
    var r := GetLocation(fetched, Routes(rows), routeIds, now);
    if r.Success? {
      var es := fetched.payload.body.entities;
      var ids := IdSet(routeIds);
      EmitExactly(es, ids, Routes(rows));
      forall loc | loc in r.value.locations
        ensures && loc.route.routeId in routeIds
                && loc.route.routeId in Routes(rows)
                && loc.route == Routes(rows)[loc.route.routeId]
                && exists i :: 0 <= i < |es| && es[i].routeId == loc.route.routeId && loc == ToLocation(es[i], loc.route)
      {
        var i :| 0 <= i < |es| && es[i].routeId in ids && es[i].routeId in Routes(rows) && loc == Located(es[i], Routes(rows));
        CollectKeysMatchValues(rows, ByRouteId, es[i].routeId);
      }
      forall e | e in es && e.routeId in routeIds
        ensures e.routeId in Routes(rows) && ToLocation(e, Routes(rows)[e.routeId]) in r.value.locations
      {
        var i :| 0 <= i < |es| && es[i] == e;
      }
    }
  }

  /** One iteration of the poller loop: a successful poll is appended with
      eviction; a failed one (transport, rate limit, decoding) leaves the
      history as it was. */
  method PollStep(history: History.HistoryBuffer, fetched: Fetched, routes: map<string, RouteInfo>, now: string)
    returns (outcome: Result<Record, Error>)
    requires JoinDefined(fetched, IdSet(RouteIds), routes)
    modifies history
    ensures outcome == GetLocation(fetched, routes, RouteIds, now)
    ensures outcome.Success? ==> history.records == History.Window(old(history.records) + [outcome.value])
    ensures outcome.Failure? ==> history.records == old(history.records)
  {
    outcome := GetLocation(fetched, routes, RouteIds, now);
    match outcome
    case Success(record) =>
      history.Append(record);
    case Failure(e) =>
  }
}
