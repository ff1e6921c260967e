/**
 * `get_location`, shared by both backends: the rate-limit check on the
 * raw JSON, the decoding outcome, then the filter of the feed entities
 * by route id and the join of each kept entity with its route.
 * The backends differ only in which route ids are kept and which map the
 * route is looked up in (static_backend.dfy, live_backend.dfy).
 */
module Feed {
  import opened Wrappers
  import opened Transit

  const RateLimitStatus: nat := 429
  const DefaultRateLimitMessage: string := "Rate limit exceeded"
  const U64Bound: nat := 0x1_0000_0000_0000_0000

  /** `Value::as_u64` */
  function AsU64(v: Json): Option<nat>
  {
    if v.JUInt? && v.n < U64Bound then Some(v.n) else None
  }

  /** `Value::as_str` */
  function AsStr(v: Json): Option<string>
  {
    if v.JStr? then Some(v.s) else None
  }

  /** The rate-limit check: a top-level `statusCode` that reads as the
      unsigned integer 429 signals throttling, with the string `message`
      member as its text, or the default text when that member is absent
      or not a string. A 429 written as a float or a string is not a rate
      limit. */
  function RateLimitMessage(p: Payload): (m: Option<string>)
    ensures m.Some? <==> p.statusCode == Some(JUInt(RateLimitStatus))
    ensures m.Some? && p.message.Some? && p.message.value.JStr? ==> m.value == p.message.value.s
    ensures m.Some? && !(p.message.Some? && p.message.value.JStr?) ==> m.value == DefaultRateLimitMessage
  {
    var status := if p.statusCode.Some? then AsU64(p.statusCode.value) else None;
    if status == Some(RateLimitStatus) then
      Some(if p.message.Some? && AsStr(p.message.value).Some? then AsStr(p.message.value).value
           else DefaultRateLimitMessage)
    else None
  }

  /** Every kept entity's route id can be looked up in `table`: the
      condition under which the `unwrap` in the join does not panic. */
  predicate Joinable(es: seq<Entity>, ids: set<string>, table: map<string, RouteInfo>)
  {
    forall i :: 0 <= i < |es| && es[i].routeId in ids ==> es[i].routeId in table
  }

  /** The location built from entity `e` and its route. */
  function ToLocation(e: Entity, route: RouteInfo): Location
  {
    Location(e.latitude, e.longitude, e.timestamp, route, e.vehicleId)
  }

  /** The location a kept entity becomes. */
  function Located(e: Entity, table: map<string, RouteInfo>): Location
    requires e.routeId in table
  {
    ToLocation(e, table[e.routeId])
  }

  /** `res.entity.iter().filter(route id kept).map(to Location).collect()`. */
  function Emit(es: seq<Entity>, ids: set<string>, table: map<string, RouteInfo>): (locs: seq<Location>)
    requires Joinable(es, ids, table)
    ensures |locs| <= |es|
    ensures forall j :: 0 <= j < |locs| ==> locs[j].route in table.Values
  {
    if es == [] then []
    else
      var rest := Emit(es[1..], ids, table);
      if es[0].routeId in ids then [Located(es[0], table)] + rest else rest
  }

  lemma JoinableSplit(a: seq<Entity>, b: seq<Entity>, ids: set<string>, table: map<string, RouteInfo>)
    requires Joinable(a + b, ids, table)
    ensures Joinable(a, ids, table) && Joinable(b, ids, table)
  {
    forall i | 0 <= i < |a| && a[i].routeId in ids
      ensures a[i].routeId in table
    {
      assert (a + b)[i] == a[i];
    }
    forall i | 0 <= i < |b| && b[i].routeId in ids
      ensures b[i].routeId in table
    {
      assert (a + b)[|a| + i] == b[i];
    }
  }

  /** Filtering and mapping distribute over concatenation: the kept
      entities come out in feed order. */
  lemma {:induction false} EmitConcat(a: seq<Entity>, b: seq<Entity>, ids: set<string>, table: map<string, RouteInfo>)
    requires Joinable(a + b, ids, table)
    ensures Joinable(a, ids, table) && Joinable(b, ids, table)
    ensures Emit(a + b, ids, table) == Emit(a, ids, table) + Emit(b, ids, table)
  {
    JoinableSplit(a, b, ids, table);
    if a == [] {
      assert a + b == b;
    } else {
      var ab := a + b;
      assert ab[0] == a[0];
      assert ab[1..] == a[1..] + b;
      JoinableSplit([ab[0]], ab[1..], ids, table);
      assert [ab[0]] + ab[1..] == ab;
      EmitConcat(a[1..], b, ids, table);
    }
  }

  /** A single entity yields its location when its route id is kept and
      nothing otherwise. Together with EmitConcat this determines Emit
      completely. */
  lemma EmitSingle(e: Entity, ids: set<string>, table: map<string, RouteInfo>)
    requires e.routeId in ids ==> e.routeId in table
    ensures Joinable([e], ids, table)
    ensures Emit([e], ids, table) == if e.routeId in ids then [Located(e, table)] else []
  {
    assert [e][1..] == [];
  }

  /** Every kept entity yields a location, and every location comes from a
      kept entity, with lat, lon, timestamp and vehicle id copied. */
  lemma {:induction false} EmitExactly(es: seq<Entity>, ids: set<string>, table: map<string, RouteInfo>)
    requires Joinable(es, ids, table)
    ensures forall i :: 0 <= i < |es| && es[i].routeId in ids ==> Located(es[i], table) in Emit(es, ids, table)
    ensures forall loc :: loc in Emit(es, ids, table) ==>
      exists i :: 0 <= i < |es| && es[i].routeId in ids && es[i].routeId in table && loc == Located(es[i], table)
  {
    if es != [] {
      EmitExactly(es[1..], ids, table);
      forall i | 0 <= i < |es| && es[i].routeId in ids
        ensures Located(es[i], table) in Emit(es, ids, table)
      {
        if i > 0 {
          assert es[1..][i - 1] == es[i];
        }
      }
      forall loc | loc in Emit(es, ids, table)
        ensures exists i :: 0 <= i < |es| && es[i].routeId in ids && es[i].routeId in table && loc == Located(es[i], table)
      {
        if loc in Emit(es[1..], ids, table) {
          var i :| 0 <= i < |es[1..]| && es[1..][i].routeId in ids && es[1..][i].routeId in table
                   && loc == Located(es[1..][i], table);
          assert es[i + 1] == es[1..][i];
        } else {
          assert loc == Located(es[0], table);
        }
      }
    }
  }

  /** The precondition of `Poll`: whenever the feed decodes and is not
      rate limited, the join finds every kept entity's route. */
  predicate JoinDefined(fetched: Fetched, ids: set<string>, table: map<string, RouteInfo>)
  {
    (fetched.Received? && RateLimitMessage(fetched.payload).None? && fetched.payload.body.Entities?) ==>
      Joinable(fetched.payload.body.entities, ids, table)
  }

  /** One call of `get_location`, after the HTTP request: `now` is the
      poll's own timestamp (`Utc::now()`).
      - a transport failure is a `ReqwestError`;
      - a rate-limit status wins over everything after it, even a body that
        also decodes;
      - otherwise a body that does not decode is a `SerdeJsonError`;
      - otherwise the record holds the kept, joined entities. */
  function Poll(fetched: Fetched, ids: set<string>, table: map<string, RouteInfo>, now: string): (r: Result<Record, Error>)
    requires JoinDefined(fetched, ids, table)
    ensures fetched.TransportFailed? ==> r == Failure(ReqwestError(fetched.reason))
    ensures fetched.Received? && fetched.payload.statusCode == Some(JUInt(RateLimitStatus)) ==>
      r.Failure? && r.error.RateLimited?
    ensures fetched.Received? && fetched.payload.statusCode != Some(JUInt(RateLimitStatus)) ==>
      match fetched.payload.body
      case Undecodable(why) => r == Failure(SerdeJsonError(why))
      case Entities(es) => r.Success? && r.value.ts == now
    ensures r.Success? ==>
      && fetched.Received? && fetched.payload.body.Entities?
      && r.value.locations == Emit(fetched.payload.body.entities, ids, table)
  {
    match fetched
    case TransportFailed(why) => Failure(ReqwestError(why))
    case Received(p) =>
      match RateLimitMessage(p)
      case Some(m) => Failure(RateLimited(m))
      case None =>
        match p.body
        case Undecodable(why) => Failure(SerdeJsonError(why))
        case Entities(es) => Success(Record(now, Emit(es, ids, table)))
  }

  /** A status other than 429 has no effect: the poll is the same as for
      the body without any status. */
  lemma OtherStatusFallsThrough(p: Payload, ids: set<string>, table: map<string, RouteInfo>, now: string)
    requires p.statusCode != Some(JUInt(RateLimitStatus))
    requires JoinDefined(Received(p), ids, table)
    ensures JoinDefined(Received(p.(statusCode := None)), ids, table)
    ensures Poll(Received(p), ids, table, now) == Poll(Received(p.(statusCode := None)), ids, table, now)
  {
  }

  /** A rate-limited poll carries the upstream message or the default
      text, whatever the body holds. */
  lemma RateLimitedPollMessage(p: Payload, ids: set<string>, table: map<string, RouteInfo>, now: string)
    requires p.statusCode == Some(JUInt(RateLimitStatus))
    ensures JoinDefined(Received(p), ids, table)
    ensures Poll(Received(p), ids, table, now) ==
      Failure(RateLimited(if p.message.Some? && p.message.value.JStr? then p.message.value.s else DefaultRateLimitMessage))
  {
  }
}
