/**
 * The list helpers of the front end, src/App.tsx: consecutive pairs of a
 * trail, grouping the history's locations into one trail per vehicle, the
 * latest record and the 24 newest records, the colour of a route, and the
 * markers "5 minutes ago" and "10 minutes ago" of a trail.
 * Timestamps are the numbers `Number(ts)` the front end computes with.
 */
module Trails {
  import opened Wrappers
  import Transit
  import History

  /** `type Location` of the front end, with `ts` as a number. */
  datatype Location = Location(lat: real, lon: real, ts: int, route: Transit.RouteInfo, vehicleId: string)

  /** `type Record` */
  datatype Record = Record(ts: int, locations: seq<Location>)

  /** `type VehicleTrail` */
  datatype VehicleTrail = VehicleTrail(routeId: string, vehicleId: string, locations: seq<Location>)

  // ---------------------------------------------------------------------
  // windowPairs

  /** `arr.slice(0, -1).map((item, i) => [item, arr[i + 1]])`: the pairs of
      consecutive elements. */
  function WindowPairs<T>(arr: seq<T>): (pairs: seq<(T, T)>)
    ensures |pairs| == if |arr| == 0 then 0 else |arr| - 1
    ensures forall i :: 0 <= i < |pairs| ==> pairs[i] == (arr[i], arr[i + 1])
    ensures forall i :: 0 <= i < |pairs| - 1 ==> pairs[i].1 == pairs[i + 1].0
  {
    if |arr| < 2 then [] else [(arr[0], arr[1])] + WindowPairs(arr[1..])
  }

  // ---------------------------------------------------------------------
  // buildVehicleTrails

  /** `${loc.route.route_id}:${loc.vehicle_id}` */
  function Key(loc: Location): string
  {
    loc.route.routeId + ":" + loc.vehicleId
  }

  /** The key of a trail, from the route and vehicle it was created with. */
  function TrailKey(t: VehicleTrail): string
  {
    t.routeId + ":" + t.vehicleId
  }

  /** The locations of the records, record by record, in order. */
  function Flatten(records: seq<Record>): seq<Location>
  {
    if records == [] then [] else Flatten(records[..|records| - 1]) + records[|records| - 1].locations
  }

  /** The position of the first trail with key `key`, or `|trails|`. */
  function FindTrail(trails: seq<VehicleTrail>, key: string): (i: nat)
    ensures i <= |trails|
    ensures i < |trails| ==> TrailKey(trails[i]) == key
    ensures forall j :: 0 <= j < i ==> TrailKey(trails[j]) != key
  {
    if trails == [] then 0
    else if TrailKey(trails[0]) == key then 0
    else 1 + FindTrail(trails[1..], key)
  }

  function NewTrail(loc: Location): VehicleTrail
  {
    VehicleTrail(loc.route.routeId, loc.vehicleId, [loc])
  }

  /** One iteration of the inner loop: push onto the trail with the
      location's key, or start a new trail at the end. */
  function Insert(trails: seq<VehicleTrail>, loc: Location): seq<VehicleTrail>
  {
    var i := FindTrail(trails, Key(loc));
    if i < |trails| then trails[i := trails[i].(locations := trails[i].locations + [loc])]
    else trails + [NewTrail(loc)]
  }

  /** The trails built from `flat`, location by location. */
  function Grouped(flat: seq<Location>): seq<VehicleTrail>
  {
    if flat == [] then [] else Insert(Grouped(flat[..|flat| - 1]), flat[|flat| - 1])
  }

  /** The entries of the `Map`, as insertion-ordered keys and a lookup,
      agree with `trails`. */
  ghost predicate MapMatches(order: seq<string>, m: map<string, VehicleTrail>, trails: seq<VehicleTrail>)
  {
    && |order| == |trails|
    && (forall k :: k in m <==> k in order)
    && (forall i, j :: 0 <= i < j < |order| ==> order[i] != order[j])
    && (forall i :: 0 <= i < |order| ==> order[i] in m && m[order[i]] == trails[i] && TrailKey(trails[i]) == order[i])
  }

  /** The inner loop body on a key already in the `Map`: the push extends
      the trail `Insert` extends. */
  lemma InsertFound(order: seq<string>, m: map<string, VehicleTrail>, trails: seq<VehicleTrail>, loc: Location)
    requires MapMatches(order, m, trails) && Key(loc) in m
    ensures MapMatches(order, m[Key(loc) := m[Key(loc)].(locations := m[Key(loc)].locations + [loc])], Insert(trails, loc))
  {
    var key := Key(loc);
    var p :| 0 <= p < |order| && order[p] == key;
    var i := FindTrail(trails, key);
    assert TrailKey(trails[p]) == key;
  }

  /** The inner loop body on a new key: the `Map` gains an entry at the end of
      its insertion order, as `Insert` gains a trail at the end. */
  lemma InsertNew(order: seq<string>, m: map<string, VehicleTrail>, trails: seq<VehicleTrail>, loc: Location)
    requires MapMatches(order, m, trails) && Key(loc) !in m
    ensures MapMatches(order + [Key(loc)], m[Key(loc) := NewTrail(loc)], Insert(trails, loc))
  {
    var key := Key(loc);
    assert forall j :: 0 <= j < |trails| ==> TrailKey(trails[j]) != key by {
      forall j | 0 <= j < |trails|
        ensures TrailKey(trails[j]) != key
      {
        assert order[j] in m;
      }
    }
    assert FindTrail(trails, key) == |trails|;
  }

  /** One pass of the inner loop body, as written: create the entry when the
      key is new, then push the location onto it. */
  lemma InsertStep(order: seq<string>, m: map<string, VehicleTrail>, trails: seq<VehicleTrail>, loc: Location)
    requires MapMatches(order, m, trails)
    ensures var key := Key(loc);
      var m1 := if key !in m then m[key := VehicleTrail(loc.route.routeId, loc.vehicleId, [])] else m;
      var order1 := if key !in m then order + [key] else order;
      MapMatches(order1, m1[key := m1[key].(locations := m1[key].locations + [loc])], Insert(trails, loc))
  {
    var key := Key(loc);
    if key in m {
      InsertFound(order, m, trails, loc);
    } else {
      var m1 := m[key := VehicleTrail(loc.route.routeId, loc.vehicleId, [])];
      assert [] + [loc] == [loc];
      assert m1[key := m1[key].(locations := m1[key].locations + [loc])] == m[key := NewTrail(loc)];
      InsertNew(order, m, trails, loc);
    }
  }

  lemma GroupedStep(before: seq<Location>, locs: seq<Location>, j: nat)
    requires j < |locs|
    ensures Grouped(before + locs[..j + 1]) == Insert(Grouped(before + locs[..j]), locs[j])
  {
    assert (before + locs[..j + 1])[..|before + locs[..j + 1]| - 1] == before + locs[..j];
  }

  lemma FlattenStep(records: seq<Record>, r: nat)
    requires r < |records|
    ensures Flatten(records[..r + 1]) == Flatten(records[..r]) + records[r].locations
  {
    assert records[..r + 1][..r] == records[..r];
  }

  /** `buildVehicleTrails`: nested loops over the records and their
      locations, inserting into a `Map` keyed by route and vehicle, then
      `Array.from(map.values())` in insertion order. */
  method BuildVehicleTrails(records: seq<Record>) returns (trails: seq<VehicleTrail>)
    ensures trails == Grouped(Flatten(records))
  {
    var order: seq<string> := [];
    var m: map<string, VehicleTrail> := map[];
    for r := 0 to |records|
      invariant MapMatches(order, m, Grouped(Flatten(records[..r])))
    {
      var locs := records[r].locations;
      ghost var before := Flatten(records[..r]);
      assert before + locs[..0] == before;
      for j := 0 to |locs|
        invariant MapMatches(order, m, Grouped(before + locs[..j]))
      {
        var loc := locs[j];
        InsertStep(order, m, Grouped(before + locs[..j]), loc);
        GroupedStep(before, locs, j);
        var key := Key(loc);
        if key !in m {
          m := m[key := VehicleTrail(loc.route.routeId, loc.vehicleId, [])];
          order := order + [key];
        }
        m := m[key := m[key].(locations := m[key].locations + [loc])];
      }
      FlattenStep(records, r);
      assert locs[..|locs|] == locs;
    }
    assert records[..|records|] == records;
    trails := seq(|order|, i requires 0 <= i < |order| => m[order[i]]);
  }

  // The reference view of the trails: one per distinct key, in order of
  // first appearance, holding every location with that key.

  /** The keys of the locations, in order. */
  function Keys(flat: seq<Location>): seq<string>
  {
    seq(|flat|, j requires 0 <= j < |flat| => Key(flat[j]))
  }

  function TrailKeys(trails: seq<VehicleTrail>): seq<string>
  {
    seq(|trails|, i requires 0 <= i < |trails| => TrailKey(trails[i]))
  }

  /** The locations of `flat` with key `k`, in order. */
  function Filter(flat: seq<Location>, k: string): seq<Location>
  {
    if flat == [] then []
    else Filter(flat[..|flat| - 1], k) + (if Key(flat[|flat| - 1]) == k then [flat[|flat| - 1]] else [])
  }

  /** The first position of `x` in `s`, or -1 (`Array.prototype.indexOf`). */
  function IndexOf(s: seq<string>, x: string): (i: int)
    ensures -1 <= i < |s|
    ensures i >= 0 <==> x in s
    ensures i >= 0 ==> s[i] == x && forall j :: 0 <= j < i ==> s[j] != x
  {
    if s == [] then -1
    else if s[0] == x then 0
    else
      var r := IndexOf(s[1..], x);
      if r < 0 then -1 else r + 1
  }

  /** The elements of `s` without repetitions, each at its first
      appearance (`Array.from(new Set(s))`). */
  function Distinct(s: seq<string>): seq<string>
  {
    if s == [] then []
    else
      var d := Distinct(s[..|s| - 1]);
      if s[|s| - 1] in d then d else d + [s[|s| - 1]]
  }

  predicate NoDuplicates(s: seq<string>)
  {
    forall i, j :: 0 <= i < j < |s| ==> s[i] != s[j]
  }

  lemma {:induction false} IndexOfAppend(s: seq<string>, x: string, y: string)
    requires y in s
    ensures IndexOf(s + [x], y) == IndexOf(s, y)
  {
    if s[0] != y {
      assert (s + [x])[1..] == s[1..] + [x];
      IndexOfAppend(s[1..], x, y);
    }
  }

  lemma DistinctSnoc(s: seq<string>, y: string)
    ensures Distinct(s + [y]) == if y in Distinct(s) then Distinct(s) else Distinct(s) + [y]
  {
    assert (s + [y])[..|s|] == s;
  }

  /** `Distinct` keeps every element of its input, once. */
  lemma {:induction false} DistinctBasics(s: seq<string>)
    ensures NoDuplicates(Distinct(s))
    ensures forall x :: x in Distinct(s) <==> x in s
  {
    if s != [] {
      var front := s[..|s| - 1];
      assert s == front + [s[|s| - 1]];
      DistinctBasics(front);
      DistinctSnoc(front, s[|s| - 1]);
    }
  }

  /** `Distinct` orders its elements by first appearance. */
  lemma {:induction false} DistinctOrder(s: seq<string>)
    ensures forall i, j :: 0 <= i < j < |Distinct(s)| ==> IndexOf(s, Distinct(s)[i]) < IndexOf(s, Distinct(s)[j])
  {
    if s != [] {
      var front := s[..|s| - 1];
      var x := s[|s| - 1];
      assert s == front + [x];
      DistinctOrder(front);
      DistinctBasics(front);
      DistinctSnoc(front, x);
      var d := Distinct(front);
      forall y | y in d
        ensures IndexOf(s, y) == IndexOf(front, y)
      {
        IndexOfAppend(front, x, y);
      }
      if x !in d {
        assert IndexOf(s, x) == |front|;
      }
    }
  }

  lemma KeysSnoc(front: seq<Location>, x: Location)
    ensures Keys(front + [x]) == Keys(front) + [Key(x)]
  {
  }

  lemma FilterSnoc(front: seq<Location>, x: Location, k: string)
    ensures Filter(front + [x], k) == Filter(front, k) + (if Key(x) == k then [x] else [])
  {
    assert (front + [x])[..|front|] == front;
  }

  lemma TrailKeysUpdate(g: seq<VehicleTrail>, i: nat, t: VehicleTrail)
    requires i < |g| && TrailKey(t) == TrailKey(g[i])
    ensures TrailKeys(g[i := t]) == TrailKeys(g)
  {
  }

  lemma TrailKeysSnoc(g: seq<VehicleTrail>, t: VehicleTrail)
    ensures TrailKeys(g + [t]) == TrailKeys(g) + [TrailKey(t)]
  {
  }

  lemma {:induction false} FilterAbsent(flat: seq<Location>, k: string)
    requires k !in Keys(flat)
    ensures Filter(flat, k) == []
  {
    if flat != [] {
      var front := flat[..|flat| - 1];
      assert flat == front + [flat[|flat| - 1]];
      KeysSnoc(front, flat[|flat| - 1]);
      FilterAbsent(front, k);
    }
  }

  /** `trails` has one trail per distinct key of `flat`, in order of first
      appearance; each trail holds exactly the locations of `flat` with its
      key, in order, and takes its route and vehicle from its first
      location. */
  ghost predicate Describes(flat: seq<Location>, trails: seq<VehicleTrail>)
  {
    && TrailKeys(trails) == Distinct(Keys(flat))
    && (forall i :: 0 <= i < |trails| ==> trails[i].locations == Filter(flat, TrailKey(trails[i])))
    && (forall i :: 0 <= i < |trails| ==>
          && trails[i].locations != []
          && trails[i].routeId == trails[i].locations[0].route.routeId
          && trails[i].vehicleId == trails[i].locations[0].vehicleId)
  }

  /** A location whose key already has a trail extends that trail. */
  lemma DescribesFound(front: seq<Location>, x: Location, g0: seq<VehicleTrail>)
    requires Describes(front, g0)
    requires FindTrail(g0, Key(x)) < |g0|
    ensures Describes(front + [x], Insert(g0, x))
  {
    var i := FindTrail(g0, Key(x));
    var g := Insert(g0, x);
    KeysSnoc(front, x);
    DistinctSnoc(Keys(front), Key(x));
    assert TrailKeys(g0)[i] == Key(x);
    TrailKeysUpdate(g0, i, g[i]);
    DistinctBasics(Keys(front));
    forall j | 0 <= j < |g|
      ensures g[j].locations == Filter(front + [x], TrailKey(g[j]))
    {
      FilterSnoc(front, x, TrailKey(g[j]));
      if j != i {
        assert TrailKeys(g0)[j] != TrailKeys(g0)[i];
      }
    }
  }

  /** A key no trail of `g0` has is new: it is not among the keys so far. */
  lemma NewKey(front: seq<Location>, x: Location, g0: seq<VehicleTrail>)
    requires Describes(front, g0)
    requires FindTrail(g0, Key(x)) == |g0|
    ensures Key(x) !in Keys(front)
    ensures TrailKeys(Insert(g0, x)) == Distinct(Keys(front + [x]))
  {
    DistinctBasics(Keys(front));
    assert forall j :: 0 <= j < |g0| ==> TrailKeys(g0)[j] == TrailKey(g0[j]);
    KeysSnoc(front, x);
    DistinctSnoc(Keys(front), Key(x));
    TrailKeysSnoc(g0, NewTrail(x));
  }

  lemma NewTrailAt(front: seq<Location>, x: Location, g0: seq<VehicleTrail>, j: nat)
    requires Describes(front, g0)
    requires forall k :: 0 <= k < |g0| ==> TrailKey(g0[k]) != Key(x)
    requires Filter(front, Key(x)) == []
    requires j <= |g0|
    ensures var g := g0 + [NewTrail(x)];
      && g[j].locations == Filter(front + [x], TrailKey(g[j]))
      && g[j].locations != []
      && g[j].routeId == g[j].locations[0].route.routeId
      && g[j].vehicleId == g[j].locations[0].vehicleId
  {
    var g := g0 + [NewTrail(x)];
    FilterSnoc(front, x, TrailKey(g[j]));
    if j < |g0| {
      assert g[j] == g0[j];
    } else {
      assert g[j] == NewTrail(x);
    }
  }

  /** A location with a new key starts a new trail at the end. */
  lemma DescribesNew(front: seq<Location>, x: Location, g0: seq<VehicleTrail>)
    requires Describes(front, g0)
    requires FindTrail(g0, Key(x)) == |g0|
    ensures Describes(front + [x], Insert(g0, x))
  {
    NewKey(front, x, g0);
    FilterAbsent(front, Key(x));
    var g := g0 + [NewTrail(x)];
    assert Insert(g0, x) == g;
    forall j | 0 <= j < |g|
      ensures && g[j].locations == Filter(front + [x], TrailKey(g[j]))
              && g[j].locations != []
              && g[j].routeId == g[j].locations[0].route.routeId
              && g[j].vehicleId == g[j].locations[0].vehicleId
    {
      NewTrailAt(front, x, g0, j);
    }
  }

  /** The trails `Grouped` builds are described by their locations. */
  lemma {:induction false} GroupedSpec(flat: seq<Location>)
    ensures Describes(flat, Grouped(flat))
  {
    if flat != [] {
      var front := flat[..|flat| - 1];
      var x := flat[|flat| - 1];
      assert flat == front + [x];
      GroupedSpec(front);
      if FindTrail(Grouped(front), Key(x)) < |Grouped(front)| {
        DescribesFound(front, x, Grouped(front));
      } else {
        DescribesNew(front, x, Grouped(front));
      }
    }
  }

  /** The number of locations over all trails. */
  function Total(trails: seq<VehicleTrail>): nat
  {
    if trails == [] then 0 else Total(trails[..|trails| - 1]) + |trails[|trails| - 1].locations|
  }

  lemma {:induction false} TotalUpdate(trails: seq<VehicleTrail>, i: nat, t: VehicleTrail)
    requires i < |trails|
    ensures Total(trails[i := t]) + |trails[i].locations| == Total(trails) + |t.locations|
  {
    var n := |trails| - 1;
    assert trails[i := t][..n] == if i == n then trails[..n] else trails[..n][i := t];
    if i < n {
      TotalUpdate(trails[..n], i, t);
    }
  }

  /** No location is lost or duplicated: the trails hold as many locations
      as the records. */
  lemma {:induction false} GroupedTotal(flat: seq<Location>)
    ensures Total(Grouped(flat)) == |flat|
  {
    if flat != [] {
      var front := flat[..|flat| - 1];
      var x := flat[|flat| - 1];
      GroupedTotal(front);
      var g0 := Grouped(front);
      var i := FindTrail(g0, Key(x));
      if i < |g0| {
        TotalUpdate(g0, i, g0[i].(locations := g0[i].locations + [x]));
      } else {
        assert (g0 + [NewTrail(x)])[..|g0|] == g0;
      }
    }
  }

  lemma {:induction false} FilterMembers(flat: seq<Location>, k: string)
    ensures forall loc :: loc in Filter(flat, k) <==> loc in flat && Key(loc) == k
  {
    if flat != [] {
      var front := flat[..|flat| - 1];
      FilterMembers(front, k);
      assert flat == front + [flat[|flat| - 1]];
    }
  }

  /** Trail `i` of `Grouped(flat)` holds a location exactly when the
      location has the trail's key. */
  lemma MemberAt(flat: seq<Location>, i: nat, loc: Location)
    requires i < |Grouped(flat)|
    ensures loc in Grouped(flat)[i].locations <==> loc in flat && Key(loc) == TrailKey(Grouped(flat)[i])
  {
    GroupedSpec(flat);
    FilterMembers(flat, TrailKey(Grouped(flat)[i]));
  }

  /** Trail `i` of `Grouped(flat)` takes its route from its first location. */
  lemma HeadAt(flat: seq<Location>, i: nat)
    requires i < |Grouped(flat)|
    ensures Grouped(flat)[i].locations != []
    ensures Grouped(flat)[i].routeId == Grouped(flat)[i].locations[0].route.routeId
  {
    GroupedSpec(flat);
  }

  /** A trail holds a location exactly when the location is in the records
      and has the trail's key. */
  lemma TrailMembers(flat: seq<Location>)
    ensures forall i, loc :: 0 <= i < |Grouped(flat)| ==>
      (loc in Grouped(flat)[i].locations <==> loc in flat && Key(loc) == TrailKey(Grouped(flat)[i]))
  {
    var g := Grouped(flat);
    GroupedSpec(flat);
    forall i | 0 <= i < |g|
      ensures forall loc :: loc in g[i].locations <==> loc in flat && Key(loc) == TrailKey(g[i])
    {
      FilterMembers(flat, TrailKey(g[i]));
    }
  }

  predicate InSomeTrail(trails: seq<VehicleTrail>, loc: Location)
  {
    exists i :: 0 <= i < |trails| && loc in trails[i].locations
  }

  /** Every location of the records lands in some trail. */
  lemma EveryLocationInATrail(flat: seq<Location>)
    ensures forall loc :: loc in flat ==> InSomeTrail(Grouped(flat), loc)
  {
    var g := Grouped(flat);
    GroupedSpec(flat);
    TrailMembers(flat);
    DistinctBasics(Keys(flat));
    forall loc | loc in flat
      ensures InSomeTrail(g, loc)
    {
      var k :| 0 <= k < |flat| && flat[k] == loc;
      assert Keys(flat)[k] == Key(loc);
      assert Key(loc) in TrailKeys(g);
      var i :| 0 <= i < |g| && TrailKeys(g)[i] == Key(loc);
      assert loc in g[i].locations;
    }
  }

  /** No location lands in two trails. */
  lemma NoLocationInTwoTrails(flat: seq<Location>)
    ensures forall i, j, loc ::
      (&& 0 <= i < |Grouped(flat)| && 0 <= j < |Grouped(flat)|
       && loc in Grouped(flat)[i].locations && loc in Grouped(flat)[j].locations) ==> i == j
  {
    var g := Grouped(flat);
    GroupedSpec(flat);
    DistinctBasics(Keys(flat));
    forall i, j, loc | 0 <= i < |g| && 0 <= j < |g| && loc in g[i].locations && loc in g[j].locations
      ensures i == j
    {
      MemberAt(flat, i, loc);
      MemberAt(flat, j, loc);
      assert TrailKeys(g)[i] == TrailKeys(g)[j];
    }
  }

  // ---------------------------------------------------------------------
  // latest and tenLatest

  /** `fetchHistory` reverses the backend's oldest-first history. */
  function NewestFirst(history: seq<Record>): seq<Record>
  {
    seq(|history|, i requires 0 <= i < |history| => history[|history| - 1 - i])
  }

  /** `data && data.length > 0 ? data[0] : null`; `data` is absent while
      the query is loading. */
  function Latest(data: Option<seq<Record>>): Option<Record>
  {
    if data.Some? && |data.value| > 0 then Some(data.value[0]) else None
  }

  /** `data?.slice(0, 24) || []` */
  function TenLatest(data: Option<seq<Record>>): seq<Record>
  {
    if data.Some? then data.value[..History.Min(24, |data.value|)] else []
  }

  /** `latest` is the first element of `tenLatest` when there is one, and
      `null` exactly when `tenLatest` is empty. */
  lemma LatestHeadsTenLatest(data: Option<seq<Record>>)
    ensures |TenLatest(data)| == if data.Some? then History.Min(24, |data.value|) else 0
    ensures Latest(data).None? <==> TenLatest(data) == []
    ensures Latest(data).Some? ==> Latest(data).value == TenLatest(data)[0]
  {
  }

  /** On the history as fetched, `latest` is the record the poller appended
      last, and there is none while the history is empty. */
  lemma LatestOfHistory(history: seq<Record>)
    ensures history != [] ==> Latest(Some(NewestFirst(history))) == Some(history[|history| - 1])
    ensures history == [] ==> Latest(Some(NewestFirst(history))).None?
  {
  }

  /** On the history as fetched, `tenLatest` holds the newest 24 records
      (all of them when there are fewer), newest first. */
  lemma SelectionOfHistory(history: seq<Record>)
    ensures |TenLatest(Some(NewestFirst(history)))| == History.Min(24, |history|)
    ensures forall i :: 0 <= i < |TenLatest(Some(NewestFirst(history)))| ==>
      TenLatest(Some(NewestFirst(history)))[i] == history[|history| - 1 - i]
  {
  }

  // ---------------------------------------------------------------------
  // getRouteColor

  const Palette: seq<string> := ["red", "blue", "green", "orange", "purple", "brown"]

  /** JavaScript's `%`: the remainder takes the sign of the dividend. */
  function JsRem(a: int, b: int): int
    requires b > 0
  {
    if a >= 0 then a % b else -((-a) % b)
  }

  /** `palette[i]`, `undefined` outside the array. */
  function PaletteAt(i: int): Option<string>
  {
    if 0 <= i < |Palette| then Some(Palette[i]) else None
  }

  /** `getRouteColor`: a route in the list gets the palette entry of its
      first position, cycling every six; a route not in the list gets
      `palette[-1 % 6]`, that is `undefined`. */
  function GetRouteColor(routeId: string, routeIds: seq<string>): (c: Option<string>)
    ensures routeId in routeIds ==> c == Some(Palette[IndexOf(routeIds, routeId) % |Palette|])
    ensures routeId in routeIds ==> c.Some? && c.value in Palette
    ensures routeId !in routeIds ==> c.None?
  {
    PaletteAt(JsRem(IndexOf(routeIds, routeId), |Palette|))
  }

  /** `trails.map(t => t.route_id)` */
  function TrailRoutes(trails: seq<VehicleTrail>): seq<string>
  {
    seq(|trails|, i requires 0 <= i < |trails| => trails[i].routeId)
  }

  /** `Array.from(new Set(trails.map(t => t.route_id)))` */
  function RouteIds(trails: seq<VehicleTrail>): seq<string>
  {
    Distinct(TrailRoutes(trails))
  }

  /** Every trail gets one of the six colours, the same for every trail of
      its route. */
  lemma EveryTrailColoured(trails: seq<VehicleTrail>)
    ensures forall i :: 0 <= i < |trails| ==>
      GetRouteColor(trails[i].routeId, RouteIds(trails)).Some? &&
      GetRouteColor(trails[i].routeId, RouteIds(trails)).value in Palette
  {
    var ids := TrailRoutes(trails);
    DistinctBasics(ids);
    forall i | 0 <= i < |trails|
      ensures trails[i].routeId in RouteIds(trails)
    {
      assert ids[i] == trails[i].routeId;
    }
  }

  /** In a list without repetitions, the route at position `i` gets palette
      entry `i` modulo six. */
  lemma ColourAt(routeIds: seq<string>, i: nat)
    requires NoDuplicates(routeIds) && i < |routeIds|
    ensures GetRouteColor(routeIds[i], routeIds) == Some(Palette[i % |Palette|])
  {
    assert IndexOf(routeIds, routeIds[i]) == i;
  }

  /** The six colours are different from each other. */
  lemma PaletteDistinct()
    ensures NoDuplicates(Palette)
  {
  }

  /** The first six routes shown get six different colours. */
  lemma FirstSixColoursDiffer(trails: seq<VehicleTrail>)
    ensures forall i, j :: 0 <= i < j < History.Min(|Palette|, |RouteIds(trails)|) ==>
      GetRouteColor(RouteIds(trails)[i], RouteIds(trails)) != GetRouteColor(RouteIds(trails)[j], RouteIds(trails))
  {
    DistinctBasics(TrailRoutes(trails));
    ColoursDiffer(RouteIds(trails));
  }

  /** In a list without repetitions, the first six routes get six different
      colours. */
  lemma ColoursDiffer(routeIds: seq<string>)
    requires NoDuplicates(routeIds)
    ensures forall i, j :: 0 <= i < j < History.Min(|Palette|, |routeIds|) ==>
      GetRouteColor(routeIds[i], routeIds) != GetRouteColor(routeIds[j], routeIds)
  {
    PaletteDistinct();
    forall i, j | 0 <= i < j < History.Min(|Palette|, |routeIds|)
      ensures GetRouteColor(routeIds[i], routeIds) != GetRouteColor(routeIds[j], routeIds)
    {
      ColourAt(routeIds, i);
      ColourAt(routeIds, j);
      assert i % |Palette| == i && j % |Palette| == j;
    }
  }

  /** Keys are not unique to a route and vehicle: a colon inside a route id
      or vehicle id lets two different vehicles share a key, and so a
      trail. */
  lemma KeysCanCollide()
    ensures var route := Transit.RouteInfo("a", "A", "Route A");
      var routeWithColon := Transit.RouteInfo("a:b", "AB", "Route AB");
      var l1 := Location(0.0, 0.0, 0, routeWithColon, "c");
      var l2 := Location(0.0, 0.0, 0, route, "b:c");
      l1.route.routeId != l2.route.routeId && Key(l1) == Key(l2)
  {
    assert "a:b" + ":" + "c" == "a" + ":" + "b:c";
  }

  /** Without colons in the route ids, a key determines its route id. */
  lemma KeyDeterminesRoute(a: string, b: string, c: string, d: string)
    requires ':' !in a && ':' !in c
    requires a + ":" + b == c + ":" + d
    ensures a == c
  {
    var key := a + ":" + b;
    assert key[|a|] == ':' && (c + ":" + d)[|c|] == ':';
    assert forall i :: 0 <= i < |a| ==> key[i] == a[i];
    assert forall i :: 0 <= i < |c| ==> key[i] == c[i];
    assert |a| == |c|;
    assert a == key[..|a|] == c;
  }

  lemma {:induction false} FlattenContains(records: seq<Record>, k: nat, loc: Location)
    requires k < |records| && loc in records[k].locations
    ensures loc in Flatten(records)
  {
    var n := |records| - 1;
    if k < n {
      FlattenContains(records[..n], k, loc);
    }
  }

  /** Without colons in the route ids, the trail a location lands in
      belongs to the location's route. */
  lemma LocationRouteHasTrail(flat: seq<Location>, loc: Location)
    requires forall l :: l in flat ==> ':' !in l.route.routeId
    requires loc in flat
    ensures loc.route.routeId in TrailRoutes(Grouped(flat))
  {
    var g := Grouped(flat);
    EveryLocationInATrail(flat);
    assert InSomeTrail(g, loc);
    var i :| 0 <= i < |g| && loc in g[i].locations;
    MemberAt(flat, i, loc);
    HeadAt(flat, i);
    MemberAt(flat, i, g[i].locations[0]);
    KeyDeterminesRoute(loc.route.routeId, loc.vehicleId, g[i].routeId, g[i].vehicleId);
    assert TrailRoutes(g)[i] == g[i].routeId;
  }

  /** Every bus of the latest record gets a colour on the map, as long as no
      route id shown contains a colon. */
  lemma LatestLocationsColoured(data: Option<seq<Record>>)
    requires forall loc :: loc in Flatten(TenLatest(data)) ==> ':' !in loc.route.routeId
    ensures Latest(data).Some? ==>
      var trails := Grouped(Flatten(TenLatest(data)));
      forall loc :: loc in Latest(data).value.locations ==>
        GetRouteColor(loc.route.routeId, RouteIds(trails)).Some?
  {
    if Latest(data).Some? {
      var flat := Flatten(TenLatest(data));
      var g := Grouped(flat);
      LatestHeadsTenLatest(data);
      DistinctBasics(TrailRoutes(g));
      forall loc | loc in Latest(data).value.locations
        ensures GetRouteColor(loc.route.routeId, RouteIds(g)).Some?
      {
        FlattenContains(TenLatest(data), 0, loc);
        LocationRouteHasTrail(flat, loc);
      }
    }
  }

  // ---------------------------------------------------------------------
  // The "5 mins ago" and "10 mins ago" markers

  /** Newest first: non-increasing timestamps. */
  predicate IsNewestFirst(s: seq<Location>)
  {
    forall i, j :: 0 <= i < j < |s| ==> s[i].ts >= s[j].ts
  }

  /** Insert `x` after every element at least as new, keeping the sort
      stable. */
  function InsertByTs(sorted: seq<Location>, x: Location): seq<Location>
  {
    if sorted == [] then [x]
    else if sorted[0].ts >= x.ts then [sorted[0]] + InsertByTs(sorted[1..], x)
    else [x] + sorted
  }

  /** `[...trail.locations].sort((a, b) => Number(b.ts) - Number(a.ts))`,
      as a stable insertion sort. */
  function SortNewestFirst(s: seq<Location>): seq<Location>
  {
    if s == [] then [] else InsertByTs(SortNewestFirst(s[..|s| - 1]), s[|s| - 1])
  }

  lemma ConsNewestFirst(a: Location, r: seq<Location>)
    requires IsNewestFirst(r)
    requires r != [] ==> a.ts >= r[0].ts
    ensures IsNewestFirst([a] + r)
  {
    var ar := [a] + r;
    forall i, j | 0 <= i < j < |ar|
      ensures ar[i].ts >= ar[j].ts
    {
      if i == 0 && j > 1 {
        assert r[0].ts >= r[j - 1].ts;
      }
    }
  }

  lemma TailNewestFirst(s: seq<Location>)
    requires s != [] && IsNewestFirst(s)
    ensures IsNewestFirst(s[1..])
  {
    var rest := s[1..];
    forall i, j | 0 <= i < j < |rest|
      ensures rest[i].ts >= rest[j].ts
    {
      assert rest[i] == s[i + 1] && rest[j] == s[j + 1];
    }
  }

  /** Insertion adds `x` and nothing else. */
  lemma {:induction false} InsertByTsContents(sorted: seq<Location>, x: Location)
    ensures multiset(InsertByTs(sorted, x)) == multiset(sorted) + multiset{x}
  {
    if sorted != [] && sorted[0].ts >= x.ts {
      var rest := sorted[1..];
      InsertByTsContents(rest, x);
      assert sorted == [sorted[0]] + rest;
      assert multiset(sorted) == multiset{sorted[0]} + multiset(rest);
    }
  }

  /** The new head is the old one unless `x` is strictly newer. */
  lemma InsertByTsHead(sorted: seq<Location>, x: Location)
    ensures InsertByTs(sorted, x) != []
    ensures InsertByTs(sorted, x)[0] == (if sorted != [] && sorted[0].ts >= x.ts then sorted[0] else x)
  {
  }

  /** Insertion keeps the sequence newest first. */
  lemma {:induction false} InsertByTsSorted(sorted: seq<Location>, x: Location)
    requires IsNewestFirst(sorted)
    ensures IsNewestFirst(InsertByTs(sorted, x))
  {
    if sorted == [] {
    } else if sorted[0].ts >= x.ts {
      var rest := sorted[1..];
      TailNewestFirst(sorted);
      InsertByTsSorted(rest, x);
      InsertByTsHead(rest, x);
      var r := InsertByTs(rest, x);
      if rest != [] {
        assert sorted[0].ts >= sorted[1].ts;
      }
      ConsNewestFirst(sorted[0], r);
    } else {
      ConsNewestFirst(x, sorted);
    }
  }

  /** The sort yields its input, newest first. */
  lemma {:induction false} SortSpec(s: seq<Location>)
    ensures IsNewestFirst(SortNewestFirst(s))
    ensures multiset(SortNewestFirst(s)) == multiset(s)
  {
    if s != [] {
      var front := s[..|s| - 1];
      var x := s[|s| - 1];
      SortSpec(front);
      InsertByTsSorted(SortNewestFirst(front), x);
      InsertByTsContents(SortNewestFirst(front), x);
      assert s == front + [x];
      assert multiset(s) == multiset(front) + multiset{x};
    }
  }

  /** The position of the first location at least `age` seconds older than
      `nowTs`, or `|s|` when there is none (`Array.prototype.find`). */
  function FirstAged(s: seq<Location>, nowTs: int, age: int): (i: nat)
    ensures i <= |s|
    ensures i < |s| ==> nowTs - s[i].ts >= age
    ensures forall j :: 0 <= j < i ==> nowTs - s[j].ts < age
  {
    if s == [] then 0
    else if nowTs - s[0].ts >= age then 0
    else 1 + FirstAged(s[1..], nowTs, age)
  }

  function Find(s: seq<Location>, nowTs: int, age: int): Option<Location>
  {
    var i := FirstAged(s, nowTs, age);
    if i < |s| then Some(s[i]) else None
  }

  const FiveMinutes: int := 5 * 60
  const TenMinutes: int := 10 * 60

  /** The newest location of a trail and its two age markers. */
  datatype Markers = Markers(now: Location, fiveMinAgo: Option<Location>, tenMinAgo: Option<Location>)

  /** The marker computation for one trail. App.tsx reads `sorted[0]`, so
      the trail must have a location, which every built trail has. */
  function TrailMarkers(locations: seq<Location>): Markers
    requires locations != []
  {
    SortSpec(locations);
    var sorted := SortNewestFirst(locations);
    var now := sorted[0];
    Markers(now, Find(sorted, now.ts, FiveMinutes), Find(sorted, now.ts, TenMinutes))
  }

  /** The marker for `age` is the newest location at least `age` older
      than the newest one, and absent when there is none. */
  ghost predicate NewestAged(locations: seq<Location>, nowTs: int, age: int, marker: Option<Location>)
  {
    && (marker.Some? ==>
          && marker.value in locations
          && nowTs - marker.value.ts >= age
          && forall l :: l in locations && nowTs - l.ts >= age ==> l.ts <= marker.value.ts)
    && (marker.None? ==> forall l :: l in locations ==> nowTs - l.ts < age)
  }

  lemma FindSpec(locations: seq<Location>, sorted: seq<Location>, nowTs: int, age: int)
    requires IsNewestFirst(sorted) && multiset(sorted) == multiset(locations)
    ensures NewestAged(locations, nowTs, age, Find(sorted, nowTs, age))
  {
    var i := FirstAged(sorted, nowTs, age);
    forall l | l in locations
      ensures exists j :: 0 <= j < |sorted| && sorted[j] == l
    {
      assert l in multiset(sorted);
    }
    if i < |sorted| {
      assert sorted[i] in multiset(locations);
    }
  }

  lemma SortedNonEmpty(locations: seq<Location>)
    requires locations != []
    ensures SortNewestFirst(locations) != []
  {
    SortSpec(locations);
    assert |multiset(SortNewestFirst(locations))| == |multiset(locations)|;
  }

  /** `now` is the newest location of the trail. */
  lemma MarkersNow(locations: seq<Location>)
    requires locations != []
    ensures TrailMarkers(locations).now in locations
    ensures forall l :: l in locations ==> l.ts <= TrailMarkers(locations).now.ts
  {
    SortSpec(locations);
    SortedNonEmpty(locations);
    var sorted := SortNewestFirst(locations);
    assert sorted[0] in multiset(locations);
    forall l | l in locations
      ensures l.ts <= sorted[0].ts
    {
      assert l in multiset(sorted);
      var j :| 0 <= j < |sorted| && sorted[j] == l;
    }
  }

  /** Each marker is the newest location at least five (ten) minutes older
      than `now`, and absent when no location is that old. */
  lemma MarkersAged(locations: seq<Location>)
    requires locations != []
    ensures var mk := TrailMarkers(locations);
      && NewestAged(locations, mk.now.ts, FiveMinutes, mk.fiveMinAgo)
      && NewestAged(locations, mk.now.ts, TenMinutes, mk.tenMinAgo)
  {
    SortSpec(locations);
    SortedNonEmpty(locations);
    var sorted := SortNewestFirst(locations);
    FindSpec(locations, sorted, sorted[0].ts, FiveMinutes);
    FindSpec(locations, sorted, sorted[0].ts, TenMinutes);
  }

  /** The first location ten minutes old comes no earlier than the first
      one five minutes old. */
  lemma AgedNested(s: seq<Location>, nowTs: int)
    ensures FirstAged(s, nowTs, TenMinutes) < |s| ==>
      FirstAged(s, nowTs, FiveMinutes) <= FirstAged(s, nowTs, TenMinutes)
  {
    var i10 := FirstAged(s, nowTs, TenMinutes);
    if i10 < |s| {
      assert nowTs - s[i10].ts >= FiveMinutes;
    }
  }

  /** A ten-minute marker implies a five-minute marker that is not older
      than it. */
  lemma MarkersNested(locations: seq<Location>)
    requires locations != []
    ensures var mk := TrailMarkers(locations);
      mk.tenMinAgo.Some? ==> mk.fiveMinAgo.Some? && mk.fiveMinAgo.value.ts >= mk.tenMinAgo.value.ts
  {
    SortSpec(locations);
    SortedNonEmpty(locations);
    var sorted := SortNewestFirst(locations);
    AgedNested(sorted, sorted[0].ts);
  }
}
