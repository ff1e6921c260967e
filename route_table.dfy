/**
 * Building the route directory from the rows of the GTFS `routes.txt`
 * table (header row already consumed by the CSV reader).
 *
 * - The older backend (`ROUTES`) skips rows that fail to read or have
 *   fewer than four fields, and keys the map by `route_id`.
 * - The newer backend (`refresh_routes`) keys the map by
 *   `route_short_name` and gives up on the whole refresh at the first
 *   row that does not decode.
 * In both, a later row with the same key replaces an earlier one
 * (`HashMap` collect and `insert`).
 */
module RouteTable {
  import opened Wrappers
  import opened Transit

  /** One CSV record: its fields, or a record the reader failed on. */
  datatype RawRow = Row(fields: seq<string>) | Unreadable

  /** Fields 0, 2 and 3 are route id, short name and long name (the GTFS
      column order route_id, agency_id, route_short_name,
      route_long_name); field 1 is not used. */
  function DecodeRow(row: RawRow): (r: Option<RouteInfo>)
    ensures r.Some? <==> row.Row? && |row.fields| >= 4
    ensures r.Some? ==> r.value == RouteInfo(row.fields[0], row.fields[2], row.fields[3])
  {
    match row
    case Unreadable => None
    case Row(f) => if |f| < 4 then None else Some(RouteInfo(f[0], f[2], f[3]))
  }

  /** Field 1 has no influence on the decoded route. */
  lemma DecodeIgnoresField1(fields: seq<string>, other: string)
    requires |fields| >= 2
    ensures DecodeRow(Row(fields[1 := other])) == DecodeRow(Row(fields))
  {
  }

  /** Which field of a route is the map key. */
  datatype KeyField = ByRouteId | ByShortName

  function KeyOf(info: RouteInfo, key: KeyField): string
  {
    match key
    case ByRouteId => info.routeId
    case ByShortName => info.shortName
  }

  /** Whether row `row` decodes to a route whose key is `k`. */
  predicate HasKey(row: RawRow, key: KeyField, k: string)
  {
    DecodeRow(row).Some? && KeyOf(DecodeRow(row).value, key) == k
  }

  /** The map obtained by inserting the decoded rows in order, skipping
      the rows that do not decode. */
  function Collect(rows: seq<RawRow>, key: KeyField): map<string, RouteInfo>
  {
    if rows == [] then map[]
    else
      var m := Collect(rows[..|rows| - 1], key);
      match DecodeRow(rows[|rows| - 1])
      case None => m
      case Some(info) => m[KeyOf(info, key) := info]
  }

  /** The index of the last row with key `k`, or -1 when there is none. */
  function LastWithKey(rows: seq<RawRow>, key: KeyField, k: string): (i: int)
    ensures -1 <= i < |rows|
    ensures i >= 0 ==> HasKey(rows[i], key, k)
    ensures forall j :: i < j < |rows| ==> !HasKey(rows[j], key, k)
  {
    if rows == [] then -1
    else if HasKey(rows[|rows| - 1], key, k) then |rows| - 1
    else LastWithKey(rows[..|rows| - 1], key, k)
  }

  /** A key is in the collected map exactly when some row decodes with
      that key, and it maps to the route of the LAST such row. */
  lemma {:induction false} CollectSpec(rows: seq<RawRow>, key: KeyField, k: string)
    ensures k in Collect(rows, key) <==> exists i :: 0 <= i < |rows| && HasKey(rows[i], key, k)
    ensures k in Collect(rows, key) ==>
      Collect(rows, key)[k] == DecodeRow(rows[LastWithKey(rows, key, k)]).value
  {
    if rows != [] {
      var front := rows[..|rows| - 1];
      CollectSpec(front, key, k);
      if !HasKey(rows[|rows| - 1], key, k) {
        if exists i :: 0 <= i < |rows| && HasKey(rows[i], key, k) {
          var i :| 0 <= i < |rows| && HasKey(rows[i], key, k);
          assert front[i] == rows[i];
        }
        assert LastWithKey(rows, key, k) == LastWithKey(front, key, k);
      }
    }
  }

  /** The keys of the collected map are the keys of its values. */
  lemma CollectKeysMatchValues(rows: seq<RawRow>, key: KeyField, k: string)
    requires k in Collect(rows, key)
    ensures KeyOf(Collect(rows, key)[k], key) == k
  {
    CollectSpec(rows, key, k);
  }

  /** Rows that do not decode are skipped without affecting the result. */
  lemma {:induction false} CollectSkipsUndecodable(rows: seq<RawRow>, row: RawRow, key: KeyField)
    requires DecodeRow(row).None?
    ensures Collect(rows + [row], key) == Collect(rows, key)
  {
    assert (rows + [row])[..|rows|] == rows;
  }

  /** Every row decodes. */
  predicate AllDecodable(rows: seq<RawRow>)
  {
    forall i :: 0 <= i < |rows| ==> DecodeRow(rows[i]).Some?
  }

  /** Why a refresh failed: the download, the archive or the `routes.txt`
      entry (all before any row is read), or a row that does not decode. */
  datatype RefreshError = DownloadFailed(reason: string) | RowUndecodable

  /** What `refresh_routes` returns, given the downloaded rows or the
      failure that happened before any row was read. */
  function RefreshResult(download: Result<seq<RawRow>, RefreshError>): Result<map<string, RouteInfo>, RefreshError>
  {
    match download
    case Failure(e) => Failure(e)
    case Success(rows) =>
      if AllDecodable(rows) then Success(Collect(rows, ByShortName)) else Failure(RowUndecodable)
  }

  /** `refresh_routes`, from the downloaded rows on: the
      `for result in rdr.deserialize()` loop inserting each route under its
      short name, returning early on the first row that fails. */
  method RefreshRoutes(download: Result<seq<RawRow>, RefreshError>)
    returns (r: Result<map<string, RouteInfo>, RefreshError>)
    ensures r == RefreshResult(download)
  {
    if download.Failure? {
      return Failure(download.error);
    }
    var rows := download.value;
    var routes: map<string, RouteInfo> := map[];
    for i := 0 to |rows|
      invariant AllDecodable(rows[..i])
      invariant routes == Collect(rows[..i], ByShortName)
    {
      var decoded := DecodeRow(rows[i]);
      if decoded.None? {
        return Failure(RowUndecodable);
      }
      var route := decoded.value;
      routes := routes[route.shortName := route];
      assert rows[..i + 1][..i] == rows[..i];
    }
    assert rows[..|rows|] == rows;
    return Success(routes);
  }

  /** A refresh succeeds exactly when the download succeeded and every row
      decodes; its map then holds, under each short name, the last row with
      that short name. */
  lemma RefreshResultSpec(rows: seq<RawRow>, k: string)
    ensures RefreshResult(Success(rows)).Success? <==> AllDecodable(rows)
    ensures RefreshResult(Success(rows)).Success? ==>
      (k in RefreshResult(Success(rows)).value <==>
         exists i :: 0 <= i < |rows| && DecodeRow(rows[i]).value.shortName == k)
    ensures RefreshResult(Success(rows)).Success? && k in RefreshResult(Success(rows)).value ==>
      var i := LastWithKey(rows, ByShortName, k);
      0 <= i && RefreshResult(Success(rows)).value[k] == DecodeRow(rows[i]).value
  {
    CollectSpec(rows, ByShortName, k);
  }

  /** One undecodable row anywhere makes the whole refresh fail. */
  lemma OneBadRowFailsRefresh(before: seq<RawRow>, bad: RawRow, after: seq<RawRow>)
    requires DecodeRow(bad).None?
    ensures RefreshResult(Success(before + [bad] + after)) == Failure(RowUndecodable)
  {
    assert (before + [bad] + after)[|before|] == bad;
  }
}
