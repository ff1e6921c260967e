/**
 * The data model shared by both backends (backend/src/main.rs and
 * backend/temp/src/main.rs): route metadata, decoded feed entities,
 * emitted locations, history records and the error enum with its
 * display text and HTTP response.
 */
module Transit {
  import opened Wrappers

  /** One route of the directory. The older backend calls the last two
      fields `short_name` and `long_name`, the newer one
      `route_short_name` and `route_long_name`. */
  datatype RouteInfo = RouteInfo(routeId: string, shortName: string, longName: string)

  /** One feed entity, flattened from
      `{id, vehicle: {trip: {route_id}, timestamp, position: {latitude, longitude}, vehicle: {id}}}`.
      Latitude and longitude are only copied, never computed with. */
  datatype Entity = Entity(
    id: string,
    routeId: string,
    timestamp: string,
    latitude: real,
    longitude: real,
    vehicleId: string)

  /** One emitted vehicle position. */
  datatype Location = Location(lat: real, lon: real, ts: string, route: RouteInfo, vehicleId: string)

  /** One successful poll: the poll's own timestamp and its locations. */
  datatype Record = Record(ts: string, locations: seq<Location>)

  /** The JSON values the rate-limit check inspects. serde_json keeps a
      non-negative integer that fits in 64 bits as an unsigned integer,
      a negative one as a signed integer, everything else numeric as a
      float. */
  datatype Json = JUInt(n: nat) | JNegInt(i: int) | JFloat(x: real) | JStr(s: string) | JOther

  /** Whether the body deserialises into `Res { entity: Vec<Entity> }`. */
  datatype Decoded = Entities(entities: seq<Entity>) | Undecodable(reason: string)

  /** The fetched JSON body: its top-level `statusCode` and `message`
      members (absent when missing or when the body is not an object) and
      the outcome of decoding the whole body. */
  datatype Payload = Payload(statusCode: Option<Json>, message: Option<Json>, body: Decoded)

  /** The outcome of the HTTP request: a transport failure (connection,
      timeout, a body that is not JSON) or a JSON body. */
  datatype Fetched = TransportFailed(reason: string) | Received(payload: Payload)

  /** `enum Error`. The wrapped reqwest and serde_json errors are
      represented by their display text. */
  datatype Error =
    | SomeError
    | ReqwestError(detail: string)
    | SerdeJsonError(detail: string)
    | RateLimited(message: string)

  const RateLimitedPrefix: string := "Rate limited: "
  const ReqwestPrefix: string := "Cat reqwest error: "

  /** The `#[error(...)]` display text of each variant. */
  function Display(e: Error): string
  {
    match e
    case SomeError => "Some error"
    case ReqwestError(d) => ReqwestPrefix + d
    case SerdeJsonError(d) => d
    case RateLimited(m) => RateLimitedPrefix + m
  }

  const InternalServerError: nat := 500

  /** The JSON body `{"error": "<message>"}`. */
  datatype ErrorBody = ErrorBody(error: string)

  datatype Response = Response(status: nat, body: ErrorBody)

  /** `into_response`: every error kind becomes status 500 with its
      display text as the body's `error` member. */
  function IntoResponse(e: Error): (r: Response)
    ensures r.status == InternalServerError
    ensures r.body.error == Display(e)
  {
    Response(InternalServerError, ErrorBody(Display(e)))
  }

  /** The body of a rate-limit response carries the upstream message
      verbatim after the fixed prefix, so a client can recover it. */
  lemma RateLimitedBodyCarriesMessage(m: string)
    ensures |IntoResponse(RateLimited(m)).body.error| == |RateLimitedPrefix| + |m|
    ensures IntoResponse(RateLimited(m)).body.error[..|RateLimitedPrefix|] == RateLimitedPrefix
    ensures IntoResponse(RateLimited(m)).body.error[|RateLimitedPrefix|..] == m
  {
  }

  /** The response status does not tell the error kinds apart. */
  lemma ResponseStatusIsGeneric(e1: Error, e2: Error)
    ensures IntoResponse(e1).status == IntoResponse(e2).status
  {
  }
}
