/** The HTTP wrapper every function goes through (api/src/lib/http.ts): CORS
    pre-flight, the correlation id, header merging, JSON responses and the
    mapping of thrown errors to error responses. Logging is not modelled. */
module Http {
  import opened Common
  import opened Sql
  import opened Validation

  /** Header names as the runtime hands them over. Request header lookup is
      case-insensitive in the runtime; request maps here hold lower-case names. */
  type Headers = map<string, string>

  /** An incoming request: the method (`verb`), the headers, the route parameters and
      the body, `None` when the body is not valid JSON. */
  datatype Request = Request(verb: string, headers: Headers, params: map<string, string>, body: Option<Json>)

  /** A response body: none, the error envelope `{error: {code, message,
      details}}` (with `NoDetails` for `details: null`), or a handler's payload. */
  datatype Body<+T> = NoBody | ErrorBody(code: string, message: string, details: Details) | JsonBody(value: T)

  datatype Response<+T> = Response(status: int, body: Body<T>, headers: Headers)

  const DefaultCorsOrigin: string := "http://localhost:5173"
  const CorrelationHeader: string := "x-correlation-id"

  /** `process.env.CORS_ORIGIN ?? "http://localhost:5173"`: any set value, even
      an empty one, wins over the default. */
  function CorsOrigin(env: Env): string {
    Lookup(env, "CORS_ORIGIN").GetOr(DefaultCorsOrigin)
  }

  /** getCorsHeaders */
  function CorsHeaders(env: Env): Headers {
    map[
      "Access-Control-Allow-Origin" := CorsOrigin(env),
      "Access-Control-Allow-Methods" := "GET,POST,PATCH,DELETE,OPTIONS",
      "Access-Control-Allow-Headers" := "Content-Type, x-correlation-id",
      "Access-Control-Allow-Credentials" := "true"]
  }

  /** getCorrelationId: a non-empty x-correlation-id, else x-request-id as sent
      (an empty one included), else the freshly generated UUID `newId`. */
  function CorrelationId(headers: Headers, newId: string): (id: string)
    ensures CorrelationHeader in headers && headers[CorrelationHeader] != "" ==> id == headers[CorrelationHeader]
    ensures id == newId || id in headers.Values
    ensures id == "" ==> newId == "" || ("x-request-id" in headers && headers["x-request-id"] == "")
  {
    if CorrelationHeader in headers && headers[CorrelationHeader] != "" then headers[CorrelationHeader]
    else if "x-request-id" in headers then headers["x-request-id"]
    else newId
  }

  /** The headers the wrapper adds to every response. */
  function WrapperHeaders(env: Env, correlationId: string): Headers {
    CorsHeaders(env)[CorrelationHeader := correlationId]
  }

  /** mergeHeaders: the response's own headers, overridden by `extra` where
      both name the same header. */
  function MergeHeaders<T>(response: Response<T>, extra: Headers): (r: Response<T>)
    ensures r.status == response.status && r.body == response.body
    ensures r.headers.Keys == response.headers.Keys + extra.Keys
    ensures forall h :: h in extra ==> r.headers[h] == extra[h]
    ensures forall h :: h in response.headers && h !in extra ==> r.headers[h] == response.headers[h]
  {
    response.(headers := response.headers + extra)
  }

  /** jsonResponse: content-type application/json unless the caller's headers
      say otherwise; the caller's headers are kept as given. */
  function JsonResponse<T>(status: int, body: Body<T>, headers: Headers): (r: Response<T>)
    ensures r.status == status && r.body == body
    ensures r.headers.Keys == headers.Keys + {"content-type"}
    ensures forall h :: h in headers ==> r.headers[h] == headers[h]
    ensures "content-type" !in headers ==> r.headers["content-type"] == "application/json"
  {
    Response(status, body, map["content-type" := "application/json"] + headers)
  }

  const InternalError: Error := Api(500, "Unexpected server error", "internal_error")

  /** The error a client reads back from an error response. */
  function ErrorOfResponse<T>(r: Response<T>): Option<Error> {
    if r.body.ErrorBody? then Some(ApiError(r.status, r.body.message, r.body.code, r.body.details)) else None
  }

  /** toErrorResponse: an ApiError keeps its status, code, message and details,
      so it reads back unchanged; anything else becomes a 500 `internal_error`. */
  function ToErrorResponse<T>(e: Error): (r: Response<T>)
    ensures r.body.ErrorBody? && r.headers == map["content-type" := "application/json"]
    ensures e.ApiError? ==> r.status == e.status
    ensures !e.ApiError? ==> r.status == 500 && r.body.code == "internal_error"
    ensures ErrorOfResponse(r) == Some(if e.ApiError? then e else InternalError)
  {
    var shown := if e.ApiError? then e else InternalError;
    JsonResponse(shown.status, ErrorBody(shown.code, shown.message, shown.details), map[])
  }

  const InvalidJson: Error := Api(400, "Invalid JSON body", "invalid_json")

  /** readJson: the parsed body, or 400 `invalid_json` when it does not parse. */
  function ReadJson(request: Request): (r: Result<Json>)
    ensures r.Ok? <==> request.body.Some?
    ensures r.Ok? ==> r.value == request.body.value
    ensures r.Err? ==> r.error == InvalidJson
  {
    if request.body.Some? then Ok(request.body.value) else Err(InvalidJson)
  }

  /** A function body: given the state, the request and the correlation id, it
      returns the new state and a response, or throws. */
  type Handler<!S, T> = (S, Request, string) -> (S, Result<Response<T>>)

  /** createHttpHandler applied to one request. `newId` is the UUID generated
      when the request carries no correlation id. */
  function Serve<S, T>(state: S, request: Request, env: Env, newId: string, handler: Handler<S, T>): (r: (S, Response<T>))
    ensures request.verb == "OPTIONS" ==> r.0 == state && r.1.status == 204 && r.1.body == NoBody
    ensures request.verb != "OPTIONS" ==> r.0 == handler(state, request, CorrelationId(request.headers, newId)).0
  {
    var id := CorrelationId(request.headers, newId);
    var extra := WrapperHeaders(env, id);
    if request.verb == "OPTIONS" then (state, Response(204, NoBody, extra))
    else
      var (state', outcome) := handler(state, request, id);
      match outcome
      case Ok(response) => (state', MergeHeaders(response, extra))
      case Err(e) => (state', MergeHeaders(ToErrorResponse(e), extra))
  }

  /** Every response, pre-flight or not, carries the CORS headers and echoes
      the correlation id; a thrown error shows as its error response and a
      returned response keeps its status and body. */
  lemma ServeSpec<S, T>(state: S, request: Request, env: Env, newId: string, handler: Handler<S, T>)
    ensures var id := CorrelationId(request.headers, newId);
      var response := Serve(state, request, env, newId, handler).1;
      && response.headers[CorrelationHeader] == id
      && (forall h :: h in CorsHeaders(env) ==> h in response.headers && response.headers[h] == CorsHeaders(env)[h])
      && (request.verb != "OPTIONS" ==>
            var outcome := handler(state, request, id).1;
            && (outcome.Ok? ==> response.status == outcome.value.status && response.body == outcome.value.body)
            && (outcome.Err? ==> ErrorOfResponse(response) == Some(if outcome.error.ApiError? then outcome.error else InternalError)))
  {
    var id := CorrelationId(request.headers, newId);
    var extra := WrapperHeaders(env, id);
    assert "x-correlation-id" !in CorsHeaders(env);
    forall h | h in CorsHeaders(env) ensures h in extra && extra[h] == CorsHeaders(env)[h] {
      assert h != CorrelationHeader;
    }
  }
}
