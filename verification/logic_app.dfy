/** The moderation webhook (api/src/lib/logicApp.ts): one JSON POST to the
    configured Logic App URL, carrying the correlation id. The HTTP exchange
    itself is the parameter `post`. */
module LogicApp {
  import opened Common

  /** The payload the publish handler sends: `{id, isPublished, title}`. */
  datatype WebhookPayload = WebhookPayload(id: Id, isPublished: bool, title: string)

  /** One POST as it leaves the service. */
  datatype WebhookCall = WebhookCall(url: string, payload: WebhookPayload, correlationId: string)

  /** `fetch` of one POST: the status of the answer, or the error it threw. */
  type Post = WebhookCall -> Result<int>

  const WebhookNotConfigured: Error := Api(500, "Logic App webhook URL not configured", "config_error")

  /** The 502 of a non-2xx answer, with the upstream status as details. */
  function WebhookFailed(status: int): Error {
    ApiError(502, "Logic App webhook call failed", "logicapp_error", UpstreamStatus(status))
  }

  /** `response.ok` */
  predicate StatusOk(status: int) {
    200 <= status <= 299
  }

  /** callLogicAppWebhook: the POSTs it sends (none without a URL, else exactly
      one) and whether it returns or throws. */
  function CallLogicAppWebhook(url: Option<string>, payload: WebhookPayload, correlationId: string, post: Post): (r: (seq<WebhookCall>, Result<()>))
    ensures !Truthy(url) ==> r == ([], Err(WebhookNotConfigured))
    ensures Truthy(url) ==> r.0 == [WebhookCall(url.value, payload, correlationId)]
    ensures r.1.Ok? <==> |r.0| == 1 && post(r.0[0]).Ok? && StatusOk(post(r.0[0]).value)
    ensures |r.0| == 1 && post(r.0[0]).Ok? && !StatusOk(post(r.0[0]).value) ==> r.1 == Err(WebhookFailed(post(r.0[0]).value))
    ensures |r.0| == 1 && post(r.0[0]).Err? ==> r.1 == Err(post(r.0[0]).error)
  {
    if !Truthy(url) then ([], Err(WebhookNotConfigured))
    else
      var call := WebhookCall(url.value, payload, correlationId);
      match post(call)
      case Err(e) => ([call], Err(e))
      case Ok(status) => ([call], if StatusOk(status) then Ok(()) else Err(WebhookFailed(status)))
  }
}
