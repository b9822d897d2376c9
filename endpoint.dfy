/** The `/security` endpoint's decisions: the response for a rate-limit
    denial, the required-field check, and how the two are chained. */
module Endpoint {
  import opened Requests
  import opened TokenBucket

  /** The status code, the `Retry-After` header when there is one, and the JSON body. */
  datatype Response = Response(
    status: nat,
    retryAfter: Option<int>,
    blocked: bool,
    reason: string,
    sanitizedOutput: Option<string>,
    confidence: real)

  /** The 429 reply of `rateLimit`. */
  function RateLimited(waitSeconds: int): Response {
    Response(429, Some(waitSeconds), true, "Rate limit exceeded", None, 0.99)
  }

  /** `!userId || !input || !category` on `req.body || {}`. */
  predicate MissingRequired(body: Option<Body>) {
    body.None? || !Truthy(body.value.userId) || !Truthy(body.value.input) || !Truthy(body.value.category)
  }

  /** The handler behind the limiter. `sanitize` stands for
      `String(input).replace(...)`, a transform this model does not look into;
      it yields `None` when `String(input)` throws, as it does for an object
      whose `toString` is not callable, and the `catch` answers with a
      "Processing error". */
  function Handle(body: Option<Body>, sanitize: Value -> Option<string>): (r: Response)
    ensures r.status == 400 || r.status == 200
    ensures r.blocked <==> r.status == 400
    ensures r.reason == "Missing required fields" <==> MissingRequired(body)
    ensures r.reason == "Missing required fields" ==> r.confidence == 0.9
    ensures !MissingRequired(body) && sanitize(body.value.input).None?
            ==> r.status == 400 && r.reason == "Processing error" && r.confidence == 0.7
    ensures r.status == 200 <==> !MissingRequired(body) && sanitize(body.value.input).Some?
    ensures r.status == 200 ==> r.sanitizedOutput == sanitize(body.value.input)
    ensures r.status == 200 ==> r.reason == "Input passed all security checks" && r.confidence == 0.95
    ensures r.blocked ==> r.sanitizedOutput == None
    ensures r.retryAfter == None
  {
    if MissingRequired(body) then
      Response(400, None, true, "Missing required fields", None, 0.9)
    else
      match sanitize(body.value.input)
      case None => Response(400, None, true, "Processing error", None, 0.7)
      case Some(out) => Response(200, None, false, "Input passed all security checks", Some(out), 0.95)
  }

  /** What the client receives once the limiter has decided. */
  function Respond(d: Decision, body: Option<Body>, sanitize: Value -> Option<string>): (r: Response)
    ensures r.status == 429 <==> d.Deny?
    ensures d.Deny? ==> r.retryAfter == Some(d.retryAfter) && r.blocked
    ensures d.Deny? ==> r == RateLimited(d.retryAfter)
    ensures d.Admit? ==> r == Handle(body, sanitize)
  {
    match d
    case Deny(w) => RateLimited(w)
    case Admit => Handle(body, sanitize)
  }

  /** A body with a `userId` and nothing else is refused as missing fields. */
  lemma UserIdAloneIsMissingFields(u: string, sanitize: Value -> Option<string>)
    requires u != ""
    ensures Handle(Some(Body(Str(u), Undefined, Undefined)), sanitize).reason == "Missing required fields"
  {
  }

  /** The field check runs behind the limiter: a request that is refused for
      missing fields has still spent one token of its caller's bucket. */
  lemma MissingFieldsStillSpendToken(s: Store, req: Request, now: int, sanitize: Value -> Option<string>)
    requires MissingRequired(req.body)
    requires Step(s, GetKey(req), now).0 == Admit
    ensures var (d, s1) := Step(s, GetKey(req), now);
            && Respond(d, req.body, sanitize).status == 400
            && s1[GetKey(req)].tokens == Refilled(Lookup(s, GetKey(req), now), now).tokens - Token
  {
  }
}
