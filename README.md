# Per-caller token-bucket admission for the security API

This project models, in Dafny, the rate limiter in front of the `/security`
endpoint of a small Express service, and proves properties of that model.

Each caller is identified by a key. The key is the `userId` of the JSON
body when that value is truthy, and the request's IP address otherwise. A
module-level map holds one bucket per key. A bucket is created full
(`BURST` = 10 tokens) on the key's first request. On every request the
bucket is refilled at `RATE_PER_MIN` = 31 tokens per minute, capped at
`BURST`. If less than one token is left, the request is refused with status
429 and a `Retry-After` delay in whole seconds. Otherwise one token is spent
and the request goes on to the handler. The handler then refuses a body
that lacks a truthy `userId`, `input` or `category`, and answers "Processing
error" when converting `input` to a string throws.

Modules:

- `Requests` (`requests.dfy`) – JavaScript values and their truthiness, requests, and `getKey`.
- `TokenBucket` (`token_bucket.dfy`) – the refill and admission policy as pure functions on bucket
  values and on the key-to-bucket store. It also holds the lemmas: the token bound over any run,
  the retry delay, the burst scenario and the frame.
- `Endpoint` (`endpoint.dfy`) – the responses, the required-field check and its place behind the limiter.
- `Server` (`server.dfy`) – the mutable state. `Bucket` is a class whose fields `refill` updates in
  place. `Limiter` owns the `buckets` map. Its `GetBucket`, `RateLimit` and `Security` methods are
  each proved against the pure function of `TokenBucket`/`Endpoint` they implement.

Exact arithmetic: the source computes with JavaScript doubles. The model uses
integers scaled so that one token is 60000 units:

- the refill rate `31/60000` tokens per millisecond becomes 31 units per millisecond;
- the capacity becomes 600000 units;
- "fewer than one token" becomes `tokens < 60000`;
- the delay `ceil((1 - tokens) / REFILL_PER_MS / 1000)` becomes `ceil((60000 - tokens) / 31000)`.

Times are whole milliseconds. `Date.now()` becomes a `now` parameter.

The model follows the code also where a careful limiter would do otherwise:

- The elapsed time is not clamped. If the clock runs backwards, the refill takes tokens away and a
  bucket can go below zero (`TokenBucket.RegressingClockGoesNegative`). The token bound is therefore
  proved only for a clock that does not go backwards.
- A request with missing fields is refused only after the limiter has already spent one of its
  caller's tokens (`Endpoint.MissingFieldsStillSpendToken`).
- The rate constants are fixed in the code, not configurable.
- A `userId` and an IP address are keys in the same map. A `userId` spelled like an address
  therefore shares that address's bucket (`Requests.UserIdCanCollideWithOrigin`).

## Model

| member | source | states |
|---|---|---|
| `Requests.Truthy` | server.js:45 | a definition with no contract of its own: JavaScript truthiness of `undefined`, `null`, booleans, numbers, strings and objects, used by the contracts of `GetKey` and `Handle` |
| `Requests.UserId` | server.js:45 | a definition with no contract of its own: `req.body && req.body.userId`, undefined without a body, used by the contract of `GetKey` |
| `Requests.GetKey` | server.js:44-46 | the key is the `userId` when it is truthy, the request's IP otherwise |
| `Requests.SameUserSameKey` | server.js:44-46 | two requests with the same truthy `userId` get the same key, whatever their IPs |
| `Requests.AnonymousKeyIsOrigin` | server.js:44-46 | requests without a truthy `userId` share a key if and only if they share an IP |
| `Requests.DistinctUsersDistinctKeys` | server.js:44-46 | different truthy `userId`s never share a key |
| `Requests.UserIdCanCollideWithOrigin` | server.js:39-46 | a `userId` equal to an IP string shares the bucket of anonymous callers from that IP |
| `TokenBucket.Initial` | server.js:50-53 | a definition with no contract of its own: the record a new key starts with, `BURST` tokens stamped `now`, used by `Lookup` and by the contract of `Server.Bucket.constructor` |
| `TokenBucket.Lookup` | server.js:48-56 | a definition with no contract of its own: the key's stored record, or `Initial(now)` for an unseen key, used by the contracts of `Step` and `Limiter.GetBucket` |
| `TokenBucket.Refilled` | server.js:58-65 | after a refill, `lastRefill` is `now` and tokens are at most `BURST`; for a bucket within the cap and a clock that has not gone back, tokens do not decrease; below the cap the refill is exactly `elapsed * rate` |
| `TokenBucket.WaitSeconds` | server.js:78-80 | the delay is at least 1 second, and it is the least whole number of seconds whose refill brings the bucket to one token |
| `TokenBucket.Decide` | server.js:75-99 | denied if and only if tokens after the refill are below one token; on denial the refilled bucket (new timestamp) is kept and the delay is at least 1; on admission exactly one token is spent |
| `TokenBucket.Step` | server.js:70-111 | one `rateLimit` call changes only its key's entry, adds that key if it was absent, and decides on the existing or new full bucket |
| `TokenBucket.DecideKeepsBounds` | server.js:58-99 | a bucket with `0 <= tokens <= BURST` that was last refilled no later than `now` stays within those bounds |
| `TokenBucket.StepKeepsBounds` | server.js:48-99 | one call keeps every bucket within bounds and no bucket stamped later than `now` |
| `TokenBucket.RunKeepsBounds` | server.js:48-111 | with a non-decreasing clock, `0 <= tokens <= BURST` holds for every bucket after any sequence of calls |
| `TokenBucket.RunFrame` | server.js:48-111 | a run of calls for other keys leaves a key's presence and bucket unchanged |
| `TokenBucket.RetryAfterSuffices` | server.js:58-99 | a caller who is denied and retries exactly `Retry-After` seconds later is admitted, whatever calls for other keys came in between |
| `TokenBucket.RetryAfterIsLeast` | server.js:58-99 | a retry at any time up to one second before `Retry-After` is still denied, whatever calls for other keys came in between |
| `TokenBucket.SlowCallerAdmitted` | server.js:58-99 | a bucket that is not in debt and has waited at least one sustained-rate period always admits |
| `TokenBucket.FreshKeyAdmitted` | server.js:48-56 | a key never seen before is admitted and left with `BURST - 1` tokens |
| `TokenBucket.SpacedCallsAdmitted` | server.js:48-99 | in a run interleaving any keys, every call for a key is admitted when that key's calls are each at least one sustained-rate period after its previous call and its bucket's last refill |
| `TokenBucket.DrainAtInstant` | server.js:75-99 | a bucket with `n` whole tokens hit `n + 1` times at the same instant admits `n` times and then denies with `Retry-After: 2` |
| `TokenBucket.FreshBurst` | server.js:35-99 | a fresh key making `BURST + 1` calls at one instant: `BURST` admissions, then a denial with a 2-second delay, then admission 2000 ms later |
| `TokenBucket.StepFrame` | server.js:48-111 | a call for one key leaves every other key's presence and bucket unchanged |
| `TokenBucket.RegressingClockGoesNegative` | server.js:58-65 | refilling an empty bucket one second into its past leaves it at minus 31/60 token, and it is denied with a 3-second delay |
| `Endpoint.RateLimited` | server.js:88-96 | a definition with no contract of its own: the 429 reply with the delay as `Retry-After`, reason "Rate limit exceeded" and confidence 0.99, used by the contract of `Respond` |
| `Endpoint.MissingRequired` | server.js:118-120 | a definition with no contract of its own: the body is absent or one of `userId`, `input`, `category` is falsy, used by the contract of `Handle` |
| `Endpoint.Handle` | server.js:116-151 | 400 "Missing required fields" if and only if any of `userId`, `input`, `category` is falsy or the body is absent; otherwise 400 "Processing error" (confidence 0.7) when converting `input` throws, and 200 with the sanitized input, reason "Input passed all security checks" and confidence 0.95 if and only if it does not |
| `Endpoint.Respond` | server.js:88-100 | status 429 if and only if the limiter denies, and then exactly the `RateLimited` reply with the delay as `Retry-After`; otherwise the handler's response |
| `Endpoint.UserIdAloneIsMissingFields` | server.js:118-127 | a body with only a `userId` is refused as "Missing required fields" |
| `Endpoint.MissingFieldsStillSpendToken` | server.js:99-127 | a request refused for missing fields has still spent one token of its caller's bucket |
| `Server.Bucket.constructor` | server.js:50-53 | a new record holds `BURST` tokens, stamped `now` |
| `Server.Bucket.Refill` | server.js:58-65 | the record's fields become the `Refilled` value of their old values |
| `Server.Bucket.Consume` | server.js:75-99 | the record is refilled and then either spends one token and admits or keeps its refilled value and denies, exactly as `Decide` of its old value |
| `Server.Limiter.constructor` | server.js:39 | the store starts empty, with no security events |
| `Server.Limiter.GetBucket` | server.js:48-56 | an unseen key gets exactly one new, fresh, full record stamped `now`; a seen key leaves the map unchanged and returns its own record |
| `Server.Limiter.RateLimit` | server.js:70-111 | the decision and the new store are those of `Step`; the object invariant (one record per key, token bound) is kept; one block event is logged exactly when the call is denied |
| `Server.Limiter.Security` | server.js:116-152 | the response is `Respond` of the limiter's decision; the store moves as in `Step`, including for requests then refused for missing fields |

## Left out

- Express wiring is not modelled; it is transport: the app, JSON body parsing, CORS headers, the
  OPTIONS handler, the health check, `app.listen` and `PORT` (server.js:1-29, 34, 157-159).
- Console logging is I/O. The `RATE_LIMIT_BLOCK` events are kept only as the ghost sequence
  `Limiter.blocks` of their keys. The error logs are left out.
- Clock reads (`Date.now()`, `new Date().toISOString()`) become the `now` parameter. Bucket creation
  and the refill that follows it read the same `now`. The source reads the clock twice, a moment apart.
- Server.Limiter.RateLimit: requires a clock not behind any recorded refill (`ClockAt(now)`), so that
  the token bound can be an object invariant. The source does not check this. What a clock that goes
  backwards does is modelled by the pure `TokenBucket.Refilled`, `Decide` and `Step`, which have no
  such requirement.
- Server.Limiter.Security: requires the same clock condition, for the same reason.
- IEEE-754 rounding is replaced by exact scaled integers: of `REFILL_PER_MS` and of the token sums,
  and in the `Math.ceil` of a quotient of doubles.
- The script-tag regex replacement and `String(input)` are foreign string operations. Together they
  are the parameter `sanitize`, which the model does not look into. It returns `None` when
  `String(input)` throws. A parsed JSON body can make it throw, for example an `input` of
  `{"toString": 1}`. `Endpoint.Handle` then gives the handler's 400 "Processing error" reply.
- The "Validation error" path of `rateLimit` (server.js:101-110) is left out. Nothing in `getKey`,
  `getBucket` or `refill` can throw on a parsed body, so the path is not reachable from the
  modelled steps.
- JavaScript numbers are modelled as reals. `NaN` (falsy) and `-0` are left out. Objects and arrays
  are `Ref(id)`: always truthy, and compared by identity as `Map` keys. The model lets two requests
  carry the same `id`, which the source cannot do: every parsed body is a new object. In the
  source, a `userId` that is an object or an array therefore always names a new key. Such a
  request gets a new full bucket and is always admitted (`TokenBucket.FreshKeyAdmitted`), and the
  map grows with each one.
- A body that is not a JSON object is left out. It is modelled as its absence or as a body whose
  fields are all `undefined`.
- Concurrency is left out. The server runs on one JavaScript thread, and every call runs to completion.
- Sliding-window limiting and key eviction are left out: neither appears in the code.
