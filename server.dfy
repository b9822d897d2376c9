/** The server's mutable state: bucket records updated in place and the
    `buckets` map that owns them, with `getBucket`, `refill`, `rateLimit`
    and the `/security` route as methods. Each method is specified by the
    pure functions of `TokenBucket` and `Endpoint`. */
module Server {
  import opened Requests
  import opened TokenBucket
  import opened Endpoint

  /** One `{ tokens, lastRefill }` record; `tokens` in units of `Token`. */
  class Bucket {
    var tokens: int
    var lastRefill: int

    constructor (now: int)
      ensures State() == Initial(now)
    {
      tokens := Capacity;
      lastRefill := now;
    }

    function State(): Level
      reads this
    {
      Level(tokens, lastRefill)
    }

    /** `refill(bucket)`, with the clock reading passed in. */
    method Refill(now: int)
      modifies this
      ensures State() == Refilled(old(State()), now)
    {
      var elapsed := now - lastRefill;
      var refillAmount := elapsed * RatePerMin;
      tokens := Min(Capacity, tokens + refillAmount);
      lastRefill := now;
    }

    /** The part of `rateLimit` that works on the record: refill, then deny
        or spend one token. */
    method Consume(now: int) returns (d: Decision)
      modifies this
      ensures (d, State()) == Decide(old(State()), now)
    {
      Refill(now);
      if tokens < Token {
        var waitSeconds := WaitSeconds(tokens);
        d := Deny(waitSeconds);
      } else {
        tokens := tokens - Token;
        d := Admit;
      }
    }
  }

  class Limiter {
    /** The `buckets` map, from key to the record it owns. */
    var buckets: map<Value, Bucket>
    /** The keys of the `RATE_LIMIT_BLOCK` security events logged so far. */
    ghost var blocks: seq<Value>

    /** Every key owns its own record, and every record keeps the token bound. */
    ghost predicate Valid()
      reads this, buckets.Values
    {
      && (forall k, k' :: k in buckets && k' in buckets && k != k' ==> buckets[k] != buckets[k'])
      && Bounded(Levels())
    }

    /** The store the records spell out. */
    ghost function Levels(): Store
      reads this, buckets.Values
    {
      map k | k in buckets :: buckets[k].State()
    }

    /** The clock reads `now` or later than every recorded refill. */
    ghost predicate ClockAt(now: int)
      reads this, buckets.Values
    {
      NotAhead(Levels(), now)
    }

    constructor ()
      ensures Valid() && buckets == map[] && blocks == []
    {
      buckets := map[];
      blocks := [];
    }

    /** `getBucket(key)`: the key's record, created full on first sight. */
    method GetBucket(key: Value, now: int) returns (b: Bucket)
      requires Valid()
      modifies this
      ensures Valid() && blocks == old(blocks)
      ensures key in buckets && buckets[key] == b
      ensures Levels() == old(Levels())[key := Lookup(old(Levels()), key, now)]
      ensures old(key in buckets) ==> buckets == old(buckets)
      ensures old(key !in buckets) ==> fresh(b) && buckets == old(buckets)[key := b]
    {
      if key !in buckets {
        var created := new Bucket(now);
        buckets := buckets[key := created];
        assert forall k :: k in old(buckets) ==> buckets[k].State() == old(buckets[k].State());
        assert Levels() == old(Levels())[key := Initial(now)];
      }
      b := buckets[key];
    }

    /** The `rateLimit` middleware for one request arriving at `now`. */
    method RateLimit(req: Request, now: int) returns (d: Decision)
      requires Valid() && ClockAt(now)
      modifies this, buckets.Values
      ensures Valid() && ClockAt(now)
      ensures (d, Levels()) == Step(old(Levels()), GetKey(req), now)
      ensures blocks == if d.Deny? then old(blocks) + [GetKey(req)] else old(blocks)
    {
      var key := GetKey(req);
      ghost var before := Levels();
      var bucket := GetBucket(key, now);
      ghost var owned := buckets;

      d := bucket.Consume(now);
      if d.Deny? {
        blocks := blocks + [key];
      }
      ghost var after := Decide(Lookup(before, key, now), now).1;
      ghost var expected := before[key := after];
      OverwriteTwice(before, key, Lookup(before, key, now), after);
      assert buckets == owned;
      assert Levels().Keys == expected.Keys;
      forall k | k in buckets
        ensures Levels()[k] == expected[k]
      {
        if k != key {
          assert buckets[k] != bucket;
        }
      }
      assert Levels() == expected;
      StepKeepsBounds(before, key, now);
    }

    /** `POST /security`: the limiter, then the handler when admitted. */
    method Security(req: Request, now: int, sanitize: Value -> Option<string>) returns (resp: Response)
      requires Valid() && ClockAt(now)
      modifies this, buckets.Values
      ensures Valid() && ClockAt(now)
      ensures var (d, s) := Step(old(Levels()), GetKey(req), now);
              && Levels() == s
              && resp == Respond(d, req.body, sanitize)
              && blocks == if d.Deny? then old(blocks) + [GetKey(req)] else old(blocks)
    {
      var d := RateLimit(req, now);
      match d
      case Deny(waitSeconds) =>
        resp := RateLimited(waitSeconds);
      case Admit =>
        resp := Handle(req.body, sanitize);
    }
  }
}
