/** The token-bucket admission policy as pure functions over bucket values,
    with the properties it promises.

    Quantities are exact integers: one token is `Token` units, so the refill
    rate of `RatePerMin / 60000` tokens per millisecond is `RatePerMin` units
    per millisecond and the capacity of `Burst` tokens is `Capacity` units.
    Times are whole milliseconds. */
module TokenBucket {
  import opened Requests

  const RatePerMin: nat := 31
  const Burst: nat := 10
  const MsPerMin: nat := 60000

  /** One token, in units. */
  const Token: nat := MsPerMin
  /** `Burst` tokens, in units. */
  const Capacity: nat := Burst * Token

  /** The content of one bucket record: `tokens` in units and the time of the last refill. */
  datatype Level = Level(tokens: int, lastRefill: int)

  function Min(a: int, b: int): int {
    if a < b then a else b
  }

  /** The record a bucket is created with on a key's first request. */
  function Initial(now: int): Level {
    Level(Capacity, now)
  }

  /** `refill`: add what accrued since the last refill, capped at the capacity,
      and restamp the bucket. The elapsed time is not clamped, so a clock that
      runs backwards takes tokens away. */
  function Refilled(b: Level, now: int): (r: Level)
    ensures r.lastRefill == now
    ensures r.tokens <= Capacity
    ensures b.lastRefill <= now && b.tokens <= Capacity ==> b.tokens <= r.tokens
    ensures r.tokens <= b.tokens + (now - b.lastRefill) * RatePerMin
    ensures r.tokens == Capacity || r.tokens == b.tokens + (now - b.lastRefill) * RatePerMin
  {
    Level(Min(Capacity, b.tokens + (now - b.lastRefill) * RatePerMin), now)
  }

  /** Integer division rounding up, characterised by the interval it picks. */
  function CeilDiv(a: int, d: int): (q: int)
    requires d > 0
    ensures (q - 1) * d < a <= q * d
  {
    var q := (a + d - 1) / d;
    assert q * d + (a + d - 1) % d == a + d - 1;
    q
  }

  /** The `Retry-After` seconds for a bucket left with `tokens < 1` token:
      the least whole number of seconds whose refill reaches one token. */
  function WaitSeconds(tokens: int): (w: int)
    requires tokens < Token
    ensures w >= 1
    ensures tokens + w * 1000 * RatePerMin >= Token
    ensures tokens + (w - 1) * 1000 * RatePerMin < Token
  {
    CeilDiv(Token - tokens, 1000 * RatePerMin)
  }

  datatype Decision = Admit | Deny(retryAfter: int)

  /** The decision step of `rateLimit` on one bucket: refill, then deny when
      less than one token is left, or consume one token and admit. */
  function Decide(b: Level, now: int): (r: (Decision, Level))
    ensures r.1.lastRefill == now
    ensures r.0.Admit? <==> Refilled(b, now).tokens >= Token
    ensures r.0.Admit? ==> r.1.tokens == Refilled(b, now).tokens - Token
    ensures r.0.Deny? ==> r.1 == Refilled(b, now)
    ensures r.0.Deny? ==> r.0.retryAfter >= 1
  {
    var f := Refilled(b, now);
    if f.tokens < Token then (Deny(WaitSeconds(f.tokens)), f)
    else (Admit, Level(f.tokens - Token, now))
  }

  /** The module-level `buckets` map. */
  type Store = map<Value, Level>

  /** `getBucket`: the key's record, or a full one stamped `now` for an unseen key. */
  function Lookup(s: Store, key: Value, now: int): Level {
    if key in s then s[key] else Initial(now)
  }

  /** One call of `rateLimit` for `key` at time `now`: the decision and the new store. */
  function Step(s: Store, key: Value, now: int): (r: (Decision, Store))
    ensures r.1.Keys == s.Keys + {key}
    ensures forall k :: k in s && k != key ==> r.1[k] == s[k]
    ensures (r.0, r.1[key]) == Decide(Lookup(s, key, now), now)
  {
    var (d, b) := Decide(Lookup(s, key, now), now);
    (d, s[key := b])
  }

  /** The token bound `0 <= tokens <= BURST` for every bucket. */
  ghost predicate Bounded(s: Store) {
    forall k :: k in s ==> 0 <= s[k].tokens <= Capacity
  }

  /** No bucket was refilled later than `now`: the clock has not gone back. */
  ghost predicate NotAhead(s: Store, now: int) {
    forall k :: k in s ==> s[k].lastRefill <= now
  }

  /** A bucket within bounds and refilled no later than `now` stays within bounds. */
  lemma DecideKeepsBounds(b: Level, now: int)
    requires 0 <= b.tokens <= Capacity && b.lastRefill <= now
    ensures 0 <= Decide(b, now).1.tokens <= Capacity
  {
  }

  lemma StepKeepsBounds(s: Store, key: Value, now: int)
    requires Bounded(s) && NotAhead(s, now)
    ensures Bounded(Step(s, key, now).1) && NotAhead(Step(s, key, now).1, now)
  {
    DecideKeepsBounds(Lookup(s, key, now), now);
  }

  /** A request to the limiter: a key and the time it arrives. */
  datatype Call = Call(key: Value, now: int)

  /** A sequence of calls, one after another: the decisions and the final store. */
  function Run(s: Store, calls: seq<Call>): (r: (seq<Decision>, Store))
    ensures |r.0| == |calls|
    decreases |calls|
  {
    if calls == [] then ([], s)
    else
      var (d, s1) := Step(s, calls[0].key, calls[0].now);
      var (ds, s2) := Run(s1, calls[1..]);
      ([d] + ds, s2)
  }

  /** The clock never goes back: call times do not decrease and the first is
      not earlier than any refill already recorded. */
  ghost predicate Chronological(s: Store, calls: seq<Call>) {
    && (forall i :: 0 < i < |calls| ==> calls[i - 1].now <= calls[i].now)
    && (|calls| > 0 ==> NotAhead(s, calls[0].now))
  }

  /** The token invariant: with a clock that does not go back, every bucket
      stays within `0 <= tokens <= BURST` after any sequence of calls. */
  lemma {:induction false} RunKeepsBounds(s: Store, calls: seq<Call>)
    requires Bounded(s) && Chronological(s, calls)
    ensures Bounded(Run(s, calls).1)
    decreases |calls|
  {
    if calls != [] {
      var s1 := Step(s, calls[0].key, calls[0].now).1;
      StepKeepsBounds(s, calls[0].key, calls[0].now);
      if |calls| > 1 {
        assert calls[0].now <= calls[1].now;
        assert NotAhead(s1, calls[1].now);
      }
      assert Chronological(s1, calls[1..]) by {
        forall i | 0 < i < |calls[1..]|
          ensures calls[1..][i - 1].now <= calls[1..][i].now
        {
          assert calls[1..][i - 1] == calls[i] && calls[1..][i] == calls[i + 1];
        }
      }
      RunKeepsBounds(s1, calls[1..]);
    }
  }

  /** Calls for other keys leave a key's bucket as it was, over a whole run. */
  lemma {:induction false} RunFrame(s: Store, calls: seq<Call>, key: Value)
    requires forall i :: 0 <= i < |calls| ==> calls[i].key != key
    ensures key in Run(s, calls).1 <==> key in s
    ensures key in s ==> Run(s, calls).1[key] == s[key]
    decreases |calls|
  {
    if calls != [] {
      var s1 := Step(s, calls[0].key, calls[0].now).1;
      StepFrame(s, calls[0].key, calls[0].now, key);
      assert forall i :: 0 <= i < |calls[1..]| ==> calls[1..][i] == calls[i + 1];
      RunFrame(s1, calls[1..], key);
    }
  }

  /** A denied caller who waits exactly `Retry-After` seconds is admitted,
      whatever calls for other keys came in between. */
  lemma {:induction false} RetryAfterSuffices(s: Store, key: Value, now: int, others: seq<Call>)
    requires Step(s, key, now).0.Deny?
    requires forall i :: 0 <= i < |others| ==> others[i].key != key
    ensures var (d, s1) := Step(s, key, now);
            Step(Run(s1, others).1, key, now + d.retryAfter * 1000).0 == Admit
  {
    var (d, s1) := Step(s, key, now);
    RunFrame(s1, others, key);
    var s2 := Run(s1, others).1;
    var f := Refilled(Lookup(s, key, now), now);
    assert s2[key] == s1[key] == f;
    var w := d.retryAfter;
    assert w == WaitSeconds(f.tokens);
    assert (now + w * 1000 - f.lastRefill) * RatePerMin == w * 1000 * RatePerMin;
  }

  /** Retry-After is not pessimistic: a retry earlier than that by at least
      the last whole second is still denied, whatever calls for other keys
      came in between. */
  lemma {:induction false} RetryAfterIsLeast(s: Store, key: Value, now: int, others: seq<Call>, wait: int)
    requires Step(s, key, now).0.Deny?
    requires forall i :: 0 <= i < |others| ==> others[i].key != key
    requires 0 <= wait <= (Step(s, key, now).0.retryAfter - 1) * 1000
    ensures var s1 := Step(s, key, now).1;
            Step(Run(s1, others).1, key, now + wait).0.Deny?
  {
    var (d, s1) := Step(s, key, now);
    RunFrame(s1, others, key);
    var s2 := Run(s1, others).1;
    var f := Refilled(Lookup(s, key, now), now);
    assert s2[key] == s1[key] == f;
    var w := d.retryAfter;
    assert w == WaitSeconds(f.tokens);
    assert wait * RatePerMin <= (w - 1) * 1000 * RatePerMin;
    assert (now + wait - f.lastRefill) * RatePerMin == wait * RatePerMin;
  }

  /** A caller no faster than the sustained rate, whose bucket is not in debt,
      is admitted. */
  lemma SlowCallerAdmitted(b: Level, now: int)
    requires 0 <= b.tokens
    requires (now - b.lastRefill) * RatePerMin >= Token
    ensures Decide(b, now).0 == Admit
  {
  }

  /** A key never seen before is admitted: its bucket starts full. */
  lemma FreshKeyAdmitted(s: Store, key: Value, now: int)
    requires key !in s
    ensures Step(s, key, now).0 == Admit
    ensures Step(s, key, now).1[key] == Level(Capacity - Token, now)
  {
  }

  /** The calls for `key` in `calls` are each at least one sustained-rate
      period after the previous refill of its bucket and after one another. */
  ghost predicate SpacedFor(s: Store, key: Value, calls: seq<Call>) {
    && (forall i, j :: 0 <= i < j < |calls| && calls[i].key == key && calls[j].key == key
          ==> (calls[j].now - calls[i].now) * RatePerMin >= Token)
    && (forall j :: 0 <= j < |calls| && calls[j].key == key && key in s
          ==> (calls[j].now - s[key].lastRefill) * RatePerMin >= Token)
  }

  /** A key whose calls are spaced at least one sustained-rate period apart
      is never denied, however the calls of other keys are interleaved. */
  lemma {:induction false} SpacedCallsAdmitted(s: Store, key: Value, calls: seq<Call>)
    requires key in s ==> 0 <= s[key].tokens
    requires SpacedFor(s, key, calls)
    ensures forall i :: 0 <= i < |calls| && calls[i].key == key ==> Run(s, calls).0[i] == Admit
    decreases |calls|
  {
    if calls != [] {
      var c := calls[0];
      var (d, s1) := Step(s, c.key, c.now);
      var rest := calls[1..];
      assert forall i :: 0 <= i < |rest| ==> rest[i] == calls[i + 1];
      if c.key == key {
        assert d == Admit by {
          if key in s {
            SlowCallerAdmitted(s[key], c.now);
          }
        }
        assert 0 <= s1[key].tokens && s1[key].lastRefill == c.now;
        assert SpacedFor(s1, key, rest) by {
          forall j | 0 <= j < |rest| && rest[j].key == key
            ensures (rest[j].now - s1[key].lastRefill) * RatePerMin >= Token
          {
            assert calls[j + 1].key == key;
          }
          forall i, j | 0 <= i < j < |rest| && rest[i].key == key && rest[j].key == key
            ensures (rest[j].now - rest[i].now) * RatePerMin >= Token
          {
            assert calls[i + 1].key == key && calls[j + 1].key == key;
          }
        }
      } else {
        StepFrame(s, c.key, c.now, key);
        assert SpacedFor(s1, key, rest) by {
          forall i, j | 0 <= i < j < |rest| && rest[i].key == key && rest[j].key == key
            ensures (rest[j].now - rest[i].now) * RatePerMin >= Token
          {
            assert calls[i + 1].key == key && calls[j + 1].key == key;
          }
          if key in s1 {
            forall j | 0 <= j < |rest| && rest[j].key == key
              ensures (rest[j].now - s1[key].lastRefill) * RatePerMin >= Token
            {
              assert calls[j + 1].key == key;
            }
          }
        }
      }
      SpacedCallsAdmitted(s1, key, rest);
      var ds := Run(s1, rest).0;
      assert Run(s, calls).0 == [d] + ds;
      forall i | 0 < i < |calls| && calls[i].key == key
        ensures Run(s, calls).0[i] == Admit
      {
        assert rest[i - 1].key == key;
      }
    }
  }

  /** `n` copies of `x`. */
  function Repeat<T>(x: T, n: nat): (r: seq<T>)
    ensures |r| == n
    ensures forall i :: 0 <= i < n ==> r[i] == x
  {
    if n == 0 then [] else [x] + Repeat(x, n - 1)
  }

  /** A bucket holding exactly `n` whole tokens, hit `n + 1` times at the
      instant of its last refill, admits `n` times and then denies with the
      two-second delay an empty bucket needs. */
  lemma {:induction false} DrainAtInstant(s: Store, key: Value, now: int, n: nat)
    requires n <= Burst && key in s && s[key] == Level(n * Token, now)
    ensures Run(s, Repeat(Call(key, now), n + 1)).0 == Repeat(Admit, n) + [Deny(2)]
  {
    var calls := Repeat(Call(key, now), n + 1);
    var (d, s1) := Step(s, key, now);
    if n == 0 {
      assert Refilled(s[key], now).tokens == 0;
      assert WaitSeconds(0) == 2;
      assert d == Deny(2);
      assert calls[1..] == [];
    } else {
      assert n * Token <= Capacity;
      assert d == Admit;
      assert n * Token - Token == (n - 1) * Token;
      assert s1[key] == Level((n - 1) * Token, now);
      assert calls[1..] == Repeat(Call(key, now), n);
      DrainAtInstant(s1, key, now, n - 1);
      assert Repeat(Admit, n) == [Admit] + Repeat(Admit, n - 1);
    }
  }

  /** The burst scenario: a fresh key calling `BURST + 1` times at one instant
      gets `BURST` admissions and then a denial with `Retry-After: 2`; retrying
      two seconds later succeeds. */
  lemma FreshBurst(s: Store, key: Value, now: int)
    requires key !in s
    ensures Run(s, Repeat(Call(key, now), Burst + 1)).0 == Repeat(Admit, Burst) + [Deny(2)]
    ensures Run(s, Repeat(Call(key, now), Burst + 1) + [Call(key, now + 2000)]).0
         == Repeat(Admit, Burst) + [Deny(2), Admit]
  {
    var c := Call(key, now);
    var (d, s1) := Step(s, key, now);
    assert d == Admit;
    assert s1[key] == Level((Burst - 1) * Token, now);
    DrainAtInstant(s1, key, now, Burst - 1);
    assert Repeat(c, Burst + 1)[1..] == Repeat(c, Burst);
    assert Repeat(Admit, Burst) == [Admit] + Repeat(Admit, Burst - 1);
    RunThenStep(s, Repeat(c, Burst + 1), Call(key, now + 2000));
    var s2 := Run(s, Repeat(c, Burst + 1)).1;
    DrainedStore(s1, key, now, Burst - 1);
    assert Run(s, Repeat(c, Burst + 1)).1 == Run(s1, Repeat(c, Burst)).1;
    assert s2[key] == Level(0, now);
    assert Step(s2, key, now + 2000).0 == Admit;
  }

  /** What `DrainAtInstant` leaves behind: an empty bucket stamped `now`. */
  lemma {:induction false} DrainedStore(s: Store, key: Value, now: int, n: nat)
    requires n <= Burst && key in s && s[key] == Level(n * Token, now)
    ensures var s2 := Run(s, Repeat(Call(key, now), n + 1)).1;
            key in s2 && s2[key] == Level(0, now)
  {
    var s1 := Step(s, key, now).1;
    var calls := Repeat(Call(key, now), n + 1);
    if n == 0 {
      assert calls[1..] == [];
    } else {
      assert n * Token <= Capacity;
      assert n * Token - Token == (n - 1) * Token;
      assert s1[key] == Level((n - 1) * Token, now);
      assert calls[1..] == Repeat(Call(key, now), n);
      DrainedStore(s1, key, now, n - 1);
    }
  }

  /** Running `calls` and then one more call is the run of the longer sequence. */
  lemma {:induction false} RunThenStep(s: Store, calls: seq<Call>, c: Call)
    ensures var (ds, s1) := Run(s, calls);
            Run(s, calls + [c]) == (ds + [Step(s1, c.key, c.now).0], Step(s1, c.key, c.now).1)
    decreases |calls|
  {
    if calls == [] {
      assert [] + [c] == [c] && [c][1..] == [];
      var e := Step(s, c.key, c.now);
      assert Run(s, [c]) == ([e.0] + [], e.1);
      assert [e.0] + [] == [] + [e.0];
    } else {
      var (d, s1) := Step(s, calls[0].key, calls[0].now);
      assert (calls + [c])[0] == calls[0];
      assert (calls + [c])[1..] == calls[1..] + [c];
      RunThenStep(s1, calls[1..], c);
      var (ds, s2) := Run(s1, calls[1..]);
      var e := Step(s2, c.key, c.now);
      assert Run(s1, calls[1..] + [c]) == (ds + [e.0], e.1);
      assert Run(s, calls + [c]) == ([d] + (ds + [e.0]), e.1);
      assert [d] + (ds + [e.0]) == ([d] + ds) + [e.0];
    }
  }

  /** A second update of the same key overrides the first. */
  lemma OverwriteTwice(s: Store, key: Value, first: Level, second: Level)
    ensures s[key := first][key := second] == s[key := second]
  {
  }

  /** One call for a key leaves every other key's bucket as it was. */
  lemma StepFrame(s: Store, key: Value, now: int, other: Value)
    requires other != key
    ensures other in Step(s, key, now).1 <==> other in s
    ensures other in s ==> Step(s, key, now).1[other] == s[other]
  {
  }

  /** The code does not guard against a clock that runs backwards: refilling
      an empty bucket one second into its past leaves it below zero. */
  lemma RegressingClockGoesNegative()
    ensures Decide(Level(0, 1000), 0) == (Deny(3), Level(-1000 * RatePerMin, 0))
  {
    assert WaitSeconds(-31000) == 3;
  }
}
