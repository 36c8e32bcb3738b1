/** The per-replica limiter (src/middleware/rate-limit-core.ts:82-107, 135-148) and its agreement with the
    shared counter that applies the same rules. */
module RateLimitCore {
  import opened Wrappers
  import opened WindowCounter

  datatype RateLimitEntry = RateLimitEntry(count: int, windowStart: int)

  type Limiter = map<string, RateLimitEntry>

  /** `retryAfter` in seconds; both numbers are 0 when not limited. */
  datatype RateLimitDecision = RateLimitDecision(limited: bool, count: int, retryAfter: int)

  /** `Math.ceil(ms / 1000)`. */
  function CeilSeconds(ms: int): int {
    -(-ms / 1000)
  }

  /** The entry a request is judged by: the one there, or a new window. */
  function CurrentEntry(m: Limiter, key: string, now: int, windowMs: int): RateLimitEntry {
    if key in m && now - m[key].windowStart < windowMs then m[key] else RateLimitEntry(0, now)
  }

  function CheckOn(m: Limiter, key: string, now: int, max: int, windowMs: int, weight: int): (Limiter, RateLimitDecision) {
    var e := CurrentEntry(m, key, now, windowMs);
    if e.count + weight > max then
      (m[key := e.(count := e.count + 1)],
       RateLimitDecision(true, e.count + 1, CeilSeconds(e.windowStart + windowMs - now)))
    else
      (m[key := e.(count := e.count + weight)], RateLimitDecision(false, 0, 0))
  }

  function PruneOn(m: Limiter, now: int, windowMs: int): Limiter {
    map k | k in m && now - m[k].windowStart < windowMs :: m[k]
  }

  class RateLimiter {
    var entries: Limiter

    constructor ()
      ensures entries == map[]
    {
      entries := map[];
    }

    method CheckRateLimit(key: string, now: int, max: int, windowMs: int, weight: int) returns (d: RateLimitDecision)
      modifies this
      ensures (entries, d) == CheckOn(old(entries), key, now, max, windowMs, weight)
    {
      if key !in entries || now - entries[key].windowStart >= windowMs {
        entries := entries[key := RateLimitEntry(0, now)];
      }
      var entry := entries[key];
      assert entry == CurrentEntry(old(entries), key, now, windowMs);
      if entry.count + weight > max {
        assert entries[key := entry.(count := entry.count + 1)] == old(entries)[key := entry.(count := entry.count + 1)];
        entries := entries[key := entry.(count := entry.count + 1)];
        d := RateLimitDecision(true, entry.count + 1, CeilSeconds(entry.windowStart + windowMs - now));
      } else {
        assert entries[key := entry.(count := entry.count + weight)] == old(entries)[key := entry.(count := entry.count + weight)];
        entries := entries[key := entry.(count := entry.count + weight)];
        d := RateLimitDecision(false, 0, 0);
      }
    }

    method PruneExpiredEntries(now: int, windowMs: int) returns (removed: nat)
      modifies this
      ensures entries == PruneOn(old(entries), now, windowMs) && removed == |old(entries)| - |entries|
    {
      removed := 0;
      var todo := entries.Keys;
      while todo != {}
        invariant todo <= entries.Keys <= old(entries).Keys
        invariant forall k :: k in entries ==> entries[k] == old(entries)[k]
        invariant forall k :: k in old(entries) && k !in todo ==> (k in entries <==> now - old(entries)[k].windowStart < windowMs)
        invariant |entries| + removed == |old(entries)|
        decreases todo
      {
        var key :| key in todo;
        todo := todo - {key};
        if now - entries[key].windowStart >= windowMs {
          assert entries.Keys == (entries - {key}).Keys + {key};
          entries := entries - {key};
          removed := removed + 1;
        }
      }
    }
  }

  // ---------- Against the shared counter ----------

  /** A request of `weight` sends for one key, or a sweep of both. */
  datatype Request = Send(at: int, key: string, weight: int) | Sweep(at: int)

  /** The options the HTTP API takes with: a refused request still counts once. */
  function Options(max: int, windowMs: int, weight: int): WindowOptions {
    WindowOptions(max, windowMs, weight, 1)
  }

  function LimiterStep(m: Limiter, r: Request, max: int, windowMs: int): (Limiter, Option<RateLimitDecision>) {
    match r
    case Send(at, key, weight) =>
      var (m', d) := CheckOn(m, key, at, max, windowMs, weight);
      (m', Some(d))
    case Sweep(at) => (PruneOn(m, at, windowMs), None)
  }

  /** The shared counter's decision in the limiter's terms. */
  function InSeconds(d: Decision): RateLimitDecision {
    if d.limited then RateLimitDecision(true, d.count, CeilSeconds(d.retryAfterMs)) else RateLimitDecision(false, 0, 0)
  }

  function CounterStep(c: Counter, r: Request, max: int, windowMs: int): (Counter, Option<RateLimitDecision>) {
    match r
    case Send(at, key, weight) =>
      var (c', d) := TakeOn(c, [key], Options(max, windowMs, weight), at);
      (c', Some(InSeconds(d)))
    case Sweep(at) => (c.(entries := PrunedEntries(c.entries, at)), None)
  }

  function LimiterDecisions(m: Limiter, run: seq<Request>, max: int, windowMs: int): seq<Option<RateLimitDecision>>
    decreases |run|
  {
    if run == [] then [] else
      var (m', d) := LimiterStep(m, run[0], max, windowMs);
      [d] + LimiterDecisions(m', run[1..], max, windowMs)
  }

  function CounterDecisions(c: Counter, run: seq<Request>, max: int, windowMs: int): seq<Option<RateLimitDecision>>
    decreases |run|
  {
    if run == [] then [] else
      var (c', d) := CounterStep(c, run[0], max, windowMs);
      [d] + CounterDecisions(c', run[1..], max, windowMs)
  }

  ghost predicate Timely(start: int, run: seq<Request>)
    decreases |run|
  {
    run == [] || (start <= run[0].at && Timely(run[0].at, run[1..]))
  }

  /** The live windows are the same ones, counted the same. */
  ghost predicate SameWindow(m: Limiter, c: Counter, key: string, now: int, windowMs: int) {
    var w := LiveWindow(c.entries, key, now);
    && (w.Some? <==> key in m && now - m[key].windowStart < windowMs)
    && (w.Some? ==> w.value.count == m[key].count && w.value.expiresAt == m[key].windowStart + windowMs)
  }

  ghost predicate SameWindows(m: Limiter, c: Counter, now: int, windowMs: int) {
    forall key :: SameWindow(m, c, key, now, windowMs)
  }

  lemma SendAgrees(m: Limiter, c: Counter, at: int, key: string, weight: int, max: int, windowMs: int)
    requires SameWindows(m, c, at, windowMs) && weight >= 1 && windowMs >= 1
    requires forall k :: CountIn(LiveWindow(c.entries, k, at)) >= 0
    ensures var r := Send(at, key, weight);
            var (m', d) := LimiterStep(m, r, max, windowMs);
            var (c', d') := CounterStep(c, r, max, windowMs);
            && d == d' && SameWindows(m', c', at, windowMs)
            && (forall k :: CountIn(LiveWindow(c'.entries, k, at)) >= 0)
  {
    TakeOneKey(c, key, Options(max, windowMs, weight), at);
    hide TakeOn;
    assert SameWindow(m, c, key, at, windowMs);
    assert CountIn(LiveWindow(c.entries, key, at)) >= 0;
    var m', c' := LimiterStep(m, Send(at, key, weight), max, windowMs).0, CounterStep(c, Send(at, key, weight), max, windowMs).0;
    forall k
      ensures SameWindow(m', c', k, at, windowMs) && CountIn(LiveWindow(c'.entries, k, at)) >= 0
    {
      assert SameWindow(m, c, k, at, windowMs);
      assert CountIn(LiveWindow(c.entries, k, at)) >= 0;
    }
  }

  lemma {:induction false} DecisionsAgree(m: Limiter, c: Counter, now: int, run: seq<Request>, max: int, windowMs: int)
    requires SameWindows(m, c, now, windowMs) && Timely(now, run) && windowMs >= 1
    requires forall k :: CountIn(LiveWindow(c.entries, k, now)) >= 0
    requires forall r :: r in run && r.Send? ==> r.weight >= 1
    ensures LimiterDecisions(m, run, max, windowMs) == CounterDecisions(c, run, max, windowMs)
    decreases |run|
  {
    hide CheckOn, TakeOn;
    if run != [] {
      var at := run[0].at;
      forall k
        ensures SameWindow(m, c, k, at, windowMs) && CountIn(LiveWindow(c.entries, k, at)) >= 0
      {
        assert SameWindow(m, c, k, now, windowMs);
        assert CountIn(LiveWindow(c.entries, k, now)) >= 0;
      }
      match run[0] {
        case Send(_, key, weight) => SendAgrees(m, c, at, key, weight, max, windowMs);
        case Sweep(_) =>
          forall k
            ensures SameWindow(LimiterStep(m, run[0], max, windowMs).0, CounterStep(c, run[0], max, windowMs).0, k, at, windowMs)
            ensures CountIn(LiveWindow(CounterStep(c, run[0], max, windowMs).0.entries, k, at)) >= 0
          {
            assert CountIn(LiveWindow(c.entries, k, at)) >= 0;
            assert SameWindow(m, c, k, at, windowMs);
          }
      }
      DecisionsAgree(LimiterStep(m, run[0], max, windowMs).0, CounterStep(c, run[0], max, windowMs).0, at, run[1..], max, windowMs);
    }
  }

  /** Every request is decided alike, with the same count and the same wait in whole seconds, by the
      per-replica limiter and by the shared counter, for any limit, window and weights of at least 1. */
  lemma LimiterIsCounter(start: int, run: seq<Request>, max: int, windowMs: int)
    requires Timely(start, run) && windowMs >= 1
    requires forall r :: r in run && r.Send? ==> r.weight >= 1
    ensures LimiterDecisions(map[], run, max, windowMs) == CounterDecisions(EMPTY, run, max, windowMs)
  {
    DecisionsAgree(map[], EMPTY, start, run, max, windowMs);
  }

  /** A wait in seconds is the least whole number of them that covers it. */
  lemma SecondsCover(ms: int, seconds: int)
    ensures CeilSeconds(ms) <= seconds <==> ms <= seconds * 1000
  {
  }
}
