/** What a token bucket lets through, what its waits mean, and that neither the sweep of full buckets nor
    the expiry in Redis is seen by any take. */
module TokenRates {
  import opened TokenBuckets
  import opened RedisTokens

  // ---------- Refilling ----------

  lemma Grows(tokens: real, since: int, at: int, later: int, rate: TokenRate)
    requires since <= at <= later && rate.perMinute > 0.0
    ensures Refilled(tokens, since, at, rate) <= Refilled(tokens, since, later, rate)
    ensures Refilled(tokens, since, later, rate)
         <= Refilled(tokens, since, at, rate) + (later - at) as real * PerMs(rate)
  {
    var p := PerMs(rate);
    var a, b := (at - since) as real, (later - since) as real;
    assert b * p == a * p + (later - at) as real * p;
    assert (later - at) as real * p >= 0.0;
  }

  /** A bucket that is full stays full. */
  lemma FullStays(tokens: real, since: int, at: int, later: int, rate: TokenRate)
    requires since <= at <= later && rate.perMinute > 0.0 && Refilled(tokens, since, at, rate) >= rate.capacity as real
    ensures Refilled(tokens, since, later, rate) == rate.capacity as real
  {
    Grows(tokens, since, at, later, rate);
  }

  /** A clock that goes back takes no tokens away. */
  lemma ClockBack(tokens: real, since: int, at: int, rate: TokenRate)
    requires at <= since && tokens <= rate.capacity as real
    ensures Refilled(tokens, since, at, rate) == tokens
  {
  }

  lemma CeilIsLeast(x: real, n: int)
    ensures n >= Ceil(x) <==> n as real >= x
  {
  }

  /** `n` milliseconds bring `tokens` to `goal` exactly when `n` is at least the quotient, rounded up. */
  lemma TimeToReach(tokens: real, goal: real, rate: TokenRate, n: int)
    requires rate.perMinute > 0.0
    ensures n >= MsUntil(goal - tokens, PerMs(rate)) <==> tokens + n as real * PerMs(rate) >= goal
  {
    var p := PerMs(rate);
    var x := (goal - tokens) / p;
    assert x * p == goal - tokens;
    CeilIsLeast(x, n);
    if n as real >= x {
      assert (n as real - x) * p >= 0.0;
    } else {
      assert (x - n as real) * p > 0.0;
    }
  }

  // ---------- The sweep ----------

  /** A bucket of this key: its own rate, a level within the capacity, no time ahead. */
  ghost predicate KeyOk(entries: Buckets, key: string, rate: TokenRate, now: int) {
    key in entries ==>
      && entries[key].rate == rate && entries[key].at <= now
      && 0.0 <= entries[key].tokens <= rate.capacity as real
  }

  lemma SweepUnseen(entries: Buckets, key: string, rate: TokenRate, at: int, later: int)
    requires KeyOk(entries, key, rate, at) && at <= later && rate.perMinute > 0.0
    ensures Level(Swept(entries, at), key, later, rate) == Level(entries, key, later, rate)
    ensures KeyOk(Swept(entries, at), key, rate, at)
  {
    if key in entries && key !in Swept(entries, at) {
      FullStays(entries[key].tokens, entries[key].at, at, later, rate);
    }
  }

  lemma LevelBounds(entries: Buckets, key: string, rate: TokenRate, at: int)
    requires KeyOk(entries, key, rate, at) && rate.capacity >= 0 && rate.perMinute > 0.0
    ensures 0.0 <= Level(entries, key, at, rate) <= rate.capacity as real
  {
    if key in entries {
      Grows(entries[key].tokens, entries[key].at, entries[key].at, at, rate);
    }
  }

  /** A take of `key`: what it grants leaves the bucket, and the level stays within the capacity. */
  lemma TakeSpends(entries: Buckets, key: string, count: nat, rate: TokenRate, at: int)
    requires KeyOk(entries, key, rate, at) && rate.capacity >= 0 && rate.perMinute > 0.0
    ensures var (after, g) := TakeOn(entries, key, count, rate, at);
            && KeyOk(after, key, rate, at)
            && Level(after, key, at, rate) == Level(entries, key, at, rate) - g.granted as real
            && 0 <= g.granted <= count
            && key in after && after[key].at == at
            && (g.granted < count ==> after[key].tokens < 1.0 && g.waitMs == MsUntil(1.0 - after[key].tokens, PerMs(rate)))
  {
    SweepUnseen(entries, key, rate, at, at);
    LevelBounds(entries, key, rate, at);
    hide PerMs, Swept;
  }

  /** A take of another key leaves the level of this one. */
  lemma OthersUnseen(entries: Buckets, other: string, count: nat, otherRate: TokenRate, key: string, rate: TokenRate, at: int, later: int)
    requires KeyOk(entries, key, rate, at) && at <= later && other != key && otherRate.perMinute > 0.0 && rate.perMinute > 0.0
    ensures var after := TakeOn(entries, other, count, otherRate, at).0;
            KeyOk(after, key, rate, at) && Level(after, key, later, rate) == Level(entries, key, later, rate)
  {
    SweepUnseen(entries, key, rate, at, later);
  }

  // ---------- Runs ----------

  /** A rate that refills. */
  type Rate = r: TokenRate | r.perMinute > 0.0 witness TokenRate(1, 1.0)

  datatype Take = Take(at: int, key: string, count: nat, rate: Rate)

  /** Takes in order from `start` to `end`, those of `key` at `rate`. */
  ghost predicate Within(start: int, run: seq<Take>, end: int, key: string, rate: TokenRate)
    decreases |run|
  {
    if run == [] then start <= end
    else
      && start <= run[0].at && (run[0].key == key ==> run[0].rate == rate)
      && Within(run[0].at, run[1..], end, key, rate)
  }

  function StepOf(entries: Buckets, t: Take): (Buckets, Grant) {
    TakeOn(entries, t.key, t.count, t.rate, t.at)
  }

  function After(entries: Buckets, run: seq<Take>): Buckets
    decreases |run|
  {
    if run == [] then entries else After(StepOf(entries, run[0]).0, run[1..])
  }

  /** The tokens of `key` granted along a run. */
  function GrantedAlong(entries: Buckets, run: seq<Take>, key: string): int
    decreases |run|
  {
    if run == [] then 0
    else (if run[0].key == key then StepOf(entries, run[0]).1.granted else 0) + GrantedAlong(StepOf(entries, run[0]).0, run[1..], key)
  }

  lemma {:induction false} WithinEnds(start: int, run: seq<Take>, end: int, key: string, rate: TokenRate)
    requires Within(start, run, end, key, rate)
    ensures start <= end
    decreases |run|
  {
    if run != [] {
      WithinEnds(run[0].at, run[1..], end, key, rate);
    }
  }

  lemma KeyOkLater(entries: Buckets, key: string, rate: TokenRate, at: int, later: int)
    requires KeyOk(entries, key, rate, at) && at <= later && rate.perMinute > 0.0
    ensures KeyOk(entries, key, rate, later)
    ensures Level(entries, key, later, rate) <= Level(entries, key, at, rate) + (later - at) as real * PerMs(rate)
  {
    if key in entries {
      Grows(entries[key].tokens, entries[key].at, at, later, rate);
    } else {
      assert (later - at) as real * PerMs(rate) >= 0.0;
    }
  }

  /** What a run grants of `key` comes out of the level it started with and what refilled meanwhile. */
  lemma {:induction false} RunSpends(entries: Buckets, run: seq<Take>, key: string, rate: TokenRate, start: int, end: int)
    requires Within(start, run, end, key, rate) && KeyOk(entries, key, rate, start)
    requires rate.capacity >= 0 && rate.perMinute > 0.0
    ensures KeyOk(After(entries, run), key, rate, end)
    ensures 0.0 <= Level(After(entries, run), key, end, rate)
         <= Level(entries, key, start, rate) + (end - start) as real * PerMs(rate) - GrantedAlong(entries, run, key) as real
    decreases |run|
  {
    hide TakeOn, Level, KeyOk, PerMs;
    WithinEnds(start, run, end, key, rate);
    if run == [] {
      KeyOkLater(entries, key, rate, start, end);
      LevelBounds(entries, key, rate, end);
    } else {
      var t := run[0];
      var next := StepOf(entries, t).0;
      WithinEnds(t.at, run[1..], end, key, rate);
      KeyOkLater(entries, key, rate, start, t.at);
      if t.key == key {
        TakeSpends(entries, key, t.count, rate, t.at);
      } else {
        OthersUnseen(entries, t.key, t.count, t.rate, key, rate, t.at, t.at);
      }
      RunSpends(next, run[1..], key, rate, t.at, end);
      Spans(start, t.at, end, PerMs(rate));
      assert After(entries, run) == After(next, run[1..]);
      assert GrantedAlong(entries, run, key) == (if t.key == key then StepOf(entries, t).1.granted else 0) + GrantedAlong(next, run[1..], key);
      assert Level(next, key, t.at, rate) <= Level(entries, key, start, rate) + (t.at - start) as real * PerMs(rate)
        - (if t.key == key then StepOf(entries, t).1.granted else 0) as real;
    }
  }

  lemma Spans(a: int, b: int, c: int, p: real)
    ensures (c - a) as real * p == (b - a) as real * p + (c - b) as real * p
  {
    assert (c - a) as real == (b - a) as real + (c - b) as real;
  }

  lemma RatePositive(rate: TokenRate)
    requires rate.perMinute > 0.0
    ensures PerMs(rate) > 0.0
  {
  }

  /** After any history of takes, the tokens of a key granted between two times are at most its capacity
      and what its rate adds in between; what is stored stays between none and the capacity. */
  lemma {:induction false} RateBound(history: seq<Take>, span: seq<Take>, key: string, rate: TokenRate, began: int, start: int, end: int)
    requires Within(began, history, start, key, rate) && Within(start, span, end, key, rate)
    requires rate.capacity >= 0 && rate.perMinute > 0.0
    ensures var entries := After(map[], history);
            && GrantedAlong(entries, span, key) as real
               <= rate.capacity as real + rate.perMinute * (end - start) as real / 60000.0
            && (key in entries ==> 0.0 <= entries[key].tokens <= rate.capacity as real)
  {
    hide *;
    NoBuckets(key, rate, began);
    RunSpends(map[], history, key, rate, began, start);
    var entries := After(map[], history);
    RunSpends(entries, span, key, rate, start, end);
    KeyOkBounds(entries, key, rate, start);
    PerMinute(rate, (end - start) as real);
  }

  lemma NoBuckets(key: string, rate: TokenRate, at: int)
    ensures KeyOk(map[], key, rate, at)
  {
  }

  lemma KeyOkBounds(entries: Buckets, key: string, rate: TokenRate, at: int)
    requires KeyOk(entries, key, rate, at) && rate.capacity >= 0 && rate.perMinute > 0.0
    ensures Level(entries, key, at, rate) <= rate.capacity as real
    ensures key in entries ==> 0.0 <= entries[key].tokens <= rate.capacity as real
  {
    LevelBounds(entries, key, rate, at);
  }

  lemma PerMinute(rate: TokenRate, ms: real)
    ensures ms * PerMs(rate) == rate.perMinute * ms / 60000.0
  {
  }

  // ---------- Waits ----------

  lemma {:induction false} WaitInState(entries: Buckets, key: string, count: nat, rate: TokenRate, at: int, d: nat)
    requires KeyOk(entries, key, rate, at) && rate.capacity >= 0 && rate.perMinute > 0.0
    requires TakeOn(entries, key, count, rate, at).1.granted < count
    ensures var (after, g) := TakeOn(entries, key, count, rate, at);
            && g.waitMs >= 1
            && (d < g.waitMs ==> TakeOn(after, key, 1, rate, at + d).1.granted == 0)
            && (TakeOn(after, key, 1, rate, at + g.waitMs).1.granted == 1 <==> rate.capacity >= 1)
  {
    hide TakeOn, PerMs, MsUntil, Level, Refilled;
    RatePositive(rate);
    TakeSpends(entries, key, count, rate, at);
    var (after, g) := TakeOn(entries, key, count, rate, at);
    var tokens := after[key].tokens;
    TimeToReach(tokens, 1.0, rate, 0);
    TimeToReach(tokens, 1.0, rate, d);
    TimeToReach(tokens, 1.0, rate, g.waitMs);
    LevelReachesOne(after, key, rate, at, d);
    LevelReachesOne(after, key, rate, at, g.waitMs);
    OneTokenAt(after, key, rate, at, at + d);
    OneTokenAt(after, key, rate, at, at + g.waitMs);
  }

  lemma LevelReachesOne(entries: Buckets, key: string, rate: TokenRate, at: int, d: nat)
    requires key in entries && entries[key].at == at && rate.perMinute > 0.0
    ensures Level(entries, key, at + d, rate) >= 1.0
       <==> entries[key].tokens + d as real * PerMs(rate) >= 1.0 && rate.capacity >= 1
  {
    hide PerMs;
  }

  /** A take of one token succeeds exactly when the level has reached one. */
  lemma OneTokenAt(entries: Buckets, key: string, rate: TokenRate, now: int, at: int)
    requires KeyOk(entries, key, rate, now) && now <= at && rate.capacity >= 0 && rate.perMinute > 0.0
    ensures TakeOn(entries, key, 1, rate, at).1.granted == if Level(entries, key, at, rate) >= 1.0 then 1 else 0
  {
    KeyOkLater(entries, key, rate, now, at);
    SweepUnseen(entries, key, rate, at, at);
    LevelBounds(entries, key, rate, at);
  }

  /** When a take gets fewer tokens than it asked for, after any history, and nothing else is taken: at
      every earlier millisecond a take of one token gets none, and at `waitMs` it gets one, exactly when
      the bucket can hold one at all. */
  lemma {:induction false} WaitIsExact(history: seq<Take>, key: string, count: nat, rate: TokenRate, began: int, at: int, d: nat)
    requires Within(began, history, at, key, rate) && rate.capacity >= 0 && rate.perMinute > 0.0
    ensures var (after, g) := TakeOn(After(map[], history), key, count, rate, at);
            g.granted < count ==>
              && g.waitMs >= 1
              && (d < g.waitMs ==> TakeOn(after, key, 1, rate, at + d).1.granted == 0)
              && (TakeOn(after, key, 1, rate, at + g.waitMs).1.granted == 1 <==> rate.capacity >= 1)
  {
    hide TakeOn, Level, After, GrantedAlong;
    NoBuckets(key, rate, began);
    RunSpends(map[], history, key, rate, began, at);
    if TakeOn(After(map[], history), key, count, rate, at).1.granted < count {
      WaitInState(After(map[], history), key, count, rate, at, d);
    }
  }
}
