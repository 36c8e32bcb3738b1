/** The Redis buckets answer every run as the in-memory ones, on one clock, whatever is swept or expires
    (src/utils/redis-tokens.ts:21-40 against src/utils/shared-tokens.ts:69-96). */
module TokenRefinement {
  import opened Wrappers
  import opened TokenBuckets
  import opened RedisTokens
  import opened TokenRates

  /** A take, or Redis dropping a key whose time has come. */
  datatype Event = Ask(at: int, key: string, count: nat) | Expire(at: int, key: string)

  ghost predicate Positive(rates: string -> TokenRate) {
    forall key :: rates(key).perMinute > 0.0
  }

  function MemoryStep(entries: Buckets, e: Event, rates: string -> TokenRate): (Buckets, Option<Grant>)
    requires rates(e.key).perMinute > 0.0
  {
    match e
    case Ask(at, key, count) =>
      var (after, g) := TakeOn(entries, key, count, rates(key), at);
      (after, Some(g))
    case Expire(_, _) => (entries, None)
  }

  function RedisStep(db: Db, e: Event, rates: string -> TokenRate): (Db, Option<Grant>)
    requires rates(e.key).perMinute > 0.0
  {
    match e
    case Ask(at, key, count) =>
      var (after, g) := TakeScript(db, key, count, Sent(rates(key)), at);
      (after, Some(g))
    case Expire(at, key) => (if key in db && db[key].expireAt <= at then db - {key} else db, None)
  }

  ghost function MemoryGrants(entries: Buckets, run: seq<Event>, rates: string -> TokenRate): seq<Option<Grant>>
    requires Positive(rates)
    decreases |run|
  {
    if run == [] then [] else
      var (after, g) := MemoryStep(entries, run[0], rates);
      [g] + MemoryGrants(after, run[1..], rates)
  }

  ghost function RedisGrants(db: Db, run: seq<Event>, rates: string -> TokenRate): seq<Option<Grant>>
    requires Positive(rates)
    decreases |run|
  {
    if run == [] then [] else
      var (after, g) := RedisStep(db, run[0], rates);
      [g] + RedisGrants(after, run[1..], rates)
  }

  ghost predicate Timely(start: int, run: seq<Event>)
    decreases |run|
  {
    run == [] || (start <= run[0].at && Timely(run[0].at, run[1..]))
  }

  // ---------- What ties the two ----------

  ghost predicate SameLevel(entries: Buckets, db: Db, key: string, rate: TokenRate, at: int) {
    Level(entries, key, at, rate) == StoredLevel(db, key, at, rate)
  }

  /** The same level now and at any time to come. */
  ghost predicate Tied(entries: Buckets, db: Db, key: string, rate: TokenRate, now: int) {
    KeyOk(entries, key, rate, now) && forall later :: now <= later ==> SameLevel(entries, db, key, rate, later)
  }

  ghost predicate AllTied(entries: Buckets, db: Db, rates: string -> TokenRate, now: int) {
    forall key :: Tied(entries, db, key, rates(key), now)
  }

  /** The key's expiry in Redis comes once the bucket is full. */
  lemma ExpiryUnseen(tokens: real, at: int, rate: TokenRate, later: int)
    requires tokens <= rate.capacity as real && rate.perMinute > 0.0 && at + ExpiryOf(tokens, rate) <= later
    ensures Refilled(tokens, at, later, rate) == rate.capacity as real
  {
    hide MsUntil;
    RatePositive(rate);
    TimeToReach(tokens, rate.capacity as real, rate, later - at);
    hide PerMs;
  }

  lemma {:induction false} TakeTies(entries: Buckets, db: Db, key: string, count: nat, rate: TokenRate, at: int)
    requires Tied(entries, db, key, rate, at) && rate.capacity >= 1 && rate.perMinute > 0.0
    ensures var (m, g) := TakeOn(entries, key, count, rate, at);
            var (r, h) := TakeScript(db, key, count, rate, at);
            g == h && Tied(m, r, key, rate, at)
  {
    hide MsUntil, Refilled, PerMs;
    RatePositive(rate);
    SweepUnseen(entries, key, rate, at, at);
    TakeSpends(entries, key, count, rate, at);
    assert SameLevel(entries, db, key, rate, at);
    var m, r := TakeOn(entries, key, count, rate, at).0, TakeScript(db, key, count, rate, at).0;
    forall later | at <= later
      ensures SameLevel(m, r, key, rate, later)
    {
      if at + ExpiryOf(m[key].tokens, rate) <= later {
        ExpiryUnseen(m[key].tokens, at, rate, later);
      }
    }
  }

  lemma OthersStayTied(entries: Buckets, db: Db, other: string, count: nat, otherRate: TokenRate, key: string, rate: TokenRate, at: int)
    requires Tied(entries, db, key, rate, at) && other != key && otherRate.perMinute > 0.0 && rate.perMinute > 0.0
    ensures Tied(TakeOn(entries, other, count, otherRate, at).0, TakeScript(db, other, count, otherRate, at).0, key, rate, at)
  {
    hide TakeOn, MsUntil, Refilled, PerMs, GrantedOf;
    var m, r := TakeOn(entries, other, count, otherRate, at).0, TakeScript(db, other, count, otherRate, at).0;
    OthersUnseen(entries, other, count, otherRate, key, rate, at, at);
    forall later | at <= later
      ensures SameLevel(m, r, key, rate, later)
    {
      OthersUnseen(entries, other, count, otherRate, key, rate, at, later);
      assert SameLevel(entries, db, key, rate, later);
    }
  }

  lemma TiedLater(entries: Buckets, db: Db, key: string, rate: TokenRate, now: int, at: int)
    requires Tied(entries, db, key, rate, now) && now <= at && rate.perMinute > 0.0
    ensures Tied(entries, db, key, rate, at)
  {
    KeyOkLater(entries, key, rate, now, at);
  }

  lemma ExpireTies(entries: Buckets, db: Db, gone: string, key: string, rate: TokenRate, at: int)
    requires Tied(entries, db, key, rate, at)
    ensures Tied(entries, if gone in db && db[gone].expireAt <= at then db - {gone} else db, key, rate, at)
  {
    hide Level, Refilled;
    var after := if gone in db && db[gone].expireAt <= at then db - {gone} else db;
    forall later | at <= later
      ensures SameLevel(entries, after, key, rate, later)
    {
      assert SameLevel(entries, db, key, rate, later);
    }
  }

  lemma {:induction false} StepTies(entries: Buckets, db: Db, e: Event, rates: string -> TokenRate, now: int)
    requires Positive(rates) && AllTied(entries, db, rates, now) && now <= e.at && rates(e.key).capacity >= 1
    ensures MemoryStep(entries, e, rates).1 == RedisStep(db, e, rates).1
    ensures AllTied(MemoryStep(entries, e, rates).0, RedisStep(db, e, rates).0, rates, e.at)
  {
    hide TakeOn, TakeScript, Tied;
    forall key
      ensures Tied(MemoryStep(entries, e, rates).0, RedisStep(db, e, rates).0, key, rates(key), e.at)
      ensures key == e.key ==> MemoryStep(entries, e, rates).1 == RedisStep(db, e, rates).1
    {
      assert Tied(entries, db, key, rates(key), now);
      TiedLater(entries, db, key, rates(key), now, e.at);
      match e {
        case Ask(at, asked, count) =>
          if asked == key {
            TakeTies(entries, db, key, count, rates(key), at);
          } else {
            OthersStayTied(entries, db, asked, count, rates(asked), key, rates(key), at);
          }
        case Expire(at, gone) => ExpireTies(entries, db, gone, key, rates(key), at);
      }
    }
  }

  lemma {:induction false} GrantsAgree(entries: Buckets, db: Db, run: seq<Event>, rates: string -> TokenRate, now: int)
    requires Positive(rates) && AllTied(entries, db, rates, now) && Timely(now, run)
    requires forall key :: rates(key).capacity >= 1
    ensures MemoryGrants(entries, run, rates) == RedisGrants(db, run, rates)
    decreases |run|
  {
    hide MemoryStep, RedisStep, AllTied;
    if run != [] {
      StepTies(entries, db, run[0], rates, now);
      GrantsAgree(MemoryStep(entries, run[0], rates).0, RedisStep(db, run[0], rates).0, run[1..], rates, run[0].at);
    }
  }

  ghost predicate RunsAgree(rates: string -> TokenRate)
    requires Positive(rates)
  {
    forall start, run :: Timely(start, run) ==> MemoryGrants(map[], run, rates) == RedisGrants(map[], run, rates)
  }

  lemma NoTokenDiffers(rates: string -> TokenRate, key: string)
    requires Positive(rates) && rates(key).capacity < 1
    ensures MemoryGrants(map[], [Ask(0, key, 1)], rates) != RedisGrants(map[], [Ask(0, key, 1)], rates)
  {
    var run := [Ask(0, key, 1)];
    assert MemoryStep(map[], run[0], rates).1.value.granted == 0;
    assert RedisStep(map[], run[0], rates).1.value.granted == 1;
    assert MemoryGrants(map[], run, rates)[0] == MemoryStep(map[], run[0], rates).1;
    assert RedisGrants(map[], run, rates)[0] == RedisStep(map[], run[0], rates).1;
  }

  /** Both grant the same and name the same waits on every run of takes, sweeps and expiries exactly when
      every bucket can hold a token: Redis is sent a capacity of at least 1. */
  lemma AgreeIffRoomForOne(rates: string -> TokenRate)
    requires Positive(rates)
    ensures RunsAgree(rates) <==> forall key :: rates(key).capacity >= 1
  {
    hide MemoryGrants, RedisGrants;
    if forall key :: rates(key).capacity >= 1 {
      forall start, run | Timely(start, run)
        ensures MemoryGrants(map[], run, rates) == RedisGrants(map[], run, rates)
      {
        NoneTied(rates, start);
        GrantsAgree(map[], map[], run, rates, start);
      }
    } else {
      var key :| rates(key).capacity < 1;
      NoTokenDiffers(rates, key);
      assert Timely(0, [Ask(0, key, 1)]) by {
        assert [Ask(0, key, 1)][1..] == [];
      }
    }
  }

  lemma NoneTied(rates: string -> TokenRate, start: int)
    ensures AllTied(map[], map[], rates, start)
  {
    forall key
      ensures Tied(map[], map[], key, rates(key), start)
    {
    }
  }
}
