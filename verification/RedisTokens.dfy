/** Token buckets in Redis (src/utils/redis-tokens.ts:21-90): one hash per bucket, expiring when full. */
module RedisTokens {
  import opened TokenBuckets

  /** `t` and `a` are the fields, `expireAt` the key's expiry. */
  datatype Hash = Hash(t: real, a: int, expireAt: int)

  type Db = map<string, Hash>

  /** The capacity as sent: at least 1. */
  function Sent(rate: TokenRate): TokenRate {
    rate.(capacity := if rate.capacity < 1 then 1 else rate.capacity)
  }

  /** The level HMGET leads to; a key whose expiry has come is missing. */
  function StoredLevel(db: Db, key: string, now: int, rate: TokenRate): real {
    if key in db && now < db[key].expireAt then Refilled(db[key].t, db[key].a, now, rate) else rate.capacity as real
  }

  function ExpiryOf(tokens: real, rate: TokenRate): int
    requires rate.perMinute > 0.0
  {
    var ms := MsUntil(rate.capacity as real - tokens, PerMs(rate));
    if ms < 1 then 1 else ms
  }

  function TakeScript(db: Db, key: string, count: nat, rate: TokenRate, now: int): (Db, Grant)
    requires rate.perMinute > 0.0
  {
    var before := StoredLevel(db, key, now, rate);
    var granted := GrantedOf(count, before);
    var tokens := before - granted as real;
    (db[key := Hash(tokens, now, now + ExpiryOf(tokens, rate))],
     Grant(granted, if granted < count then MsUntil(1.0 - tokens, PerMs(rate)) else 0))
  }

  /** The buckets on their Redis database: a take runs the script, atomically. */
  class RedisTokenBuckets {
    var db: Db

    constructor ()
      ensures db == map[]
    {
      db := map[];
    }

    method Take(key: string, count: nat, rate: TokenRate, now: int) returns (g: Grant)
      requires rate.perMinute > 0.0
      modifies this
      ensures (db, g) == TakeScript(old(db), key, count, Sent(rate), now)
    {
      hide MsUntil, Refilled;
      var sent := Sent(rate);
      var perMs := PerMs(sent);
      var tokens := sent.capacity as real;
      if key in db && now < db[key].expireAt {
        tokens := Refilled(db[key].t, db[key].a, now, sent);
      }
      assert tokens == StoredLevel(db, key, now, sent);
      var granted := if count <= tokens.Floor then count else tokens.Floor;
      if granted < 0 {
        granted := 0;
      }
      tokens := tokens - granted as real;
      var ms := MsUntil(sent.capacity as real - tokens, perMs);
      db := db[key := Hash(tokens, now, now + if ms < 1 then 1 else ms)];
      var wait := 0;
      if granted < count {
        wait := MsUntil(1.0 - tokens, perMs);
      }
      return Grant(granted, wait);
    }
  }
}
