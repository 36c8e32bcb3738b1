/** The counter scripts in Redis (src/utils/redis-store.ts:69-141): one hash per key, expiring with its
    window. A `Hash` is one Redis key: `c`, `m`, `w` its fields, `expireAt` its expiry. */
module RedisCounter {
  import opened Wrappers
  import opened WindowCounter

  datatype Hash = Hash(c: int, m: bool, w: nat, expireAt: Option<int>)

  type Db = map<string, Hash>

  /** What a command finds: a key whose expiry has come reads as missing. */
  function Find(db: Db, key: string, now: int): Option<Hash> {
    if key in db && !(db[key].expireAt.Some? && db[key].expireAt.value <= now) then Some(db[key]) else None
  }

  /** PTTL: -2 for a missing key, -1 for one without an expiry. */
  function Pttl(db: Db, key: string, now: int): int {
    match Find(db, key, now)
    case None => -2
    case Some(h) => if h.expireAt.Some? then h.expireAt.value - now else -1
  }

  /** PEXPIRE on a key that is there: no time left deletes it. */
  function Pexpire(db: Db, key: string, ms: int, now: int): Db
    requires key in db
  {
    if ms <= 0 then db - {key} else db[key := db[key].(expireAt := Some(now + ms))]
  }

  function HashCount(h: Option<Hash>): int {
    if h.Some? then h.value.c else 0
  }

  // ---------- TAKE ----------

  /** The first loop: whether any count would pass `max`, and the longest wait. */
  function CheckKeys(db: Db, keys: seq<string>, o: WindowOptions, now: int): (bool, int)
    decreases |keys|
  {
    if keys == [] then (false, 0) else
      var (limited, retry) := CheckKeys(db, keys[..|keys| - 1], o, now);
      var key := keys[|keys| - 1];
      if HashCount(Find(db, key, now)) + o.weight > o.max then
        var pttl := Pttl(db, key, now);
        (true, Max(retry, if pttl < 0 then o.windowMs else pttl))
      else (limited, retry)
  }

  /** HINCRBY `c`, HSETNX `w`, and PEXPIRE for a new key. */
  function Increment(db: Db, key: string, add: int, windowMs: int, uuid: nat, now: int): (Db, int) {
    match Find(db, key, now)
    case None => (Pexpire(db[key := Hash(add, false, uuid, None)], key, windowMs, now), add)
    case Some(h) =>
      var counted := db[key := h.(c := h.c + add)];
      (if h.expireAt.None? then Pexpire(counted, key, windowMs, now) else counted, h.c + add)
  }

  /** The second loop: the keys counted, the highest count, and each key's window. */
  function CountKeys(db: Db, keys: seq<string>, add: int, windowMs: int, uuid: nat, now: int): (Db, int, map<string, nat>)
    decreases |keys|
  {
    if keys == [] then (db, 0, map[]) else
      var (before, top, ids) := CountKeys(db, keys[..|keys| - 1], add, windowMs, uuid, now);
      var key := keys[|keys| - 1];
      var (after, count) := if add > 0 then Increment(before, key, add, windowMs, uuid, now)
                            else (before, HashCount(Find(before, key, now)));
      var h := Find(after, key, now);
      (after, Max(top, count), if h.Some? then ids[key := h.value.w] else ids)
  }

  function TakeScript(db: Db, keys: seq<string>, o: WindowOptions, uuid: nat, now: int): (Db, Decision) {
    var (limited, retry) := CheckKeys(db, keys, o, now);
    var (after, count, ids) := CountKeys(db, keys, if limited then o.refusedWeight else o.weight, o.windowMs, uuid, now);
    (after, Decision(limited, count, if limited then retry else 0, ids))
  }

  // ---------- The other scripts ----------

  /** PEEK, and the client's rule that a key with no time left counts as gone. */
  function PeekScript(db: Db, key: string, now: int): Option<WindowState> {
    var h := Find(db, key, now);
    if h.Some? && Pttl(db, key, now) > 0 then Some(WindowState(h.value.c, Pttl(db, key, now))) else None
  }

  function RefundScript(db: Db, key: string, id: nat, now: int): Db {
    match Find(db, key, now)
    case None => db
    case Some(h) => if h.w == id then db[key := h.(c := if h.c - 1 < 0 then 0 else h.c - 1)] else db
  }

  function MarkOnceScript(db: Db, key: string, now: int): (Db, bool) {
    match Find(db, key, now)
    case None => (db, false)
    case Some(h) => if h.m then (db, false) else (db[key := h.(m := true)], true)
  }

  /** The counter on its Redis database: each method runs one script, atomically. `uuid` stands for the
      id drawn for the window a take may start; none is drawn twice. */
  class RedisWindowCounter {
    var db: Db

    constructor ()
      ensures db == map[]
    {
      db := map[];
    }

    method Take(keys: seq<string>, o: WindowOptions, uuid: nat, now: int) returns (d: Decision)
      modifies this
      ensures (db, d) == TakeScript(old(db), keys, o, uuid, now)
    {
      var limited, retry := false, 0;
      for i := 0 to |keys|
        invariant (limited, retry) == CheckKeys(db, keys[..i], o, now) && db == old(db)
      {
        assert keys[..i + 1][..i] == keys[..i];
        if HashCount(Find(db, keys[i], now)) + o.weight > o.max {
          limited := true;
          var pttl := Pttl(db, keys[i], now);
          if pttl < 0 {
            pttl := o.windowMs;
          }
          if pttl > retry {
            retry := pttl;
          }
        }
      }
      assert keys[..|keys|] == keys;
      var add := if limited then o.refusedWeight else o.weight;
      var top, ids := 0, map[];
      for i := 0 to |keys|
        invariant (db, top, ids) == CountKeys(old(db), keys[..i], add, o.windowMs, uuid, now)
      {
        assert keys[..i + 1][..i] == keys[..i];
        var count := HashCount(Find(db, keys[i], now));
        if add > 0 {
          db, count := Increment(db, keys[i], add, o.windowMs, uuid, now).0, Increment(db, keys[i], add, o.windowMs, uuid, now).1;
        }
        if count > top {
          top := count;
        }
        var h := Find(db, keys[i], now);
        if h.Some? {
          ids := ids[keys[i] := h.value.w];
        }
      }
      d := Decision(limited, top, if limited then retry else 0, ids);
    }

    method Peek(key: string, now: int) returns (s: Option<WindowState>)
      ensures s == PeekScript(db, key, now)
    {
      var h := Find(db, key, now);
      var resetInMs := Pttl(db, key, now);
      s := if h.Some? && resetInMs > 0 then Some(WindowState(h.value.c, resetInMs)) else None;
    }

    method Refund(key: string, id: nat, now: int)
      modifies this
      ensures db == RefundScript(old(db), key, id, now)
    {
      var h := Find(db, key, now);
      if h.Some? && h.value.w == id {
        db := db[key := h.value.(c := h.value.c - 1)];
        if db[key].c < 0 {
          db := db[key := db[key].(c := 0)];
        }
      }
    }

    method MarkOnce(key: string, now: int) returns (first: bool)
      modifies this
      ensures (db, first) == MarkOnceScript(old(db), key, now)
    {
      var h := Find(db, key, now);
      first := h.Some? && !h.value.m;
      if first {
        db := db[key := h.value.(m := true)];
      }
    }

    method Delete(keys: seq<string>)
      modifies this
      ensures db == old(db) - KeySet(keys)
    {
      db := db - KeySet(keys);
    }
  }
}
