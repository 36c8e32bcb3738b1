/** The leased semaphore in Redis (src/utils/redis-slots.ts): three sorted sets per key, changed by
    Lua scripts. A `ZSet` is one Redis key: a missing key has no members and no expiry. */
module RedisSlots {
  import opened Wrappers
  import opened SharedSlots

  datatype ZSet = ZSet(scores: map<string, int>, expireAt: Option<int>)

  /** The keys `<prefix><key>:h`, `:q` and `:w`. */
  datatype KeySets = KeySets(h: ZSet, q: ZSet, w: ZSet)

  const MISSING := ZSet(map[], None)
  const NO_SETS := KeySets(MISSING, MISSING, MISSING)

  // ---------- Redis commands ----------

  /** What a command finds: a key without members, or whose expiry has come, reads as missing. */
  function Touch(z: ZSet, now: int): ZSet {
    if z.scores == map[] || (z.expireAt.Some? && z.expireAt.value <= now) then MISSING else z
  }

  function TouchAll(k: KeySets, now: int): KeySets {
    KeySets(Touch(k.h, now), Touch(k.q, now), Touch(k.w, now))
  }

  /** Redis deletes a sorted set, and its expiry with it, when its last member goes. */
  function WithScores(z: ZSet, scores: map<string, int>): ZSet {
    if scores == map[] then MISSING else ZSet(scores, z.expireAt)
  }

  function Zrem(z: ZSet, member: string): ZSet {
    WithScores(z, z.scores - {member})
  }

  /** ZREMRANGEBYSCORE -inf `at`. */
  function ZremUpTo(z: ZSet, at: int): ZSet {
    WithScores(z, LiveHolders(z.scores, at))
  }

  function Zadd(z: ZSet, score: int, member: string): ZSet {
    WithScores(z, z.scores[member := score])
  }

  /** Redis breaks ties of score by comparing the members as bytes. */
  predicate ByteLess(a: string, b: string) {
    b != "" && (a == "" || a[0] < b[0] || (a[0] == b[0] && ByteLess(a[1..], b[1..])))
  }

  predicate RanksBefore(scores: map<string, int>, x: string, y: string)
    requires x in scores && y in scores
  {
    scores[x] < scores[y] || (scores[x] == scores[y] && ByteLess(x, y))
  }

  /** ZRANK: how many members come before `member`. */
  function Zrank(z: ZSet, member: string): nat
    requires member in z.scores
  {
    |set x | x in z.scores && RanksBefore(z.scores, x, member)|
  }

  /** The score of the last member (ZRANGE -1 -1 WITHSCORES). */
  ghost predicate IsTop(scores: map<string, int>, top: int) {
    && (exists x :: x in scores && scores[x] == top)
    && (forall x :: x in scores ==> scores[x] <= top)
  }

  ghost function Top(scores: map<string, int>): (top: int)
    requires scores != map[]
    ensures IsTop(scores, top)
  {
    TopExists(scores);
    var t :| IsTop(scores, t);
    t
  }

  lemma {:induction false} TopExists(scores: map<string, int>)
    requires scores != map[]
    ensures exists t :: IsTop(scores, t)
    decreases |scores|
  {
    assert scores.Keys != {};
    var x :| x in scores;
    var rest := scores - {x};
    assert scores.Keys == rest.Keys + {x};
    if rest == map[] {
      assert rest.Keys == {};
      assert IsTop(scores, scores[x]);
    } else {
      TopExists(rest);
      var t :| IsTop(rest, t);
      var y :| y in rest && rest[y] == t;
      var top := if t < scores[x] then x else y;
      assert top in scores && IsTop(scores, scores[top]);
    }
  }

  lemma TopIsUnique(scores: map<string, int>, t: int)
    requires IsTop(scores, t)
    ensures scores != map[] && Top(scores) == t
  {
    var x :| x in scores && scores[x] == t;
  }

  /** The scripts' `expire(key, scores)`: `key` expires with the highest score of `scores`. */
  ghost function Expire(key: ZSet, scores: ZSet, now: int): ZSet {
    if scores.scores == map[] || key.scores == map[] then key
    else key.(expireAt := Some(now + Max(1, Top(scores.scores) - now)))
  }

  function Max(a: int, b: int): int {
    if a < b then b else a
  }

  // ---------- The scripts, as functions of the three sets ----------

  /** The scripts' first lines: lapsed holders and waiters dropped, the latter from both sets. */
  function Swept(k: KeySets, now: int): KeySets {
    var t := TouchAll(k, now);
    KeySets(ZremUpTo(t.h, now),
            WithScores(t.q, map x | x in t.q.scores && !(x in t.w.scores && t.w.scores[x] <= now) :: t.q.scores[x]),
            ZremUpTo(t.w, now))
  }

  predicate Grants(k: KeySets, holder: string, max: int) {
    || holder in k.h.scores
    || (var free := max - |k.h.scores|;
        free > 0 && (if holder in k.q.scores then Zrank(k.q, holder) else |k.q.scores|) < free)
  }

  /** When a waiter is put in line: strictly after everyone in it. */
  ghost function Arrival(q: ZSet, now: int): int {
    if q.scores != map[] && Top(q.scores) >= now then Top(q.scores) + 1 else now
  }

  /** The three sets before their expiry is renewed. */
  ghost function Queued(k: KeySets, holder: string, leaseMs: int, queueTtlMs: int, granted: bool, now: int): KeySets {
    if granted then
      KeySets(Zadd(k.h, now + leaseMs, holder), Zrem(k.q, holder), Zrem(k.w, holder))
    else
      KeySets(k.h,
              if holder in k.q.scores then k.q else Zadd(k.q, Arrival(k.q, now), holder),
              Zadd(k.w, now + queueTtlMs, holder))
  }

  ghost function Renewed(k: KeySets, now: int): KeySets {
    KeySets(Expire(k.h, k.h, now), Expire(k.q, k.w, now), Expire(k.w, k.w, now))
  }

  ghost function AcquireScript(k: KeySets, holder: string, max: int, leaseMs: int, queueTtlMs: int, now: int): (KeySets, bool) {
    var s := Swept(k, now);
    var granted := Grants(s, holder, max);
    (Renewed(Queued(s, holder, leaseMs, queueTtlMs, granted, now), now), granted)
  }

  ghost function RenewScript(k: KeySets, holder: string, leaseMs: int, now: int): (KeySets, bool) {
    var h := Touch(k.h, now);
    if holder !in h.scores then (k.(h := h), false)
    else if h.scores[holder] <= now then (k.(h := Zrem(h, holder)), false)
    else
      var added := Zadd(h, now + leaseMs, holder);
      (k.(h := Expire(added, added, now)), true)
  }

  function ReleaseScript(k: KeySets, holder: string, now: int): KeySets {
    var t := TouchAll(k, now);
    KeySets(Zrem(t.h, holder), Zrem(t.q, holder), Zrem(t.w, holder))
  }

  /** A duration as a script argument: whole, at least 1. */
  function Ms(value: int): int {
    Max(1, value)
  }

  type Db = map<string, KeySets>

  function SetsOf(db: Db, key: string): KeySets {
    if key in db then db[key] else NO_SETS
  }

  /** The semaphore on its Redis database: each method runs one script, atomically. */
  class RedisSlotSemaphore {
    var db: Db

    constructor ()
      ensures db == map[]
    {
      db := map[];
    }

    static method TopScore(scores: map<string, int>) returns (top: Option<int>)
      ensures top == if scores == map[] then None else Some(Top(scores))
    {
      top := None;
      var todo := scores.Keys;
      while todo != {}
        invariant todo <= scores.Keys
        invariant top == None ==> todo == scores.Keys
        invariant top.Some? ==> exists x :: x in scores && x !in todo && scores[x] == top.value
        invariant forall x :: x in scores && x !in todo ==> top.Some? && scores[x] <= top.value
        decreases todo
      {
        var x :| x in todo;
        if top == None || scores[x] > top.value {
          top := Some(scores[x]);
        }
        todo := todo - {x};
      }
      if top.Some? {
        TopIsUnique(scores, top.value);
      } else {
        assert scores.Keys == {};
      }
    }

    static method ExpireWith(key: ZSet, scores: ZSet, now: int) returns (r: ZSet)
      ensures r == Expire(key, scores, now)
    {
      var top := TopScore(scores.scores);
      r := key;
      if top.Some? && key.scores != map[] {
        r := key.(expireAt := Some(now + Max(1, top.value - now)));
      }
    }

    /** Takes every lapsed waiter out of the line, then out of the places. */
    static method DropLapsed(k: KeySets, now: int) returns (s: KeySets)
      ensures s == Swept(k, now)
    {
      var t := TouchAll(k, now);
      var q := t.q;
      var gone := set x | x in t.w.scores && t.w.scores[x] <= now;
      var todo := gone;
      while todo != {}
        invariant todo <= gone
        invariant q == WithScores(t.q, t.q.scores - (gone - todo))
        decreases todo
      {
        var x :| x in todo;
        q := Zrem(q, x);
        assert t.q.scores - (gone - todo) - {x} == t.q.scores - (gone - (todo - {x}));
        todo := todo - {x};
      }
      assert t.q.scores - gone == map x | x in t.q.scores && !(x in t.w.scores && t.w.scores[x] <= now) :: t.q.scores[x];
      s := KeySets(ZremUpTo(t.h, now), q, ZremUpTo(t.w, now));
    }

    /** Puts a refused holder in line, or keeps its place. */
    static method Enqueue(k: KeySets, holder: string, queueTtlMs: int, now: int) returns (r: KeySets)
      ensures r == Queued(k, holder, 0, queueTtlMs, false, now)
    {
      r := k;
      if holder !in k.q.scores {
        var arrival := now;
        var last := TopScore(k.q.scores);
        if last.Some? && last.value >= arrival {
          arrival := last.value + 1;
        }
        r := r.(q := Zadd(k.q, arrival, holder));
      }
      r := r.(w := Zadd(k.w, now + queueTtlMs, holder));
    }

    method Acquire(key: string, holder: string, options: SlotOptions, now: int) returns (granted: bool)
      modifies this
      ensures var r := AcquireScript(SetsOf(old(db), key), holder, Max(0, options.max), Ms(options.leaseMs), Ms(options.queueTtlMs), now);
              granted == r.1 && db == old(db)[key := r.0]
    {
      hide Zrank, LiveHolders, Touch, Top, Zadd, Zrem;
      var max, leaseMs, queueTtlMs := Max(0, options.max), Ms(options.leaseMs), Ms(options.queueTtlMs);
      var k := DropLapsed(SetsOf(db, key), now);
      granted := holder in k.h.scores;
      if !granted {
        var free := max - |k.h.scores|;
        if free > 0 {
          var ahead := |k.q.scores|;
          if holder in k.q.scores {
            ahead := Zrank(k.q, holder);
          }
          granted := ahead < free;
        }
      }
      if granted {
        k := KeySets(Zadd(k.h, now + leaseMs, holder), Zrem(k.q, holder), Zrem(k.w, holder));
      } else {
        k := Enqueue(k, holder, queueTtlMs, now);
      }
      var h := ExpireWith(k.h, k.h, now);
      var q := ExpireWith(k.q, k.w, now);
      var w := ExpireWith(k.w, k.w, now);
      db := db[key := KeySets(h, q, w)];
    }

    method Renew(key: string, holder: string, leaseMs: int, now: int) returns (held: bool)
      modifies this
      ensures var r := RenewScript(SetsOf(old(db), key), holder, Ms(leaseMs), now);
              held == r.1 && db == old(db)[key := r.0]
    {
      var k := SetsOf(db, key);
      var h := Touch(k.h, now);
      held := holder in h.scores && h.scores[holder] > now;
      if held {
        h := Zadd(h, now + Ms(leaseMs), holder);
        h := ExpireWith(h, h, now);
      } else if holder in h.scores {
        h := Zrem(h, holder);
      }
      db := db[key := k.(h := h)];
    }

    method Release(key: string, holder: string, now: int)
      modifies this
      ensures db == old(db)[key := ReleaseScript(SetsOf(old(db), key), holder, now)]
    {
      var t := TouchAll(SetsOf(db, key), now);
      db := db[key := KeySets(Zrem(t.h, holder), Zrem(t.q, holder), Zrem(t.w, holder))];
    }
  }
}
