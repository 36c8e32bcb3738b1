/** One-time entries in Redis (src/utils/redis-store.ts:143-175, 448-503), and when they answer as the
    in-memory ones. Keys are taken unhashed and values unencrypted: both are one to one. */
module RedisOneTime {
  import opened Wrappers
  import opened OneTimeStore
  import opened OneTimeRuns

  /** A stored entry has the fields `g` and `v`, a claim only its marker. */
  datatype Hash = Value(g: string, v: string, expireAt: int) | Marker(expireAt: int)

  type Db = map<string, Hash>

  function Lookup(db: Db, key: string, now: int): Option<Hash> {
    if key in db && now < db[key].expireAt then Some(db[key]) else None
  }

  /** PEXPIRE with no time left deletes the key. */
  function PutScript(db: Db, key: string, guard: string, value: string, ttlMs: int, now: int): Db {
    if ttlMs <= 0 then db - {key} else db[key := Value(guard, value, now + ttlMs)]
  }

  function TakeScript(db: Db, key: string, guard: string, now: int): (Db, Taken) {
    match Lookup(db, key, now)
    case Some(Value(g, v, _)) => if g != guard then (db, Mismatch(g)) else (db - {key}, Taken(v))
    case _ => (db, Missing)
  }

  /** The lifetime is sent as at least 1 ms. */
  function ClaimScript(db: Db, key: string, ttlMs: int, now: int): (Db, Claimed) {
    if Lookup(db, key, now).Some? then (db, Held)
    else (db[key := Marker(now + if ttlMs < 1 then 1 else ttlMs)], Granted)
  }

  class RedisOneTimeStore {
    var db: Db

    constructor ()
      ensures db == map[]
    {
      db := map[];
    }

    method Put(key: string, guard: string, value: string, ttlMs: int, now: int)
      modifies this
      ensures db == PutScript(old(db), key, guard, value, ttlMs, now)
    {
      db := db - {key};
      if ttlMs > 0 {
        db := db[key := Value(guard, value, now + ttlMs)];
        assert db == old(db)[key := Value(guard, value, now + ttlMs)];
      }
    }

    method Take(key: string, guard: string, now: int) returns (r: Taken)
      modifies this
      ensures (db, r) == TakeScript(old(db), key, guard, now)
    {
      var h := Lookup(db, key, now);
      if h.None? || h.value.Marker? {
        return Missing;
      }
      if h.value.g != guard {
        return Mismatch(h.value.g);
      }
      db := db - {key};
      return Taken(h.value.v);
    }

    method Claim(key: string, ttlMs: int, now: int) returns (r: Claimed)
      modifies this
      ensures (db, r) == ClaimScript(old(db), key, ttlMs, now)
    {
      if Lookup(db, key, now).Some? {
        return Held;
      }
      db := db[key := Marker(now + if ttlMs < 1 then 1 else ttlMs)];
      return Granted;
    }
  }

  // ---------- Against the in-memory store ----------

  function RedisStep(db: Db, e: Event): (Db, Result) {
    match e.op
    case Put(key, guard, value, ttlMs) => (PutScript(db, key, guard, value, ttlMs, e.at), Stored)
    case Take(key, guard) =>
      var (after, r) := TakeScript(db, key, guard, e.at);
      (after, Took(r))
    case Claim(key, ttlMs) =>
      var (after, r) := ClaimScript(db, key, ttlMs, e.at);
      (after, Answered(r))
  }

  function MemoryResults(entries: Entries, maxEntries: int, run: seq<Event>): seq<Result>
    decreases |run|
  {
    if run == [] then [] else
      var (after, r) := Step(entries, maxEntries, run[0]);
      [r] + MemoryResults(after, maxEntries, run[1..])
  }

  function RedisResults(db: Db, run: seq<Event>): seq<Result>
    decreases |run|
  {
    if run == [] then [] else
      var (after, r) := RedisStep(db, run[0]);
      [r] + RedisResults(after, run[1..])
  }

  ghost predicate Timed(start: int, run: seq<Event>)
    decreases |run|
  {
    run == [] || (start <= run[0].at && Timed(run[0].at, run[1..]))
  }

  /** The same live entry in both; a claim's marker is memory's empty entry. */
  ghost predicate Tied(entries: Entries, db: Db, key: string, now: int) {
    match Lookup(db, key, now)
    case None => LiveEntry(entries, key, now).None?
    case Some(Value(g, v, expireAt)) => LiveEntry(entries, key, now) == Some(Entry(g, v, expireAt))
    case Some(Marker(expireAt)) => LiveEntry(entries, key, now) == Some(Entry("", "", expireAt))
  }

  ghost predicate AllTied(entries: Entries, db: Db, now: int) {
    forall key :: Tied(entries, db, key, now)
  }

  predicate IsClaimed(db: Db, key: string, now: int) {
    Lookup(db, key, now).Some? && Lookup(db, key, now).value.Marker?
  }

  /** What the two stores show before an event: in memory, a put evicts nobody else's live entry, and a claim
      finds its key held or finds room and asks for a lifetime; in Redis, a take meets no claim's marker. */
  predicate Fits(entries: Entries, maxEntries: int, db: Db, e: Event) {
    var live := Unexpired(entries, e.at);
    match e.op
    case Put(key, _, _, _) => |live| < maxEntries || live == [] || live[0].key == key
    case Claim(key, ttlMs) => LiveEntry(entries, key, e.at).Some? || (|live| < maxEntries && ttlMs >= 1)
    case Take(key, _) => !IsClaimed(db, key, e.at)
  }

  /** Same answer, same live entries afterwards. */
  ghost predicate Agrees(entries: Entries, maxEntries: int, db: Db, e: Event) {
    && Step(entries, maxEntries, e).1 == RedisStep(db, e).1
    && AllTied(Step(entries, maxEntries, e).0, RedisStep(db, e).0, e.at)
  }

  // ---------- One step: exactly when both agree ----------

  lemma PutTies(entries: Entries, maxEntries: int, db: Db, e: Event, key: string)
    requires e.op.Put? && Distinct(entries) && Tied(entries, db, key, e.at) && Fits(entries, maxEntries, db, e)
    ensures Tied(Step(entries, maxEntries, e).0, RedisStep(db, e).0, key, e.at)
  {
    hide Distinct, StoreOn, Without, Find;
    FindUnexpired(entries, e.at, key);
    NothingFirst(key);
    hide Unexpired;
    FindStored(entries, maxEntries, e.op.key, Entry(e.op.guard, e.op.value, e.at + e.op.ttlMs), e.at, key);
  }

  /** The first live entry is there before a put at the cap, and gone after. */
  lemma FirstIsLive(entries: Entries, at: int)
    requires Distinct(entries) && Unexpired(entries, at) != []
    ensures LiveEntry(entries, Unexpired(entries, at)[0].key, at).Some?
  {
    FindUnexpired(entries, at, Unexpired(entries, at)[0].key);
    hide Distinct, LiveEntry;
  }

  lemma PutEvicts(entries: Entries, maxEntries: int, db: Db, e: Event)
    requires e.op.Put? && Distinct(entries) && AllTied(entries, db, e.at) && !Fits(entries, maxEntries, db, e)
    ensures var gone := Unexpired(entries, e.at)[0].key;
            && Lookup(RedisStep(db, e).0, gone, e.at).Some?
            && LiveEntry(Step(entries, maxEntries, e).0, gone, e.at).None?
  {
    hide Distinct, StoreOn, Without, Find;
    var gone := Unexpired(entries, e.at)[0].key;
    FirstIsLive(entries, e.at);
    assert Tied(entries, db, gone, e.at);
    hide Unexpired;
    FindStored(entries, maxEntries, e.op.key, Entry(e.op.guard, e.op.value, e.at + e.op.ttlMs), e.at, gone);
  }

  lemma TakeTies(entries: Entries, maxEntries: int, db: Db, e: Event, key: string)
    requires e.op.Take? && Distinct(entries) && Fits(entries, maxEntries, db, e)
    requires Tied(entries, db, key, e.at) && Tied(entries, db, e.op.key, e.at)
    ensures Step(entries, maxEntries, e).1 == RedisStep(db, e).1
    ensures Tied(Step(entries, maxEntries, e).0, RedisStep(db, e).0, key, e.at)
  {
    hide Distinct, Without, Find, Unexpired;
    FindWithout(entries, e.op.key, key);
  }

  lemma ClaimTies(entries: Entries, maxEntries: int, db: Db, e: Event, key: string)
    requires e.op.Claim? && Distinct(entries) && Fits(entries, maxEntries, db, e)
    requires Tied(entries, db, key, e.at) && Tied(entries, db, e.op.key, e.at)
    ensures Step(entries, maxEntries, e).1 == RedisStep(db, e).1
    ensures Tied(Step(entries, maxEntries, e).0, RedisStep(db, e).0, key, e.at)
  {
    hide ClaimOn;
    ClaimExactly(entries, maxEntries, e.op.key, e.op.ttlMs, e.at);
    if LiveEntry(entries, e.op.key, e.at).Some? {
      HeldKeeps(entries, maxEntries, e.op.key, e.op.ttlMs, e.at);
    }
    hide Distinct, Find, Unexpired;
  }

  lemma HeldKeeps(entries: Entries, maxEntries: int, key: string, ttlMs: int, at: int)
    requires LiveEntry(entries, key, at).Some?
    ensures ClaimOn(entries, maxEntries, key, ttlMs, at) == (entries, Held)
  {
  }

  lemma StepTies(entries: Entries, maxEntries: int, db: Db, e: Event)
    requires Distinct(entries) && AllTied(entries, db, e.at) && Fits(entries, maxEntries, db, e)
    ensures Agrees(entries, maxEntries, db, e)
  {
    hide Distinct, Tied, Step, RedisStep, Fits;
    forall key
      ensures Tied(Step(entries, maxEntries, e).0, RedisStep(db, e).0, key, e.at)
    {
      KeyTies(entries, maxEntries, db, e, key);
    }
    KeyTies(entries, maxEntries, db, e, e.op.key);
  }

  lemma KeyTies(entries: Entries, maxEntries: int, db: Db, e: Event, key: string)
    requires Distinct(entries) && AllTied(entries, db, e.at) && Fits(entries, maxEntries, db, e)
    ensures Step(entries, maxEntries, e).1 == RedisStep(db, e).1
    ensures Tied(Step(entries, maxEntries, e).0, RedisStep(db, e).0, key, e.at)
  {
    hide Distinct, Tied, Fits;
    assert Tied(entries, db, e.op.key, e.at) && Tied(entries, db, key, e.at);
    match e.op {
      case Put(_, _, _, _) => PutTies(entries, maxEntries, db, e, key);
      case Take(_, _) => TakeTies(entries, maxEntries, db, e, key);
      case Claim(_, _) => ClaimTies(entries, maxEntries, db, e, key);
    }
  }

  /** What does not fit shows: the answer differs, or the next claim of some key does. */
  lemma UnfitShows(entries: Entries, maxEntries: int, db: Db, e: Event)
    requires Distinct(entries) && AllTied(entries, db, e.at) && !Fits(entries, maxEntries, db, e)
    ensures || Step(entries, maxEntries, e).1 != RedisStep(db, e).1
            || exists key: string ::
                 var probe := Event(e.at, Op.Claim(key, 1));
                 Step(Step(entries, maxEntries, e).0, maxEntries, probe).1 != RedisStep(RedisStep(db, e).0, probe).1
  {
    hide Distinct;
    match e.op {
      case Put(_, _, _, _) =>
        PutEvicts(entries, maxEntries, db, e);
        ProbeDiffers(Step(entries, maxEntries, e).0, maxEntries, RedisStep(db, e).0, Unexpired(entries, e.at)[0].key, e.at);
      case Take(key, _) => assert Tied(entries, db, key, e.at);
      case Claim(key, ttlMs) =>
        assert Tied(entries, db, key, e.at);
        ClaimExactly(entries, maxEntries, key, ttlMs, e.at);
        hide StoreOn, Unexpired;
        if Step(entries, maxEntries, e).1 == Answered(Granted) {
          ProbeDiffers(Step(entries, maxEntries, e).0, maxEntries, RedisStep(db, e).0, key, e.at);
        }
    }
  }

  /** A key live in Redis only: a claim finds it held there, and free in memory. */
  lemma ProbeDiffers(entries: Entries, maxEntries: int, db: Db, key: string, at: int)
    requires Lookup(db, key, at).Some? && LiveEntry(entries, key, at).None?
    ensures Step(entries, maxEntries, Event(at, Op.Claim(key, 1))).1 != RedisStep(db, Event(at, Op.Claim(key, 1))).1
  {
    hide StoreOn, Unexpired;
  }

  /** From the same live entries, one event is answered alike and leaves the same live entries exactly when
      it fits. */
  lemma StepAgreesIff(entries: Entries, maxEntries: int, db: Db, e: Event)
    requires Distinct(entries) && AllTied(entries, db, e.at)
    ensures Agrees(entries, maxEntries, db, e) <==> Fits(entries, maxEntries, db, e)
  {
    hide Distinct, Fits;
    if Fits(entries, maxEntries, db, e) {
      StepTies(entries, maxEntries, db, e);
    } else {
      UnfitBreaks(entries, maxEntries, db, e);
    }
  }

  lemma UnfitBreaks(entries: Entries, maxEntries: int, db: Db, e: Event)
    requires Distinct(entries) && AllTied(entries, db, e.at) && !Fits(entries, maxEntries, db, e)
    ensures !Agrees(entries, maxEntries, db, e)
  {
    hide Distinct;
    match e.op {
      case Put(_, _, _, _) =>
        PutEvicts(entries, maxEntries, db, e);
        hide StoreOn, Unexpired, PutScript;
        assert !Tied(Step(entries, maxEntries, e).0, RedisStep(db, e).0, Unexpired(entries, e.at)[0].key, e.at);
      case Take(key, _) => assert Tied(entries, db, key, e.at);
      case Claim(key, ttlMs) =>
        assert Tied(entries, db, key, e.at);
        ClaimExactly(entries, maxEntries, key, ttlMs, e.at);
        hide StoreOn, Unexpired, Find;
        assert Step(entries, maxEntries, e).1 == Answered(Granted) ==>
                 !Tied(Step(entries, maxEntries, e).0, RedisStep(db, e).0, key, e.at);
    }
  }

  // ---------- Whole runs ----------

  /** Every event of a run fits when it comes. */
  predicate FitsAlong(entries: Entries, maxEntries: int, db: Db, run: seq<Event>)
    decreases |run|
  {
    run == [] || (Fits(entries, maxEntries, db, run[0])
                  && FitsAlong(Step(entries, maxEntries, run[0]).0, maxEntries, RedisStep(db, run[0]).0, run[1..]))
  }

  /** Both stores answer every event alike and hold the same live entries after each. */
  ghost predicate InStep(entries: Entries, maxEntries: int, db: Db, run: seq<Event>)
    decreases |run|
  {
    run == [] || (Agrees(entries, maxEntries, db, run[0])
                  && InStep(Step(entries, maxEntries, run[0]).0, maxEntries, RedisStep(db, run[0]).0, run[1..]))
  }

  lemma AllTiedLater(entries: Entries, db: Db, now: int, at: int)
    requires AllTied(entries, db, now) && now <= at
    ensures AllTied(entries, db, at)
  {
    forall key
      ensures Tied(entries, db, key, at)
    {
      assert Tied(entries, db, key, now);
    }
  }

  lemma StepStaysDistinct(entries: Entries, maxEntries: int, e: Event)
    requires Distinct(entries)
    ensures Distinct(Step(entries, maxEntries, e).0)
  {
    hide Distinct, StoreOn, Without, Find;
    match e.op {
      case Put(k, guard, value, ttlMs) => FindStored(entries, maxEntries, k, Entry(guard, value, e.at + ttlMs), e.at, k);
      case Take(k, _) => FindWithout(entries, k, k);
      case Claim(k, ttlMs) =>
        var live := Unexpired(entries, e.at);
        FindUnexpired(entries, e.at, k);
        FindStored(entries, maxEntries, k, Entry("", "", e.at + ttlMs), e.at, k);
        FindStored(live, maxEntries, k, Entry("", "", e.at + ttlMs), e.at, k);
    }
  }

  lemma {:induction false} InStepIff(entries: Entries, maxEntries: int, db: Db, run: seq<Event>, now: int)
    requires Distinct(entries) && AllTied(entries, db, now) && Timed(now, run)
    ensures InStep(entries, maxEntries, db, run) <==> FitsAlong(entries, maxEntries, db, run)
    ensures FitsAlong(entries, maxEntries, db, run) ==> MemoryResults(entries, maxEntries, run) == RedisResults(db, run)
    decreases |run|
  {
    hide Step, RedisStep, AllTied, Distinct, Fits;
    if run != [] {
      var e := run[0];
      AllTiedLater(entries, db, now, e.at);
      StepAgreesIff(entries, maxEntries, db, e);
      StepStaysDistinct(entries, maxEntries, e);
      if Fits(entries, maxEntries, db, e) {
        InStepIff(Step(entries, maxEntries, e).0, maxEntries, RedisStep(db, e).0, run[1..], e.at);
      }
    }
  }

  lemma NoneTied(now: int)
    ensures Distinct([]) && AllTied([], map[], now)
  {
    forall key
      ensures Tied([], map[], key, now)
    {
    }
  }

  /** From empty stores, both stay in step along a run, alike in every answer and in what lives after each
      event, exactly when every event fits when it comes; the answers are then the same. */
  lemma StoresAgreeIff(run: seq<Event>, maxEntries: int, start: int)
    requires Timed(start, run)
    ensures InStep([], maxEntries, map[], run) <==> FitsAlong([], maxEntries, map[], run)
    ensures FitsAlong([], maxEntries, map[], run) ==> MemoryResults([], maxEntries, run) == RedisResults(map[], run)
  {
    NoneTied(start);
    InStepIff([], maxEntries, map[], run, start);
  }

  // ---------- Runs that fit ----------

  /** Claims ask for a lifetime, and no key is both claimed and taken: `claimed` holds the keys claimed. */
  predicate Orderly(run: seq<Event>, claimed: set<string>) {
    forall e :: e in run ==>
      && (e.op.Claim? ==> e.op.ttlMs >= 1 && e.op.key in claimed)
      && (e.op.Take? ==> e.op.key !in claimed)
  }

  /** Each put, and each claim of a free key, comes while fewer entries than the cap live. */
  predicate RoomAlong(entries: Entries, maxEntries: int, run: seq<Event>)
    decreases |run|
  {
    run == []
    || (&& (run[0].op.Put? || (run[0].op.Claim? && LiveEntry(entries, run[0].op.key, run[0].at).None?) ==>
              |Unexpired(entries, run[0].at)| < maxEntries)
        && RoomAlong(Step(entries, maxEntries, run[0]).0, maxEntries, run[1..]))
  }

  /** Only claimed keys hold a marker. */
  ghost predicate MarkersClaimed(db: Db, claimed: set<string>) {
    forall key :: key in db && db[key].Marker? ==> key in claimed
  }

  lemma {:induction false} OrderlyFits(entries: Entries, maxEntries: int, db: Db, claimed: set<string>, run: seq<Event>)
    requires Orderly(run, claimed) && RoomAlong(entries, maxEntries, run) && MarkersClaimed(db, claimed)
    ensures FitsAlong(entries, maxEntries, db, run)
    decreases |run|
  {
    hide Step, Unexpired, LiveEntry;
    if run != [] {
      assert run[0] in run;
      OrderlyFits(Step(entries, maxEntries, run[0]).0, maxEntries, RedisStep(db, run[0]).0, claimed, run[1..]);
    }
  }

  /** While the memory has room for each entry as it comes, claims ask for a lifetime and no claimed key is
      taken, both stores answer a run of any length alike. */
  lemma StoresAgree(run: seq<Event>, maxEntries: int, claimed: set<string>, start: int)
    requires Timed(start, run) && Orderly(run, claimed) && RoomAlong([], maxEntries, run)
    ensures MemoryResults([], maxEntries, run) == RedisResults(map[], run)
  {
    OrderlyFits([], maxEntries, map[], claimed, run);
    StoresAgreeIff(run, maxEntries, start);
  }

  // ---------- Runs that do not ----------

  /** A key claimed and then taken: memory shows the claim's empty entry, Redis nothing. */
  lemma ClaimedKeyDiffers(key: string, guard: string, ttlMs: int, at: int, maxEntries: int)
    requires ttlMs >= 1 && maxEntries >= 1
    ensures var claim, take := Event(at, Op.Claim(key, ttlMs)), Event(at, Op.Take(key, guard));
            var m := Step(Step([], maxEntries, claim).0, maxEntries, take).1;
            var r := RedisStep(RedisStep(map[], claim).0, take).1;
            && r == Took(Missing)
            && m == Took(if guard == "" then Taken("") else Mismatch(""))
  {
    NoneDistinct();
    FindStored([], maxEntries, key, Entry("", "", at + ttlMs), at, key);
    hide StoreOn;
  }

  lemma ThreeResults(entries: Entries, maxEntries: int, db: Db, a: Event, b: Event, c: Event)
    ensures var m, r := Step(entries, maxEntries, a).0, RedisStep(db, a).0;
            && MemoryResults(entries, maxEntries, [a, b, c])
               == [Step(entries, maxEntries, a).1, Step(m, maxEntries, b).1, Step(Step(m, maxEntries, b).0, maxEntries, c).1]
            && RedisResults(db, [a, b, c]) == [RedisStep(db, a).1, RedisStep(r, b).1, RedisStep(RedisStep(r, b).0, c).1]
  {
    hide Step, RedisStep;
    OneResult(entries, maxEntries, db, a, [b, c]);
    OneResult(Step(entries, maxEntries, a).0, maxEntries, RedisStep(db, a).0, b, [c]);
    OneResult(Step(Step(entries, maxEntries, a).0, maxEntries, b).0, maxEntries, RedisStep(RedisStep(db, a).0, b).0, c, []);
    assert [a] + [b, c] == [a, b, c] && [b] + [c] == [b, c] && [c] + [] == [c];
  }

  lemma OneResult(entries: Entries, maxEntries: int, db: Db, e: Event, rest: seq<Event>)
    ensures MemoryResults(entries, maxEntries, [e] + rest)
         == [Step(entries, maxEntries, e).1] + MemoryResults(Step(entries, maxEntries, e).0, maxEntries, rest)
    ensures RedisResults(db, [e] + rest) == [RedisStep(db, e).1] + RedisResults(RedisStep(db, e).0, rest)
  {
    hide Step, RedisStep;
    assert ([e] + rest)[1..] == rest;
  }

  /** At a cap of one, a second put evicts the first in memory alone. */
  lemma EvictedKeyDiffers(first: string, second: string, guard: string, value: string, ttlMs: int, at: int)
    requires first != second && ttlMs >= 1
    ensures var run := [Event(at, Put(first, guard, value, ttlMs)), Event(at, Put(second, guard, value, ttlMs)),
                        Event(at, Op.Take(first, guard))];
            && MemoryResults([], 1, run) == [Stored, Stored, Took(Missing)]
            && RedisResults(map[], run) == [Stored, Stored, Took(Taken(value))]
  {
    var run := [Event(at, Put(first, guard, value, ttlMs)), Event(at, Put(second, guard, value, ttlMs)),
                Event(at, Op.Take(first, guard))];
    var one := [Item(first, Entry(guard, value, at + ttlMs))];
    var two := [Item(second, Entry(guard, value, at + ttlMs))];
    assert one[1..] == [] && two[1..] == [];
    assert Unexpired(one, at) == one;
    assert StoreOn([], 1, first, one[0].entry, at) == one && StoreOn(one, 1, second, two[0].entry, at) == two;
    assert Find(two, first) == None;
    ThreeResults([], 1, map[], run[0], run[1], run[2]);
  }
}
