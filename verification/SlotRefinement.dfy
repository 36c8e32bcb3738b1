/** The Redis semaphore answers every run exactly as the in-memory one, on one clock
    (src/utils/redis-slots.ts against src/utils/shared-slots.ts). */
module SlotRefinement {
  import opened Wrappers
  import opened SharedSlots
  import opened RedisSlots
  import opened SlotFairness

  // ---------- Runs of both stores ----------

  datatype Part = Holders | Line | Places

  /** What happens to the two stores. `Sweep` is memory's periodic prune, `Expiry` Redis dropping a
      key whose time has come; neither is asked for by a caller. */
  datatype StoreOp =
    | Ask(key: string, holder: string, options: SlotOptions)
    | Keep(key: string, holder: string, leaseMs: int)
    | Free(key: string, holder: string)
    | Prune
    | Expiry(key: string, part: Part)

  datatype StoreEvent = StoreEvent(at: int, op: StoreOp)

  function MemoryStep(m: Entries, e: StoreEvent): (Entries, Option<bool>) {
    match e.op
    case Ask(key, holder, o) =>
      var r := AcquireOn(SlotsOf(m, key), holder, o, e.at);
      (m[key := r.0], Some(r.1))
    case Keep(key, holder, leaseMs) =>
      var r := RenewOn(SlotsOf(m, key), holder, leaseMs, e.at);
      (Tidied(m, key, r.0), Some(r.1))
    case Free(key, holder) => (Tidied(m, key, ReleaseOn(SlotsOf(m, key), holder)), None)
    case Prune => (Pruned(m, e.at), None)
    case Expiry(_, _) => (m, None)
  }

  /** Redis drops the key only once its expiry has come. */
  function ExpireKey(k: KeySets, part: Part, now: int): KeySets {
    match part
    case Holders => k.(h := Touch(k.h, now))
    case Line => k.(q := Touch(k.q, now))
    case Places => k.(w := Touch(k.w, now))
  }

  ghost function RedisStep(db: Db, e: StoreEvent): (Db, Option<bool>) {
    match e.op
    case Ask(key, holder, o) =>
      var r := AcquireScript(SetsOf(db, key), holder, Max(0, o.max), Ms(o.leaseMs), Ms(o.queueTtlMs), e.at);
      (db[key := r.0], Some(r.1))
    case Keep(key, holder, leaseMs) =>
      var r := RenewScript(SetsOf(db, key), holder, Ms(leaseMs), e.at);
      (db[key := r.0], Some(r.1))
    case Free(key, holder) => (db[key := ReleaseScript(SetsOf(db, key), holder, e.at)], None)
    case Prune => (db, None)
    case Expiry(key, part) => (db[key := ExpireKey(SetsOf(db, key), part, e.at)], None)
  }

  function MemoryAnswers(m: Entries, run: seq<StoreEvent>): seq<Option<bool>>
    decreases |run|
  {
    if run == [] then [] else
      var r := MemoryStep(m, run[0]);
      [r.1] + MemoryAnswers(r.0, run[1..])
  }

  ghost function RedisAnswers(db: Db, run: seq<StoreEvent>): seq<Option<bool>>
    decreases |run|
  {
    if run == [] then [] else
      var r := RedisStep(db, run[0]);
      [r.1] + RedisAnswers(r.0, run[1..])
  }

  ghost predicate Timely(start: int, run: seq<StoreEvent>)
    decreases |run|
  {
    run == [] || (start <= run[0].at && Timely(run[0].at, run[1..]))
  }

  // ---------- What ties the two representations ----------

  /** What the scripts keep of the three sets: they expire no earlier than their scores, line and
      places name the same waiters under one expiry, and no two waiters arrived at one score. */
  ghost predicate SetsInvariant(k: KeySets) {
    && Covered(k.h, k.h) && Covered(k.w, k.w)
    && (k.q.scores == map[] <==> k.w.scores == map[])
    && k.q.scores.Keys == k.w.scores.Keys
    && k.q.expireAt == k.w.expireAt
    && forall x, y :: x in k.q.scores && y in k.q.scores && x != y ==> k.q.scores[x] != k.q.scores[y]
  }

  ghost predicate Covered(key: ZSet, scores: ZSet) {
    if key.scores == map[] then key == MISSING
    else key.expireAt.Some? && forall x :: x in scores.scores ==> scores.scores[x] <= key.expireAt.value
  }

  /** The line read in order of arrival score. */
  ghost predicate ByArrival(q: seq<Place>, scores: map<string, int>) {
    && (forall i :: 0 <= i < |q| ==> q[i].holder in scores)
    && (forall i, j :: 0 <= i < j < |q| ==> scores[q[i].holder] < scores[q[j].holder])
  }

  /** The live places of memory's line and of Redis' `w` are the same. */
  ghost predicate SamePlaces(q: seq<Place>, places: map<string, int>) {
    && (forall p :: p in q ==> p.holder in places && places[p.holder] == p.until)
    && (forall x :: x in places ==> Place(x, places[x]) in q)
  }

  ghost predicate SameLive(d: Slots, k: KeySets) {
    && d.holders == k.h.scores
    && DistinctPlaces(d.queue)
    && SamePlaces(d.queue, k.w.scores)
    && ByArrival(d.queue, k.q.scores)
  }

  /** Both stores of one key agree at `now` on everything that has not lapsed. */
  ghost predicate Agree(s: Slots, k: KeySets, now: int) {
    && DistinctPlaces(s.queue)
    && SetsInvariant(TouchAll(k, now))
    && SameLive(Drop(s, now), Swept(k, now))
  }

  ghost predicate StoresAgree(m: Entries, db: Db, now: int) {
    forall key :: Agree(SlotsOf(m, key), SetsOf(db, key), now)
  }

  // ---------- Rank is queue position ----------

  ghost function HoldersOf(q: seq<Place>): set<string> {
    set i | 0 <= i < |q| :: q[i].holder
  }

  lemma {:induction false} HoldersCount(q: seq<Place>)
    requires DistinctPlaces(q)
    ensures |HoldersOf(q)| == |q|
  {
    if q != [] {
      var init := q[..|q| - 1];
      HoldersCount(init);
      assert HoldersOf(q) == HoldersOf(init) + {q[|q| - 1].holder} by {
        forall x | x in HoldersOf(q)
          ensures x in HoldersOf(init) + {q[|q| - 1].holder}
        {
          var i :| 0 <= i < |q| && q[i].holder == x;
          assert i < |q| - 1 ==> init[i].holder == x;
        }
        forall x | x in HoldersOf(init)
          ensures x in HoldersOf(q)
        {
          var i :| 0 <= i < |init| && init[i].holder == x;
          assert q[i].holder == x;
        }
      }
    }
  }

  /** Arrival scores strictly increase along the line, so a waiter's rank is its index. */
  lemma RankIsIndex(q: seq<Place>, line: ZSet, i: nat)
    requires DistinctPlaces(q) && ByArrival(q, line.scores) && i < |q|
    requires forall x :: x in line.scores ==> Waits(q, x)
    ensures Zrank(line, q[i].holder) == i
  {
    var ahead := set x | x in line.scores && RanksBefore(line.scores, x, q[i].holder);
    forall x
      ensures x in ahead <==> x in HoldersOf(q[..i])
    {
      if x in ahead {
        var j :| 0 <= j < |q| && q[j].holder == x;
        assert j != i by {
          if j == i { ByteLessIrreflexive(x); }
        }
        assert q[..i][j].holder == x;
      }
      if x in HoldersOf(q[..i]) {
        var j :| 0 <= j < |q[..i]| && q[..i][j].holder == x;
        assert q[j].holder == x;
      }
    }
    assert ahead == HoldersOf(q[..i]);
    HoldersCount(q[..i]);
  }

  lemma {:induction false} ByteLessIrreflexive(a: string)
    ensures !ByteLess(a, a)
    decreases |a|
  {
    if a != "" {
      ByteLessIrreflexive(a[1..]);
    }
  }

  lemma LineMembers(d: Slots, k: KeySets, x: string)
    requires SameLive(d, k) && k.q.scores.Keys == k.w.scores.Keys
    ensures x in k.q.scores <==> Waits(d.queue, x)
    ensures |k.q.scores| == |d.queue|
  {
    forall y
      ensures y in k.q.scores <==> y in HoldersOf(d.queue)
      ensures y in k.q.scores <==> Waits(d.queue, y)
    {
      if y in k.q.scores {
        var i :| 0 <= i < |d.queue| && d.queue[i] == Place(y, k.w.scores[y]);
        assert d.queue[i].holder == y;
      }
    }
    assert k.q.scores.Keys == HoldersOf(d.queue);
    HoldersCount(d.queue);
  }

  lemma SameDecision(d: Slots, k: KeySets, holder: string, max: int)
    requires SameLive(d, k) && k.q.scores.Keys == k.w.scores.Keys
    ensures Grants(k, holder, Max(0, max)) <==> (holder in d.holders || Admits(d, holder, max))
  {
    hide Zrank, ByteLess, IndexOf;
    LineMembers(d, k, holder);
    if Waits(d.queue, holder) {
      forall x | x in k.q.scores
        ensures Waits(d.queue, x)
      {
        LineMembers(d, k, x);
      }
      RankIsIndex(d.queue, k.q, IndexOf(d.queue, holder));
    }
  }

  // ---------- Time passes ----------

  lemma {:induction false} LaterLine(q: seq<Place>, places: map<string, int>, line: map<string, int>, later: int)
    requires DistinctPlaces(q) && SamePlaces(q, places) && ByArrival(q, line)
    ensures SamePlaces(LiveQueue(q, later), LiveHolders(places, later))
    ensures ByArrival(LiveQueue(q, later), line)
  {
    LiveQueueContents(q, later);
    SubLine(q, line, later);
  }

  lemma {:induction false} SubLine(q: seq<Place>, line: map<string, int>, later: int)
    requires ByArrival(q, line)
    ensures ByArrival(LiveQueue(q, later), line)
  {
    if q != [] {
      var init, last := q[..|q| - 1], q[|q| - 1];
      SubLine(init, line, later);
      LiveQueueContents(init, later);
      forall i | 0 <= i < |LiveQueue(init, later)|
        ensures line[LiveQueue(init, later)[i].holder] < line[last.holder]
      {
        assert LiveQueue(init, later)[i] in init;
      }
    }
  }

  /** An expiry drops only what has lapsed: sweeping later, expired or not, leaves the same members. */
  lemma LapsesTogether(z: ZSet, now: int, later: int)
    requires now <= later && Covered(Touch(z, now), Touch(z, now))
    ensures LiveHolders(Touch(z, later).scores, later) == LiveHolders(LiveHolders(Touch(z, now).scores, now), later)
    ensures Touch(Touch(z, now), later) == Touch(z, later)
    ensures Covered(Touch(z, later), Touch(z, later))
  {
  }

  lemma SweptMembers(k: KeySets, now: int)
    requires SetsInvariant(TouchAll(k, now))
    ensures var s := Swept(k, now);
            && s.h.scores == LiveHolders(Touch(k.h, now).scores, now)
            && s.w.scores == LiveHolders(Touch(k.w, now).scores, now)
            && s.q.scores.Keys == s.w.scores.Keys
            && (forall x :: x in s.q.scores ==> s.q.scores[x] == Touch(k.q, now).scores[x])
  {
  }

  lemma SweptLater(k: KeySets, now: int, later: int)
    requires now <= later && SetsInvariant(TouchAll(k, now))
    ensures SetsInvariant(TouchAll(k, later))
    ensures Swept(k, later).h.scores == LiveHolders(Swept(k, now).h.scores, later)
    ensures Swept(k, later).w.scores == LiveHolders(Swept(k, now).w.scores, later)
    ensures Swept(k, later).q.scores.Keys == Swept(k, later).w.scores.Keys
    ensures forall x :: x in Swept(k, later).q.scores ==>
              x in Swept(k, now).q.scores && Swept(k, later).q.scores[x] == Swept(k, now).q.scores[x]
  {
    LapsesTogether(k.h, now, later);
    LapsesTogether(k.w, now, later);
    SweptMembers(k, now);
    SweptMembers(k, later);
  }

  lemma SameArrival(q: seq<Place>, line: map<string, int>, part: map<string, int>)
    requires ByArrival(q, line)
    requires forall i :: 0 <= i < |q| ==> q[i].holder in part
    requires forall x :: x in part ==> x in line && part[x] == line[x]
    ensures ByArrival(q, part)
  {
  }

  lemma AgreeLater(s: Slots, k: KeySets, now: int, later: int)
    requires Agree(s, k, now) && now <= later
    ensures Agree(s, k, later)
  {
    hide LiveQueue, Touch;
    var d, t := Drop(s, now), Swept(k, now);
    SweptLater(k, now, later);
    LiveQueueTwice(s.queue, now, later);
    LiveQueueDistinct(s.queue, later);
    LeasesLapse(s.holders, now, later);
    LaterLine(d.queue, t.w.scores, t.q.scores, later);
    var q := LiveQueue(s.queue, later);
    assert forall i :: 0 <= i < |q| ==> q[i] in q && q[i].holder in Swept(k, later).q.scores;
    SameArrival(q, t.q.scores, Swept(k, later).q.scores);
  }

  // ---------- One step ----------

  /** The sets a script is about to renew the expiry of: nothing in them has lapsed. */
  ghost predicate SetsReady(k: KeySets, now: int) {
    && (k.h.scores == map[] ==> k.h == MISSING)
    && (k.q.scores == map[] ==> k.q == MISSING)
    && (k.w.scores == map[] ==> k.w == MISSING)
    && (forall x :: x in k.h.scores ==> k.h.scores[x] > now)
    && (forall x :: x in k.w.scores ==> k.w.scores[x] > now)
    && k.q.scores.Keys == k.w.scores.Keys
    && forall x, y :: x in k.q.scores && y in k.q.scores && x != y ==> k.q.scores[x] != k.q.scores[y]
  }

  lemma ExpireCovers(key: ZSet, scores: ZSet, now: int)
    requires key.scores == map[] ==> key == MISSING
    requires key.scores == map[] <==> scores.scores == map[]
    ensures var r := Expire(key, scores, now);
            && r.scores == key.scores && Touch(r, now) == r && Covered(r, scores)
            && (key.scores != map[] ==> r.expireAt == Some(now + Max(1, Top(scores.scores) - now)))
  {
  }

  lemma RenewedSets(k: KeySets, now: int)
    requires SetsReady(k, now)
    ensures var r := Renewed(k, now);
            && TouchAll(r, now) == r && SetsInvariant(r)
            && r.h.scores == k.h.scores && r.q.scores == k.q.scores && r.w.scores == k.w.scores
  {
    hide Touch, Expire;
    assert k.q.scores == map[] <==> k.w.scores == map[] by {
      assert k.q.scores == map[] <==> k.q.scores.Keys == {};
      assert k.w.scores == map[] <==> k.w.scores.Keys == {};
    }
    ExpireCovers(k.h, k.h, now);
    ExpireCovers(k.q, k.w, now);
    ExpireCovers(k.w, k.w, now);
  }

  /** Sweeping what has not lapsed changes no member. */
  lemma SweptLive(r: KeySets, now: int)
    requires TouchAll(r, now) == r && SetsInvariant(r)
    requires forall x :: x in r.h.scores ==> r.h.scores[x] > now
    requires forall x :: x in r.w.scores ==> r.w.scores[x] > now
    ensures var t := Swept(r, now);
            t.h.scores == r.h.scores && t.q.scores == r.q.scores && t.w.scores == r.w.scores
  {
  }

  lemma RenewedAgrees(s: Slots, k: KeySets, now: int)
    requires SetsReady(k, now) && Live(s, now) && SameLive(s, k)
    ensures Agree(s, Renewed(k, now), now)
  {
    LiveQueueOfLive(s.queue, now);
    assert LiveHolders(s.holders, now) == s.holders;
    hide LiveQueue, Touch, Expire, LiveHolders, Renewed, Swept;
    RenewedSets(k, now);
    SweptLive(Renewed(k, now), now);
  }

  lemma SweptIsReady(k: KeySets, now: int)
    requires SetsInvariant(TouchAll(k, now))
    ensures SetsReady(Swept(k, now), now)
  {
    SweptMembers(k, now);
  }

  lemma {:induction false} RemoveByArrival(q: seq<Place>, line: map<string, int>, holder: string)
    requires ByArrival(q, line)
    ensures ByArrival(Remove(q, holder), line - {holder})
  {
    if q != [] {
      var init, last := q[..|q| - 1], q[|q| - 1];
      RemoveByArrival(init, line, holder);
      RemoveContents(init, holder);
      forall i | 0 <= i < |Remove(init, holder)|
        ensures line[Remove(init, holder)[i].holder] < line[last.holder]
      {
        assert Remove(init, holder)[i] in init;
      }
    }
  }

  lemma RemovePlaces(q: seq<Place>, places: map<string, int>, holder: string)
    requires SamePlaces(q, places)
    ensures SamePlaces(Remove(q, holder), places - {holder})
  {
    RemoveContents(q, holder);
  }

  lemma AddedScores(z: ZSet, score: int, member: string)
    ensures Zadd(z, score, member) == ZSet(z.scores[member := score], z.expireAt)
    ensures z.scores[member := score] != map[]
  {
    assert member in z.scores[member := score];
  }

  lemma RemovedScores(z: ZSet, member: string)
    ensures Zrem(z, member).scores == z.scores - {member}
    ensures Zrem(z, member).scores == map[] ==> Zrem(z, member) == MISSING
  {
  }

  lemma GrantedReady(k: KeySets, holder: string, leaseMs: int, queueTtlMs: int, now: int)
    requires SetsReady(k, now) && leaseMs >= 1
    ensures var r := Queued(k, holder, leaseMs, queueTtlMs, true, now);
            && SetsReady(r, now) && r.h.scores == k.h.scores[holder := now + leaseMs]
            && r.q.scores == k.q.scores - {holder} && r.w.scores == k.w.scores - {holder}
  {
    AddedScores(k.h, now + leaseMs, holder);
    RemovedScores(k.q, holder);
    RemovedScores(k.w, holder);
    hide Zadd, Zrem;
  }

  /** The asker got a slot: out of the line in both stores. */
  lemma {:induction false} GrantedAgrees(d: Slots, k: KeySets, holder: string, leaseMs: int, queueTtlMs: int, now: int)
    requires SetsReady(k, now) && Live(d, now) && SameLive(d, k) && leaseMs >= 1
    ensures Agree(Slots(d.holders[holder := now + leaseMs], Remove(d.queue, holder)),
                  Renewed(Queued(k, holder, leaseMs, queueTtlMs, true, now), now), now)
  {
    hide Remove, Renewed, Queued, Agree, SetsReady, SamePlaces, ByArrival;
    RemoveContents(d.queue, holder);
    RemoveDistinct(d.queue, holder);
    RemovePlaces(d.queue, k.w.scores, holder);
    RemoveByArrival(d.queue, k.q.scores, holder);
    GrantedReady(k, holder, leaseMs, queueTtlMs, now);
    RenewedAgrees(Slots(d.holders[holder := now + leaseMs], Remove(d.queue, holder)),
                  Queued(k, holder, leaseMs, queueTtlMs, true, now), now);
  }

  lemma RefusedReady(k: KeySets, holder: string, leaseMs: int, queueTtlMs: int, now: int)
    requires SetsReady(k, now) && queueTtlMs >= 1
    ensures var r := Queued(k, holder, leaseMs, queueTtlMs, false, now);
            && SetsReady(r, now) && r.h == k.h && r.w.scores == k.w.scores[holder := now + queueTtlMs]
            && r.q.scores == (if holder in k.q.scores then k.q.scores else k.q.scores[holder := Arrival(k.q, now)])
  {
    AddedScores(k.q, Arrival(k.q, now), holder);
    AddedScores(k.w, now + queueTtlMs, holder);
    ArrivesLast(k.q, now);
    hide Zadd, Arrival;
  }

  lemma ArrivesLast(q: ZSet, now: int)
    ensures forall x :: x in q.scores ==> q.scores[x] < Arrival(q, now)
  {
  }

  /** A newcomer's arrival score is past everyone's, and a waiter keeps its own. */
  lemma PutArrival(q: seq<Place>, line: map<string, int>, holder: string, until: int, arrival: int)
    requires DistinctPlaces(q) && ByArrival(q, line) && (holder in line <==> Waits(q, holder))
    requires forall x :: x in line ==> line[x] < arrival
    ensures ByArrival(Put(q, holder, until), if holder in line then line else line[holder := arrival])
  {
    hide IndexOf;
  }

  lemma PutPlaces(q: seq<Place>, places: map<string, int>, holder: string, until: int)
    requires DistinctPlaces(q) && SamePlaces(q, places)
    ensures SamePlaces(Put(q, holder, until), places[holder := until])
  {
    var i := IndexOf(q, holder);
    var p := Put(q, holder, until);
    PutContents(q, holder, until);
    hide IndexOf;
    assert p[if i >= 0 then i else |q|] == Place(holder, until);
    forall x | x in places && x != holder
      ensures Place(x, places[x]) in p
    {
      var j :| 0 <= j < |q| && q[j] == Place(x, places[x]);
      assert p[j] == q[j];
    }
  }

  lemma {:induction false} RefusedSame(d: Slots, k: KeySets, r: KeySets, holder: string, until: int, arrival: int)
    requires SameLive(d, k) && k.q.scores.Keys == k.w.scores.Keys
    requires forall x :: x in k.q.scores ==> k.q.scores[x] < arrival
    requires r.h == k.h && r.w.scores == k.w.scores[holder := until]
    requires r.q.scores == if holder in k.q.scores then k.q.scores else k.q.scores[holder := arrival]
    ensures SameLive(Slots(d.holders, Put(d.queue, holder, until)), r)
  {
    hide Put, IndexOf, ByArrival, SamePlaces;
    LineMembers(d, k, holder);
    PutKeeps(d.queue, holder, until, holder);
    PutPlaces(d.queue, k.w.scores, holder, until);
    PutArrival(d.queue, k.q.scores, holder, until, arrival);
  }

  lemma PutLive(d: Slots, holder: string, until: int, now: int)
    requires Live(d, now) && DistinctPlaces(d.queue) && until > now
    ensures Live(Slots(d.holders, Put(d.queue, holder, until)), now)
  {
    hide Put;
    PutContents(d.queue, holder, until);
  }

  lemma Unfold(d: Slots, k: KeySets, now: int)
    requires SetsReady(k, now) && SameLive(d, k)
    ensures k.q.scores.Keys == k.w.scores.Keys && DistinctPlaces(d.queue)
  {
  }

  /** The asker waits: at the end of the line, or in the place it had, in both stores. */
  lemma {:induction false} RefusedAgrees(d: Slots, k: KeySets, holder: string, leaseMs: int, queueTtlMs: int, now: int)
    requires SetsReady(k, now) && Live(d, now) && SameLive(d, k) && queueTtlMs >= 1
    ensures Agree(Slots(d.holders, Put(d.queue, holder, now + queueTtlMs)),
                  Renewed(Queued(k, holder, leaseMs, queueTtlMs, false, now), now), now)
  {
    hide *;
    Unfold(d, k, now);
    PutLive(d, holder, now + queueTtlMs, now);
    ArrivesLast(k.q, now);
    RefusedReady(k, holder, leaseMs, queueTtlMs, now);
    RefusedSame(d, k, Queued(k, holder, leaseMs, queueTtlMs, false, now), holder, now + queueTtlMs, Arrival(k.q, now));
    RenewedAgrees(Slots(d.holders, Put(d.queue, holder, now + queueTtlMs)),
                  Queued(k, holder, leaseMs, queueTtlMs, false, now), now);
  }

  lemma ReadyWhenAgreed(s: Slots, k: KeySets, now: int)
    requires Agree(s, k, now)
    ensures Live(Drop(s, now), now) && SetsReady(Swept(k, now), now) && SameLive(Drop(s, now), Swept(k, now))
    ensures Swept(k, now).q.scores.Keys == Swept(k, now).w.scores.Keys
  {
    hide Swept;
    SweptIsReady(k, now);
    LiveQueueContents(s.queue, now);
  }

  /** Once both are swept, the two stores decide alike and agree afterwards. */
  lemma {:induction false} AskLive(d: Slots, t: KeySets, holder: string, o: SlotOptions, now: int)
    requires Live(d, now) && SetsReady(t, now) && SameLive(d, t) && t.q.scores.Keys == t.w.scores.Keys
    requires o.leaseMs >= 1 && o.queueTtlMs >= 1
    ensures var granted := Grants(t, holder, Max(0, o.max));
            var m := AcquireLive(d, holder, o, now);
            m.1 == granted && Agree(m.0, Renewed(Queued(t, holder, o.leaseMs, o.queueTtlMs, granted, now), now), now)
  {
    hide Grants, Admits, Put, Remove, Renewed, Queued, Agree, SameLive, SetsReady, Live;
    SameDecision(d, t, holder, o.max);
    if Grants(t, holder, Max(0, o.max)) {
      GrantedAgrees(d, t, holder, o.leaseMs, o.queueTtlMs, now);
    } else {
      RefusedAgrees(d, t, holder, o.leaseMs, o.queueTtlMs, now);
    }
  }

  lemma {:induction false} AskAgrees(s: Slots, k: KeySets, holder: string, o: SlotOptions, now: int)
    requires Agree(s, k, now) && o.leaseMs >= 1 && o.queueTtlMs >= 1
    ensures var m := AcquireOn(s, holder, o, now);
            var r := AcquireScript(k, holder, Max(0, o.max), Ms(o.leaseMs), Ms(o.queueTtlMs), now);
            m.1 == r.1 && Agree(m.0, r.0, now)
  {
    hide AcquireLive, Drop, Swept, Grants, Renewed, Queued, SameLive, SetsReady, Live, Agree, SetsInvariant;
    ReadyWhenAgreed(s, k, now);
    AskLive(Drop(s, now), Swept(k, now), holder, o, now);
  }

  lemma HoldersSwept(k: KeySets, r: KeySets, now: int)
    requires SetsInvariant(TouchAll(k, now))
    requires r.q == k.q && r.w == k.w && Covered(r.h, r.h) && Touch(r.h, now) == r.h
    ensures SetsInvariant(TouchAll(r, now))
    ensures Swept(r, now).q == Swept(k, now).q && Swept(r, now).w == Swept(k, now).w
    ensures Swept(r, now).h.scores == LiveHolders(r.h.scores, now)
  {
  }

  lemma KeptLease(h: ZSet, holder: string, leaseMs: int, now: int)
    requires Covered(h, h) && Touch(h, now) == h && leaseMs >= 1
    ensures var added := Zadd(h, now + leaseMs, holder);
            var r := Expire(added, added, now);
            && Covered(r, r) && Touch(r, now) == r
            && LiveHolders(r.scores, now) == LiveHolders(h.scores, now)[holder := now + leaseMs]
  {
    AddedScores(h, now + leaseMs, holder);
    ExpireCovers(Zadd(h, now + leaseMs, holder), Zadd(h, now + leaseMs, holder), now);
    hide Expire, Zadd, Touch;
  }

  lemma LostLease(h: ZSet, holder: string, now: int)
    requires Covered(h, h) && Touch(h, now) == h && (holder in h.scores ==> h.scores[holder] <= now)
    ensures var r := Zrem(h, holder);
            Covered(r, r) && Touch(r, now) == r && LiveHolders(r.scores, now) == LiveHolders(h.scores, now)
  {
  }

  lemma KeepHolders(k: KeySets, holder: string, leaseMs: int, now: int)
    requires SetsInvariant(TouchAll(k, now)) && leaseMs >= 1
    ensures var r := RenewScript(k, holder, leaseMs, now);
            var live := Swept(k, now).h.scores;
            && r.1 == (holder in live)
            && r.0.q == k.q && r.0.w == k.w && Covered(r.0.h, r.0.h) && Touch(r.0.h, now) == r.0.h
            && LiveHolders(r.0.h.scores, now) == if holder in live then live[holder := now + leaseMs] else live
  {
    var h := Touch(k.h, now);
    assert Touch(h, now) == h;
    SweptMembers(k, now);
    assert holder in LiveHolders(h.scores, now) <==> holder in h.scores && h.scores[holder] > now;
    hide Touch, Expire, Zadd, Zrem, LiveHolders, Swept, Covered;
    if holder in h.scores && h.scores[holder] > now {
      KeptLease(h, holder, leaseMs, now);
    } else {
      LostLease(h, holder, now);
    }
  }

  lemma KeepAgrees(s: Slots, k: KeySets, holder: string, leaseMs: int, now: int)
    requires Agree(s, k, now) && leaseMs >= 1
    ensures var m := RenewOn(s, holder, leaseMs, now);
            var r := RenewScript(k, holder, Ms(leaseMs), now);
            m.1 == r.1 && Agree(m.0, r.0, now)
  {
    hide LiveQueue, RenewScript, Swept, SetsInvariant, Touch, Covered;
    KeepHolders(k, holder, leaseMs, now);
    HoldersSwept(k, RenewScript(k, holder, leaseMs, now).0, now);
    LiveQueueTwice(s.queue, now, now);
    LiveQueueDistinct(s.queue, now);
    LeasesLapse(s.holders, now, now);
  }

  /** A member taken out of a touched set: what is swept of it loses that member. */
  lemma FreedSet(z: ZSet, holder: string, now: int)
    requires Covered(Touch(z, now), Touch(z, now))
    ensures var r := Zrem(Touch(z, now), holder);
            && Touch(r, now) == r && Covered(r, r) && r.scores == Touch(z, now).scores - {holder}
            && LiveHolders(r.scores, now) == LiveHolders(Touch(z, now).scores, now) - {holder}
            && (r.scores != map[] ==> r.expireAt == Touch(z, now).expireAt)
  {
  }

  lemma FreedLine(k: KeySets, holder: string, now: int)
    requires SetsInvariant(TouchAll(k, now))
    ensures var r := ReleaseScript(k, holder, now);
            && Touch(r.q, now) == r.q && r.q.scores == Touch(k.q, now).scores - {holder}
            && (r.q.scores == map[] <==> r.w.scores == map[]) && r.q.expireAt == r.w.expireAt
  {
    var t, r := TouchAll(k, now), ReleaseScript(k, holder, now);
    assert r.q.scores.Keys == r.w.scores.Keys;
    assert r.q.scores == map[] <==> r.w.scores == map[] by {
      assert r.q.scores == map[] <==> r.q.scores.Keys == {};
      assert r.w.scores == map[] <==> r.w.scores.Keys == {};
    }
  }

  lemma {:induction false} FreedSets(k: KeySets, holder: string, now: int)
    requires SetsInvariant(TouchAll(k, now))
    ensures var r := ReleaseScript(k, holder, now);
            && SetsInvariant(TouchAll(r, now))
            && Swept(r, now).h.scores == Swept(k, now).h.scores - {holder}
            && Swept(r, now).q.scores == Swept(k, now).q.scores - {holder}
            && Swept(r, now).w.scores == Swept(k, now).w.scores - {holder}
  {
    hide Touch, Zrem;
    FreedSet(k.h, holder, now);
    FreedSet(k.w, holder, now);
    FreedLine(k, holder, now);
    SweptMembers(k, now);
    SweptMembers(ReleaseScript(k, holder, now), now);
  }

  lemma FreeAgrees(s: Slots, k: KeySets, holder: string, now: int)
    requires Agree(s, k, now)
    ensures Agree(ReleaseOn(s, holder), ReleaseScript(k, holder, now), now)
  {
    hide LiveQueue, ReleaseScript, Swept, SetsInvariant, Touch, Remove, SamePlaces, ByArrival;
    var d, t := Drop(s, now), Swept(k, now);
    FreedSets(k, holder, now);
    ReleaseOnLive(s, holder, now);
    RemovePlaces(d.queue, t.w.scores, holder);
    RemoveByArrival(d.queue, t.q.scores, holder);
    RemoveDistinct(d.queue, holder);
  }

  lemma PruneAgrees(s: Slots, k: KeySets, now: int)
    requires Agree(s, k, now)
    ensures Agree(Drop(s, now), k, now)
  {
    hide LiveQueue, Swept, SetsInvariant;
    LiveQueueTwice(s.queue, now, now);
    LiveQueueDistinct(s.queue, now);
    LeasesLapse(s.holders, now, now);
  }

  lemma ExpiryAgrees(s: Slots, k: KeySets, part: Part, now: int)
    requires Agree(s, k, now)
    ensures Agree(s, ExpireKey(k, part, now), now)
  {
    assert TouchAll(ExpireKey(k, part, now), now) == TouchAll(k, now);
    hide LiveQueue, Touch, SetsInvariant;
  }

  /** The options of a run as the scripts take them unchanged: durations of at least 1 ms. */
  ghost predicate WholeDurations(op: StoreOp) {
    && (op.Ask? ==> op.options.leaseMs >= 1 && op.options.queueTtlMs >= 1)
    && (op.Keep? ==> op.leaseMs >= 1)
  }

  lemma {:induction false} StepAgrees(m: Entries, db: Db, now: int, e: StoreEvent)
    requires StoresAgree(m, db, now) && now <= e.at && WholeDurations(e.op)
    ensures MemoryStep(m, e).1 == RedisStep(db, e).1
    ensures StoresAgree(MemoryStep(m, e).0, RedisStep(db, e).0, e.at)
  {
    hide Agree, AcquireOn, AcquireScript, RenewOn, RenewScript, ReleaseOn, ReleaseScript, ExpireKey, Drop;
    var m', db' := MemoryStep(m, e).0, RedisStep(db, e).0;
    if e.op.Ask? || e.op.Keep? {
      AgreeLater(SlotsOf(m, e.op.key), SetsOf(db, e.op.key), now, e.at);
      if e.op.Ask? {
        AskAgrees(SlotsOf(m, e.op.key), SetsOf(db, e.op.key), e.op.holder, e.op.options, e.at);
      } else {
        KeepAgrees(SlotsOf(m, e.op.key), SetsOf(db, e.op.key), e.op.holder, e.op.leaseMs, e.at);
      }
    }
    forall key
      ensures Agree(SlotsOf(m', key), SetsOf(db', key), e.at)
    {
      var s, k := SlotsOf(m, key), SetsOf(db, key);
      AgreeLater(s, k, now, e.at);
      if e.op.Free? && e.op.key == key {
        FreeAgrees(s, k, e.op.holder, e.at);
      } else if e.op.Expiry? && e.op.key == key {
        ExpiryAgrees(s, k, e.op.part, e.at);
      } else if e.op.Prune? {
        PruneAgrees(s, k, e.at);
        DropNothing(e.at);
      }
    }
  }

  lemma DropNothing(at: int)
    ensures Drop(NO_SLOTS, at) == NO_SLOTS
  {
  }

  /** From any two stores that agree, every run gets the same answers from both. */
  lemma {:induction false} RunsAgree(m: Entries, db: Db, now: int, run: seq<StoreEvent>)
    requires StoresAgree(m, db, now) && Timely(now, run)
    requires forall e :: e in run ==> WholeDurations(e.op)
    ensures MemoryAnswers(m, run) == RedisAnswers(db, run)
    decreases |run|
  {
    hide StoresAgree, MemoryStep, RedisStep, WholeDurations;
    if run != [] {
      StepAgrees(m, db, now, run[0]);
      RunsAgree(MemoryStep(m, run[0]).0, RedisStep(db, run[0]).0, run[0].at, run[1..]);
    }
  }

  // ---------- Exactly when the two agree ----------

  /** The run asks only for leases of `leaseMs` and places of `queueTtlMs`. */
  ghost predicate Uses(run: seq<StoreEvent>, leaseMs: int, queueTtlMs: int) {
    forall e :: e in run ==>
      && (e.op.Ask? ==> e.op.options.leaseMs == leaseMs && e.op.options.queueTtlMs == queueTtlMs)
      && (e.op.Keep? ==> e.op.leaseMs == leaseMs)
  }

  ghost predicate AlwaysAgree(leaseMs: int, queueTtlMs: int) {
    forall start, run :: Timely(start, run) && Uses(run, leaseMs, queueTtlMs) ==>
      MemoryAnswers(map[], run) == RedisAnswers(map[], run)
  }

  /** Redis' answers are memory's on every run if and only if leases and places last at least 1 ms:
      the scripts are given at least 1, memory takes the duration as it is. */
  lemma AgreeIffWholeDurations(leaseMs: int, queueTtlMs: int)
    ensures AlwaysAgree(leaseMs, queueTtlMs) <==> leaseMs >= 1 && queueTtlMs >= 1
  {
    if leaseMs >= 1 && queueTtlMs >= 1 {
      forall start, run | Timely(start, run) && Uses(run, leaseMs, queueTtlMs)
        ensures MemoryAnswers(map[], run) == RedisAnswers(map[], run)
      {
        EmptyStoresAgree(start);
        hide Agree;
        RunsAgree(map[], map[], start, run);
      }
    } else if leaseMs < 1 {
      DisagreeOnLease(leaseMs, queueTtlMs);
    } else {
      DisagreeOnPlace(leaseMs, queueTtlMs);
    }
  }

  lemma OneAnswer(m: Entries, db: Db, b: StoreEvent)
    ensures MemoryAnswers(m, [b]) == [MemoryStep(m, b).1]
    ensures RedisAnswers(db, [b]) == [RedisStep(db, b).1]
    ensures Timely(b.at, [b])
  {
    hide MemoryStep, RedisStep;
    assert [b][1..] == [];
  }

  lemma TwoAnswers(m: Entries, db: Db, a: StoreEvent, b: StoreEvent)
    ensures MemoryAnswers(m, [a, b]) == [MemoryStep(m, a).1, MemoryStep(MemoryStep(m, a).0, b).1]
    ensures RedisAnswers(db, [a, b]) == [RedisStep(db, a).1, RedisStep(RedisStep(db, a).0, b).1]
    ensures a.at == b.at ==> Timely(a.at, [a, b])
  {
    hide MemoryStep, RedisStep;
    assert [a, b][1..] == [b];
    OneAnswer(MemoryStep(m, a).0, RedisStep(db, a).0, b);
  }

  /** A pair of steps at one time answered differently the second time. */
  lemma {:induction false} Differs(leaseMs: int, queueTtlMs: int, a: StoreEvent, b: StoreEvent)
    requires a.at == b.at && Uses([a, b], leaseMs, queueTtlMs)
    requires MemoryStep(MemoryStep(map[], a).0, b).1 != RedisStep(RedisStep(map[], a).0, b).1
    ensures !AlwaysAgree(leaseMs, queueTtlMs)
  {
    hide MemoryStep, RedisStep, Uses;
    TwoAnswers(map[], map[], a, b);
    assert MemoryAnswers(map[], [a, b])[1] != RedisAnswers(map[], [a, b])[1];
  }

  /** A lease of no time lapses at once in memory, but lives 1 ms in Redis. */
  lemma DisagreeOnLease(leaseMs: int, queueTtlMs: int)
    requires leaseMs < 1
    ensures !AlwaysAgree(leaseMs, queueTtlMs)
  {
    hide AcquireOn, AcquireScript, AlwaysAgree;
    var o := SlotOptions(1, leaseMs, queueTtlMs);
    var ask, keep := StoreEvent(0, Ask("mx", "a", o)), StoreEvent(0, Keep("mx", "a", leaseMs));
    FirstIsGranted("a", o);
    assert SlotsOf(MemoryStep(map[], ask).0, "mx") == Slots(map["a" := leaseMs], []);
    assert !RenewOn(Slots(map["a" := leaseMs], []), "a", leaseMs, 0).1;
    assert SetsOf(RedisStep(map[], ask).0, "mx").h == ZSet(map["a" := 1], Some(1));
    LeaseOfOne(SetsOf(RedisStep(map[], ask).0, "mx"));
    hide RenewOn, RenewScript;
    Differs(leaseMs, queueTtlMs, ask, keep);
  }

  lemma LeaseOfOne(k: KeySets)
    requires k.h == ZSet(map["a" := 1], Some(1))
    ensures RenewScript(k, "a", 1, 0).1
  {
    assert "a" in k.h.scores;
  }

  /** The first asker of an empty key, with a slot free, is granted by both. */
  lemma FirstIsGranted(holder: string, o: SlotOptions)
    requires o.max == 1
    ensures AcquireOn(NO_SLOTS, holder, o, 0) == (Slots(map[holder := o.leaseMs], []), true)
    ensures var r := AcquireScript(NO_SETS, holder, 1, Ms(o.leaseMs), Ms(o.queueTtlMs), 0);
            r.1 && r.0.h == ZSet(map[holder := Ms(o.leaseMs)], Some(Ms(o.leaseMs)))
  {
    assert Drop(NO_SLOTS, 0) == NO_SLOTS;
    assert Remove([], holder) == [];
    assert Swept(NO_SETS, 0) == NO_SETS;
    AddedScores(MISSING, Ms(o.leaseMs), holder);
    assert IsTop(map[holder := Ms(o.leaseMs)], Ms(o.leaseMs)) by {
      assert holder in map[holder := Ms(o.leaseMs)];
    }
    TopIsUnique(map[holder := Ms(o.leaseMs)], Ms(o.leaseMs));
  }

  /** A place of no time lapses at once in memory, but holds others back for 1 ms in Redis. */
  lemma DisagreeOnPlace(leaseMs: int, queueTtlMs: int)
    requires queueTtlMs < 1
    ensures !AlwaysAgree(leaseMs, queueTtlMs)
  {
    hide AcquireOn, AcquireScript, AlwaysAgree, LiveQueue;
    var full, free := SlotOptions(0, leaseMs, queueTtlMs), SlotOptions(1, leaseMs, queueTtlMs);
    var first, second := StoreEvent(0, Ask("mx", "a", full)), StoreEvent(0, Ask("mx", "b", free));
    FirstWaits(leaseMs, queueTtlMs);
    var s := Slots(map[], [Place("a", queueTtlMs)]);
    assert SlotsOf(MemoryStep(map[], first).0, "mx") == s;
    LapsedPlace(s, free);
    SecondWaits(SetsOf(RedisStep(map[], first).0, "mx"), leaseMs);
    Differs(leaseMs, queueTtlMs, first, second);
  }

  lemma LapsedPlace(s: Slots, o: SlotOptions)
    requires s.holders == map[] && |s.queue| == 1 && s.queue[0].until <= 0 && o.max == 1
    ensures AcquireOn(s, "b", o, 0).1
  {
    assert s.queue[..0] == [];
    assert Drop(s, 0) == NO_SLOTS;
  }

  lemma FirstWaits(leaseMs: int, queueTtlMs: int)
    requires queueTtlMs < 1
    ensures AcquireOn(NO_SLOTS, "a", SlotOptions(0, leaseMs, queueTtlMs), 0) == (Slots(map[], [Place("a", queueTtlMs)]), false)
    ensures var r := AcquireScript(NO_SETS, "a", 0, Ms(leaseMs), 1, 0);
            !r.1 && r.0.h == MISSING && r.0.q == ZSet(map["a" := 0], Some(1)) && r.0.w == ZSet(map["a" := 1], Some(1))
  {
    assert Drop(NO_SLOTS, 0) == NO_SLOTS;
    assert Put([], "a", queueTtlMs) == [Place("a", queueTtlMs)];
    assert Swept(NO_SETS, 0) == NO_SETS;
    AddedScores(MISSING, 0, "a");
    AddedScores(MISSING, 1, "a");
    var one: map<string, int> := map["a" := 1];
    assert "a" in one && IsTop(one, 1);
    TopIsUnique(one, 1);
    var line, places := ZSet(map["a" := 0], None), ZSet(one, None);
    assert Queued(NO_SETS, "a", Ms(leaseMs), 1, false, 0) == KeySets(MISSING, line, places);
    assert "a" in line.scores && "a" in places.scores;
    assert Expire(line, places, 0) == ZSet(map["a" := 0], Some(1));
    assert Expire(places, places, 0) == ZSet(one, Some(1));
  }

  lemma SecondWaits(k: KeySets, leaseMs: int)
    requires k.h == MISSING && k.q == ZSet(map["a" := 0], Some(1)) && k.w == ZSet(map["a" := 1], Some(1))
    ensures !AcquireScript(k, "b", 1, Ms(leaseMs), 1, 0).1
  {
    assert "a" in k.q.scores && "a" in k.w.scores;
    assert Touch(k.q, 0) == k.q && Touch(k.w, 0) == k.w && Touch(k.h, 0) == MISSING;
    var s := Swept(k, 0);
    assert s.q.scores == map["a" := 0] by {
      assert s.q.scores.Keys == {"a"};
    }
    assert s.h.scores == map[] && "b" !in s.q.scores;
    assert |s.q.scores| == 1;
    assert !Grants(s, "b", 1);
  }

  lemma EmptyStoresAgree(now: int)
    ensures StoresAgree(map[], map[], now)
  {
  }
}
