/** The Redis counter scripts answer every run exactly as the in-memory counter, on one clock
    (src/utils/redis-store.ts:77-141 against src/utils/shared-store.ts:190-268). */
module CounterRefinement {
  import opened Wrappers
  import opened WindowCounter
  import opened RedisCounter

  // ---------- Runs of both counters ----------

  /** A refund names the take it gives back. `Prune` is memory's sweep, `Expiry` Redis dropping a key
      whose time has come; neither is asked for by a caller. */
  datatype CounterOp =
    | Take(keys: seq<string>, options: WindowOptions)
    | Peek(key: string)
    | Refund(key: string, take: nat)
    | Delete(keys: seq<string>)
    | MarkOnce(key: string)
    | Prune
    | Expiry(key: string)

  datatype CounterEvent = CounterEvent(at: int, op: CounterOp)

  datatype Answer =
    | Decided(limited: bool, count: int, retryAfterMs: int)
    | Seen(state: Option<WindowState>)
    | Marked(first: bool)
    | Silent

  /** Which window each take counted each key in, take by take: the tickets the callers hold. */
  type Tickets = seq<map<string, nat>>

  datatype Memory = Memory(counter: Counter, tickets: Tickets)
  datatype Redis = Redis(db: Db, tickets: Tickets)

  predicate HasTicket(tickets: Tickets, take: nat, key: string) {
    take < |tickets| && key in tickets[take]
  }

  function Decide(d: Decision): Answer {
    Decided(d.limited, d.count, d.retryAfterMs)
  }

  function MemoryStep(m: Memory, e: CounterEvent): (Memory, Answer) {
    match e.op
    case Take(keys, o) =>
      var (c, d) := TakeOn(m.counter, keys, o, e.at);
      (Memory(c, m.tickets + [d.windows]), Decide(d))
    case Peek(key) =>
      var (c, s) := PeekOn(m.counter, key, e.at);
      (m.(counter := c), Seen(s))
    case Refund(key, take) =>
      (if HasTicket(m.tickets, take, key) then m.(counter := RefundOn(m.counter, key, m.tickets[take][key], e.at)) else m,
       Silent)
    case Delete(keys) => (m.(counter := DeleteOn(m.counter, keys)), Silent)
    case MarkOnce(key) =>
      var (c, first) := MarkOn(m.counter, key, e.at);
      (m.(counter := c), Marked(first))
    case Prune => (m.(counter := m.counter.(entries := PrunedEntries(m.counter.entries, e.at))), Silent)
    case Expiry(_) => (m, Silent)
  }

  /** The id a take draws is new: the number of takes before it. */
  function RedisStep(r: Redis, e: CounterEvent): (Redis, Answer) {
    match e.op
    case Take(keys, o) =>
      var (db, d) := TakeScript(r.db, keys, o, |r.tickets|, e.at);
      (Redis(db, r.tickets + [d.windows]), Decide(d))
    case Peek(key) => (r, Seen(PeekScript(r.db, key, e.at)))
    case Refund(key, take) =>
      (if HasTicket(r.tickets, take, key) then r.(db := RefundScript(r.db, key, r.tickets[take][key], e.at)) else r,
       Silent)
    case Delete(keys) => (r.(db := r.db - KeySet(keys)), Silent)
    case MarkOnce(key) =>
      var (db, first) := MarkOnceScript(r.db, key, e.at);
      (r.(db := db), Marked(first))
    case Prune => (r, Silent)
    case Expiry(key) => (if Find(r.db, key, e.at).None? then r.(db := r.db - {key}) else r, Silent)
  }

  function MemoryAnswers(m: Memory, run: seq<CounterEvent>): seq<Answer>
    decreases |run|
  {
    if run == [] then [] else
      var (m', a) := MemoryStep(m, run[0]);
      [a] + MemoryAnswers(m', run[1..])
  }

  function RedisAnswers(r: Redis, run: seq<CounterEvent>): seq<Answer>
    decreases |run|
  {
    if run == [] then [] else
      var (r', a) := RedisStep(r, run[0]);
      [a] + RedisAnswers(r', run[1..])
  }

  ghost predicate Timely(start: int, run: seq<CounterEvent>)
    decreases |run|
  {
    run == [] || (start <= run[0].at && Timely(run[0].at, run[1..]))
  }

  // ---------- What ties the two ----------

  ghost predicate Tied(w: Option<Window>, h: Option<Hash>) {
    && (w.Some? <==> h.Some?)
    && (w.Some? ==> w.value.count == h.value.c && w.value.marked == h.value.m && h.value.expireAt == Some(w.value.expiresAt))
  }

  /** Every key has the same live window in both. */
  ghost predicate SameWindows(c: Counter, db: Db, now: int) {
    forall key :: Tied(LiveWindow(c.entries, key, now), Find(db, key, now))
  }

  predicate NamesWindow(ticket: map<string, nat>, key: string, w: Option<Window>) {
    key in ticket && w.Some? && w.value.id == ticket[key]
  }

  predicate NamesHash(ticket: map<string, nat>, key: string, h: Option<Hash>) {
    key in ticket && h.Some? && h.value.w == ticket[key]
  }

  /** Two tickets of one take name the live window of the same keys. */
  ghost predicate SameTicket(mt: map<string, nat>, rt: map<string, nat>, c: Counter, db: Db, now: int) {
    forall key :: NamesWindow(mt, key, LiveWindow(c.entries, key, now)) <==> NamesHash(rt, key, Find(db, key, now))
  }

  ghost predicate SameTickets(mt: Tickets, rt: Tickets, c: Counter, db: Db, now: int) {
    |mt| == |rt| && forall n :: 0 <= n < |mt| ==> SameTicket(mt[n], rt[n], c, db, now)
  }

  /** Memory's ids are handed out up to `last`, Redis' below `next`. */
  ghost predicate IdsBelow(c: Counter, mt: Tickets, db: Db, rt: Tickets, next: nat) {
    && (forall key :: key in c.entries ==> c.entries[key].id <= c.last)
    && (forall n, key :: 0 <= n < |mt| && key in mt[n] ==> mt[n][key] <= c.last)
    && (forall key :: key in db ==> db[key].w < next)
    && (forall n, key :: 0 <= n < |rt| && key in rt[n] ==> rt[n][key] < next)
  }

  ghost predicate Agree(m: Memory, r: Redis, now: int) {
    && SameWindows(m.counter, r.db, now)
    && SameTickets(m.tickets, r.tickets, m.counter, r.db, now)
    && IdsBelow(m.counter, m.tickets, r.db, r.tickets, |r.tickets|)
  }

  lemma AgreeLater(m: Memory, r: Redis, now: int, later: int)
    requires Agree(m, r, now) && now <= later
    ensures Agree(m, r, later)
  {
    forall key
      ensures Tied(LiveWindow(m.counter.entries, key, later), Find(r.db, key, later))
      ensures LiveWindow(m.counter.entries, key, later).Some? ==>
                LiveWindow(m.counter.entries, key, later) == LiveWindow(m.counter.entries, key, now)
                && Find(r.db, key, later) == Find(r.db, key, now)
    {
      assert Tied(LiveWindow(m.counter.entries, key, now), Find(r.db, key, now));
    }
    forall n | 0 <= n < |m.tickets|
      ensures SameTicket(m.tickets[n], r.tickets[n], m.counter, r.db, later)
    {
      assert SameTicket(m.tickets[n], r.tickets[n], m.counter, r.db, now);
    }
  }

  // ---------- The two passes of a take ----------

  lemma ReadKeeps(entries: Entries, key: string, at: int)
    ensures forall k :: LiveWindow(Read(entries, key, at), k, at) == LiveWindow(entries, k, at)
  {
  }

  lemma {:induction false} CheckAgrees(c: Counter, db: Db, keys: seq<string>, o: WindowOptions, now: int)
    requires SameWindows(c, db, now)
    ensures var (e, limited, retry) := Checked(c.entries, keys, o, now);
            && (limited, retry) == CheckKeys(db, keys, o, now)
            && (forall k :: LiveWindow(e, k, now) == LiveWindow(c.entries, k, now))
            && (forall k :: k in e ==> k in c.entries && e[k] == c.entries[k])
    decreases |keys|
  {
    if keys != [] {
      var init, key := keys[..|keys| - 1], keys[|keys| - 1];
      CheckAgrees(c, db, init, o, now);
      ReadKeeps(Checked(c.entries, init, o, now).0, key, now);
      assert Tied(LiveWindow(c.entries, key, now), Find(db, key, now));
    }
  }

  /** The key's window in memory, and its hash in Redis, once one key is counted. */
  ghost function After(c: Counter, key: string, add: int, windowMs: int, now: int): Counter {
    CountOne(c, key, add, windowMs, now).0
  }

  ghost function Then(db: Db, key: string, add: int, windowMs: int, uuid: nat, now: int): Db {
    if add > 0 then Increment(db, key, add, windowMs, uuid, now).0 else db
  }

  lemma CountOneKeeps(c: Counter, db: Db, key: string, add: int, windowMs: int, uuid: nat, now: int, k: string)
    requires k != key
    ensures LiveWindow(After(c, key, add, windowMs, now).entries, k, now) == LiveWindow(c.entries, k, now)
    ensures Find(Then(db, key, add, windowMs, uuid, now), k, now) == Find(db, k, now)
  {
  }

  lemma CountOneTies(c: Counter, db: Db, key: string, add: int, windowMs: int, uuid: nat, now: int)
    requires Tied(LiveWindow(c.entries, key, now), Find(db, key, now))
    ensures var (w, w') := (LiveWindow(c.entries, key, now), LiveWindow(After(c, key, add, windowMs, now).entries, key, now));
            var (h, h') := (Find(db, key, now), Find(Then(db, key, add, windowMs, uuid, now), key, now));
            && Tied(w', h')
            && (w.Some? ==> w'.Some? && w'.value.id == w.value.id && h'.value.w == h.value.w)
            && (w.None? && w'.Some? ==> w'.value.id == c.last + 1 && h'.value.w == uuid)
            && (var r := CountOne(c, key, add, windowMs, now).1;
                && CountIn(r) == (if add > 0 then Increment(db, key, add, windowMs, uuid, now).1 else HashCount(h))
                && (w'.Some? ==> r == w') && (r.Some? ==> r.value.id <= After(c, key, add, windowMs, now).last))
    requires LiveWindow(c.entries, key, now).Some? ==> LiveWindow(c.entries, key, now).value.id <= c.last
  {
  }

  lemma CountOneIds(c: Counter, db: Db, key: string, add: int, windowMs: int, uuid: nat, now: int)
    requires forall k :: k in c.entries ==> c.entries[k].id <= c.last
    requires forall k :: k in db ==> db[k].w <= uuid
    ensures var c' := After(c, key, add, windowMs, now);
            c'.last >= c.last && forall k :: k in c'.entries ==> c'.entries[k].id <= c'.last
    ensures var db' := Then(db, key, add, windowMs, uuid, now);
            forall k :: k in db' ==> db'[k].w <= uuid
  {
  }

  /** A ticket that names the same live windows in both stores still does once one more key is
      counted: a window started now has an id no ticket holds. */
  lemma CountOneKeepsTicket(c: Counter, db: Db, key: string, add: int, windowMs: int, uuid: nat, now: int,
                            mt: map<string, nat>, rt: map<string, nat>)
    requires SameWindows(c, db, now) && SameTicket(mt, rt, c, db, now)
    requires forall k :: k in c.entries ==> c.entries[k].id <= c.last
    requires forall k :: k in mt ==> mt[k] <= c.last
    requires key in rt && rt[key] == uuid ==> Find(db, key, now).Some?
    ensures SameTicket(mt, rt, After(c, key, add, windowMs, now), Then(db, key, add, windowMs, uuid, now), now)
  {
    hide After, Then, LiveWindow, Find;
    forall k
      ensures NamesWindow(mt, k, LiveWindow(After(c, key, add, windowMs, now).entries, k, now))
         <==> NamesHash(rt, k, Find(Then(db, key, add, windowMs, uuid, now), k, now))
    {
      assert NamesWindow(mt, k, LiveWindow(c.entries, k, now)) <==> NamesHash(rt, k, Find(db, k, now));
      assert Tied(LiveWindow(c.entries, k, now), Find(db, k, now));
      if k == key {
        LiveIds(c, now);
        CountOneTies(c, db, key, add, windowMs, uuid, now);
      } else {
        CountOneKeeps(c, db, key, add, windowMs, uuid, now, k);
      }
    }
  }

  lemma LiveIds(c: Counter, now: int)
    requires forall k :: k in c.entries ==> c.entries[k].id <= c.last
    ensures forall k :: LiveWindow(c.entries, k, now).Some? ==> LiveWindow(c.entries, k, now).value.id <= c.last
  {
  }

  /** What holds between the two stores in the middle of a take's second pass; `mt` and `rt` are the
      tickets of earlier takes, `ws` and `ids` the one this take is filling. */
  ghost predicate Midway(c: Counter, db: Db, mt: Tickets, rt: Tickets, ws: map<string, nat>, ids: map<string, nat>, uuid: nat, now: int) {
    && SameWindows(c, db, now)
    && SameTickets(mt, rt, c, db, now)
    && SameTicket(ws, ids, c, db, now)
    && (forall key :: key in ids ==> NamesHash(ids, key, Find(db, key, now)))
    && (forall key :: key in c.entries ==> c.entries[key].id <= c.last)
    && (forall key :: key in db ==> db[key].w <= uuid)
    && (forall n, key :: 0 <= n < |mt| && key in mt[n] ==> mt[n][key] <= c.last)
    && (forall n, key :: 0 <= n < |rt| && key in rt[n] ==> rt[n][key] < uuid)
    && (forall key :: key in ws ==> ws[key] <= c.last)
  }

  lemma MidwayTickets(c: Counter, db: Db, mt: Tickets, rt: Tickets, ws: map<string, nat>, ids: map<string, nat>, uuid: nat, now: int,
                      key: string, add: int, windowMs: int)
    requires Midway(c, db, mt, rt, ws, ids, uuid, now)
    ensures SameTickets(mt, rt, After(c, key, add, windowMs, now), Then(db, key, add, windowMs, uuid, now), now)
    ensures SameTicket(ws, ids, After(c, key, add, windowMs, now), Then(db, key, add, windowMs, uuid, now), now)
    ensures SameWindows(After(c, key, add, windowMs, now), Then(db, key, add, windowMs, uuid, now), now)
  {
    hide After, Then, LiveWindow, Find, SameTicket;
    var c', db' := After(c, key, add, windowMs, now), Then(db, key, add, windowMs, uuid, now);
    forall n | 0 <= n < |mt|
      ensures SameTicket(mt[n], rt[n], c', db', now)
    {
      CountOneKeepsTicket(c, db, key, add, windowMs, uuid, now, mt[n], rt[n]);
    }
    CountOneKeepsTicket(c, db, key, add, windowMs, uuid, now, ws, ids);
    forall k
      ensures Tied(LiveWindow(c'.entries, k, now), Find(db', k, now))
    {
      assert Tied(LiveWindow(c.entries, k, now), Find(db, k, now));
      if k == key {
        LiveIds(c, now);
        CountOneTies(c, db, key, add, windowMs, uuid, now);
      } else {
        CountOneKeeps(c, db, key, add, windowMs, uuid, now, k);
      }
    }
  }

  /** The ticket filled with one more key. */
  lemma TicketFilled(c: Counter, db: Db, ws: map<string, nat>, ids: map<string, nat>, now: int, key: string, w: Option<Window>)
    requires SameTicket(ws, ids, c, db, now) && Tied(LiveWindow(c.entries, key, now), Find(db, key, now))
    requires LiveWindow(c.entries, key, now).Some? ==> w == LiveWindow(c.entries, key, now)
    ensures SameTicket(if w.Some? then ws[key := w.value.id] else ws,
                       if Find(db, key, now).Some? then ids[key := Find(db, key, now).value.w] else ids, c, db, now)
  {
    hide LiveWindow, Find;
    var ws' := if w.Some? then ws[key := w.value.id] else ws;
    var ids' := if Find(db, key, now).Some? then ids[key := Find(db, key, now).value.w] else ids;
    forall k
      ensures NamesWindow(ws', k, LiveWindow(c.entries, k, now)) <==> NamesHash(ids', k, Find(db, k, now))
    {
      assert NamesWindow(ws, k, LiveWindow(c.entries, k, now)) <==> NamesHash(ids, k, Find(db, k, now));
    }
  }

  lemma MidwayStep(c: Counter, db: Db, mt: Tickets, rt: Tickets, ws: map<string, nat>, ids: map<string, nat>, uuid: nat, now: int,
                   key: string, add: int, windowMs: int)
    requires Midway(c, db, mt, rt, ws, ids, uuid, now)
    ensures var c', db' := After(c, key, add, windowMs, now), Then(db, key, add, windowMs, uuid, now);
            var w, h := CountOne(c, key, add, windowMs, now).1, Find(db', key, now);
            Midway(c', db', mt, rt, if w.Some? then ws[key := w.value.id] else ws,
                   if h.Some? then ids[key := h.value.w] else ids, uuid, now)
  {
    var c', db' := After(c, key, add, windowMs, now), Then(db, key, add, windowMs, uuid, now);
    var w, h := CountOne(c, key, add, windowMs, now).1, Find(db', key, now);
    MidwayTickets(c, db, mt, rt, ws, ids, uuid, now, key, add, windowMs);
    CountOneIds(c, db, key, add, windowMs, uuid, now);
    LiveIds(c, now);
    assert Tied(LiveWindow(c.entries, key, now), Find(db, key, now));
    CountOneTies(c, db, key, add, windowMs, uuid, now);
    assert Tied(LiveWindow(c'.entries, key, now), h);
    hide After, Then, LiveWindow, Find, CountOne, Increment;
    TicketFilled(c', db', ws, ids, now, key, w);
    var ids' := if h.Some? then ids[key := h.value.w] else ids;
    forall k | k in ids'
      ensures NamesHash(ids', k, Find(db', k, now))
    {
      if k != key {
        assert NamesHash(ids, k, Find(db, k, now));
        CountOneKeeps(c, db, key, add, windowMs, uuid, now, k);
      } else if h.None? {
        assert NamesHash(ids, k, Find(db, k, now));
      }
    }
  }

  lemma {:induction false} CountAgrees(c: Counter, db: Db, mt: Tickets, rt: Tickets, keys: seq<string>, add: int, windowMs: int, uuid: nat, now: int)
    requires Midway(c, db, mt, rt, map[], map[], uuid, now)
    ensures var (c', count, ws) := Counted(c, keys, add, windowMs, now);
            var (db', top, ids) := CountKeys(db, keys, add, windowMs, uuid, now);
            count == top && Midway(c', db', mt, rt, ws, ids, uuid, now)
    decreases |keys|
  {
    if keys != [] {
      var init, key := keys[..|keys| - 1], keys[|keys| - 1];
      CountAgrees(c, db, mt, rt, init, add, windowMs, uuid, now);
      var (c', count, ws) := Counted(c, init, add, windowMs, now);
      var (db', top, ids) := CountKeys(db, init, add, windowMs, uuid, now);
      MidwayStep(c', db', mt, rt, ws, ids, uuid, now, key, add, windowMs);
      assert Tied(LiveWindow(c'.entries, key, now), Find(db', key, now));
      LiveIds(c', now);
      CountOneTies(c', db', key, add, windowMs, uuid, now);
      hide Midway, LiveWindow, Find;
    }
  }

  // ---------- One step ----------

  lemma TakeStarts(m: Memory, r: Redis, now: int, keys: seq<string>, o: WindowOptions)
    requires Agree(m, r, now)
    ensures Midway(m.counter.(entries := Checked(m.counter.entries, keys, o, now).0), r.db, m.tickets, r.tickets,
                   map[], map[], |r.tickets|, now)
  {
    CheckAgrees(m.counter, r.db, keys, o, now);
    hide Checked, CheckKeys;
    var c := m.counter.(entries := Checked(m.counter.entries, keys, o, now).0);
    forall n | 0 <= n < |m.tickets|
      ensures SameTicket(m.tickets[n], r.tickets[n], c, r.db, now)
    {
      assert SameTicket(m.tickets[n], r.tickets[n], m.counter, r.db, now);
    }
  }

  lemma TakeEnds(c: Counter, db: Db, mt: Tickets, rt: Tickets, ws: map<string, nat>, ids: map<string, nat>, now: int)
    requires Midway(c, db, mt, rt, ws, ids, |rt|, now)
    ensures Agree(Memory(c, mt + [ws]), Redis(db, rt + [ids]), now)
  {
    hide SameTicket, SameWindows, LiveWindow;
    forall key | key in ids
      ensures ids[key] < |rt| + 1
    {
      assert NamesHash(ids, key, Find(db, key, now));
    }
  }

  lemma TakeAgrees(m: Memory, r: Redis, now: int, keys: seq<string>, o: WindowOptions)
    requires Agree(m, r, now)
    ensures var e := CounterEvent(now, Take(keys, o));
            MemoryStep(m, e).1 == RedisStep(r, e).1 && Agree(MemoryStep(m, e).0, RedisStep(r, e).0, now)
  {
    assert SameWindows(m.counter, r.db, now);
    hide Counted, CountKeys, Checked, CheckKeys, SameTicket, SameWindows, Midway, Agree;
    CheckAgrees(m.counter, r.db, keys, o, now);
    TakeStarts(m, r, now, keys, o);
    var (entries, limited, retry) := Checked(m.counter.entries, keys, o, now);
    var c := m.counter.(entries := entries);
    var add := if limited then o.refusedWeight else o.weight;
    CountAgrees(c, r.db, m.tickets, r.tickets, keys, add, o.windowMs, |r.tickets|, now);
    var (c', count, ws) := Counted(c, keys, add, o.windowMs, now);
    var (db', top, ids) := CountKeys(r.db, keys, add, o.windowMs, |r.tickets|, now);
    TakeEnds(c', db', m.tickets, r.tickets, ws, ids, now);
  }

  /** A change of one key's window alone, of the same kind in both stores. */
  lemma OneKeyAgrees(m: Memory, r: Redis, now: int, key: string, c: Counter, db: Db)
    requires Agree(m, r, now) && c.last == m.counter.last
    requires forall k :: k != key ==> LiveWindow(c.entries, k, now) == LiveWindow(m.counter.entries, k, now)
    requires forall k :: k != key ==> Find(db, k, now) == Find(r.db, k, now)
    requires Tied(LiveWindow(c.entries, key, now), Find(db, key, now))
    requires var w, w' := LiveWindow(m.counter.entries, key, now), LiveWindow(c.entries, key, now);
             w'.Some? ==> w.Some? && w'.value.id == w.value.id && Find(db, key, now).value.w == Find(r.db, key, now).value.w
    requires forall k :: k in c.entries ==> c.entries[k].id <= c.last
    requires forall k :: k in db ==> db[k].w < |r.tickets|
    ensures Agree(m.(counter := c), r.(db := db), now)
  {
    hide LiveWindow, Find;
    forall k
      ensures Tied(LiveWindow(c.entries, k, now), Find(db, k, now))
    {
      assert Tied(LiveWindow(m.counter.entries, k, now), Find(r.db, k, now));
    }
    forall n | 0 <= n < |m.tickets|
      ensures SameTicket(m.tickets[n], r.tickets[n], c, db, now)
    {
      assert SameTicket(m.tickets[n], r.tickets[n], m.counter, r.db, now);
      forall k
        ensures NamesWindow(m.tickets[n], k, LiveWindow(c.entries, k, now)) <==> NamesHash(r.tickets[n], k, Find(db, k, now))
      {
        assert NamesWindow(m.tickets[n], k, LiveWindow(m.counter.entries, k, now)) <==> NamesHash(r.tickets[n], k, Find(r.db, k, now));
        assert Tied(LiveWindow(m.counter.entries, k, now), Find(r.db, k, now));
      }
    }
  }

  lemma PeekAgrees(m: Memory, r: Redis, now: int, key: string)
    requires Agree(m, r, now)
    ensures PeekOn(m.counter, key, now).1 == PeekScript(r.db, key, now)
    ensures Agree(m.(counter := PeekOn(m.counter, key, now).0), r, now)
  {
    assert Tied(LiveWindow(m.counter.entries, key, now), Find(r.db, key, now));
    OneKeyAgrees(m, r, now, key, PeekOn(m.counter, key, now).0, r.db);
  }

  /** A ticket gives back in one store exactly when it gives back in the other. */
  lemma RefundAgrees(m: Memory, r: Redis, now: int, key: string, take: nat)
    requires Agree(m, r, now)
    ensures var e := CounterEvent(now, Refund(key, take));
            Agree(MemoryStep(m, e).0, RedisStep(r, e).0, now)
  {
    var e := CounterEvent(now, Refund(key, take));
    var c, db := MemoryStep(m, e).0.counter, RedisStep(r, e).0.db;
    assert Tied(LiveWindow(m.counter.entries, key, now), Find(r.db, key, now));
    if take < |m.tickets| {
      assert SameTicket(m.tickets[take], r.tickets[take], m.counter, r.db, now);
      assert NamesWindow(m.tickets[take], key, LiveWindow(m.counter.entries, key, now))
        <==> NamesHash(r.tickets[take], key, Find(r.db, key, now));
    }
    hide SameTicket, SameWindows;
    OneKeyAgrees(m, r, now, key, c, db);
  }

  lemma MarkAgrees(m: Memory, r: Redis, now: int, key: string)
    requires Agree(m, r, now)
    ensures MarkOn(m.counter, key, now).1 == MarkOnceScript(r.db, key, now).1
    ensures Agree(m.(counter := MarkOn(m.counter, key, now).0), r.(db := MarkOnceScript(r.db, key, now).0), now)
  {
    assert Tied(LiveWindow(m.counter.entries, key, now), Find(r.db, key, now));
    OneKeyAgrees(m, r, now, key, MarkOn(m.counter, key, now).0, MarkOnceScript(r.db, key, now).0);
  }

  lemma DeleteAgrees(m: Memory, r: Redis, now: int, gone: set<string>)
    requires Agree(m, r, now)
    ensures Agree(m.(counter := m.counter.(entries := m.counter.entries - gone)), r.(db := r.db - gone), now)
  {
    var c, db := m.counter.(entries := m.counter.entries - gone), r.db - gone;
    forall k
      ensures Tied(LiveWindow(c.entries, k, now), Find(db, k, now))
    {
      assert Tied(LiveWindow(m.counter.entries, k, now), Find(r.db, k, now));
    }
    forall n | 0 <= n < |m.tickets|
      ensures SameTicket(m.tickets[n], r.tickets[n], c, db, now)
    {
      assert SameTicket(m.tickets[n], r.tickets[n], m.counter, r.db, now);
      forall k
        ensures NamesWindow(m.tickets[n], k, LiveWindow(c.entries, k, now)) <==> NamesHash(r.tickets[n], k, Find(db, k, now))
      {
        assert NamesWindow(m.tickets[n], k, LiveWindow(m.counter.entries, k, now)) <==> NamesHash(r.tickets[n], k, Find(r.db, k, now));
      }
    }
  }

  /** Dropping what is over changes no live window. */
  lemma HousekeepingAgrees(m: Memory, r: Redis, now: int, c: Counter, db: Db)
    requires Agree(m, r, now) && c.last == m.counter.last
    requires forall k :: LiveWindow(c.entries, k, now) == LiveWindow(m.counter.entries, k, now)
    requires forall k :: Find(db, k, now) == Find(r.db, k, now)
    requires c.entries.Keys <= m.counter.entries.Keys && forall k :: k in c.entries ==> c.entries[k] == m.counter.entries[k]
    requires db.Keys <= r.db.Keys && forall k :: k in db ==> db[k] == r.db[k]
    ensures Agree(m.(counter := c), r.(db := db), now)
  {
    hide LiveWindow, Find;
    forall n | 0 <= n < |m.tickets|
      ensures SameTicket(m.tickets[n], r.tickets[n], c, db, now)
    {
      assert SameTicket(m.tickets[n], r.tickets[n], m.counter, r.db, now);
    }
  }

  lemma StepAgrees(m: Memory, r: Redis, e: CounterEvent)
    requires Agree(m, r, e.at)
    ensures MemoryStep(m, e).1 == RedisStep(r, e).1
    ensures Agree(MemoryStep(m, e).0, RedisStep(r, e).0, e.at)
  {
    hide Agree, TakeOn, TakeScript, PeekOn, PeekScript, RefundOn, RefundScript, MarkOn, MarkOnceScript;
    match e.op {
      case Take(keys, o) => TakeAgrees(m, r, e.at, keys, o);
      case Peek(key) => PeekAgrees(m, r, e.at, key);
      case Refund(key, take) => RefundAgrees(m, r, e.at, key, take);
      case Delete(keys) => DeleteAgrees(m, r, e.at, KeySet(keys));
      case MarkOnce(key) => MarkAgrees(m, r, e.at, key);
      case Prune => HousekeepingAgrees(m, r, e.at, MemoryStep(m, e).0.counter, r.db);
      case Expiry(_) => HousekeepingAgrees(m, r, e.at, m.counter, RedisStep(r, e).0.db);
    }
  }

  lemma {:induction false} RunsAgree(m: Memory, r: Redis, now: int, run: seq<CounterEvent>)
    requires Agree(m, r, now) && Timely(now, run)
    ensures MemoryAnswers(m, run) == RedisAnswers(r, run)
    decreases |run|
  {
    hide Agree, MemoryStep, RedisStep;
    if run != [] {
      AgreeLater(m, r, now, run[0].at);
      StepAgrees(m, r, run[0]);
      RunsAgree(MemoryStep(m, run[0]).0, RedisStep(r, run[0]).0, run[0].at, run[1..]);
    }
  }

  /** Both counters decide, count, wait, show and mark alike on every run, whatever the keys, limits,
      windows and weights, whichever takes are given back, and whenever memory is swept or Redis
      drops a key. */
  lemma CountersAgree(start: int, run: seq<CounterEvent>)
    requires Timely(start, run)
    ensures MemoryAnswers(Memory(EMPTY, []), run) == RedisAnswers(Redis(map[], []), run)
  {
    assert Agree(Memory(EMPTY, []), Redis(map[], []), start);
    RunsAgree(Memory(EMPTY, []), Redis(map[], []), start, run);
  }
}
