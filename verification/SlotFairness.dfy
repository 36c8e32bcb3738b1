/** What every run of the leased semaphore keeps for one key: never more than `max` live leases,
    and no overtaking in the line (src/utils/shared-slots.ts:54-66, 103-154). */
module SlotFairness {
  import opened SharedSlots

  // ---------- The line ----------

  lemma {:induction false} LiveQueueContents(q: seq<Place>, at: int)
    ensures forall p :: p in LiveQueue(q, at) <==> p in q && p.until > at
  {
    if q != [] {
      LiveQueueContents(q[..|q| - 1], at);
      assert q == q[..|q| - 1] + [q[|q| - 1]];
    }
  }

  lemma {:induction false} LiveQueueTwice(q: seq<Place>, at: int, later: int)
    requires at <= later
    ensures LiveQueue(LiveQueue(q, at), later) == LiveQueue(q, later)
  {
    if q != [] {
      var init, last := q[..|q| - 1], q[|q| - 1];
      LiveQueueTwice(init, at, later);
      LiveQueueAppend(LiveQueue(init, at), last, later);
    }
  }

  lemma {:induction false} LiveQueueDistinct(q: seq<Place>, at: int)
    requires DistinctPlaces(q)
    ensures DistinctPlaces(LiveQueue(q, at))
  {
    if q != [] {
      LiveQueueDistinct(q[..|q| - 1], at);
      LiveQueueContents(q[..|q| - 1], at);
    }
  }

  lemma IndexIs(q: seq<Place>, holder: string, i: nat)
    requires DistinctPlaces(q) && i < |q| && q[i].holder == holder
    ensures IndexOf(q, holder) == i
  {
    var r := IndexOf(q, holder);
    assert Waits(q, holder);
  }

  /** Dropping lapsed places never moves a live one back. */
  lemma {:induction false} LiveQueueIndex(q: seq<Place>, holder: string, at: int)
    requires DistinctPlaces(q) && Waits(q, holder) && q[IndexOf(q, holder)].until > at
    ensures Waits(LiveQueue(q, at), holder)
    ensures IndexOf(LiveQueue(q, at), holder) <= IndexOf(q, holder)
    ensures LiveQueue(q, at)[IndexOf(LiveQueue(q, at), holder)] == q[IndexOf(q, holder)]
  {
    var init, last := q[..|q| - 1], q[|q| - 1];
    var i := IndexOf(q, holder);
    LiveQueueDistinct(q, at);
    if i == |q| - 1 {
      IndexIs(LiveQueue(q, at), holder, |LiveQueue(q, at)| - 1);
    } else {
      assert init[i].holder == holder;
      IndexIs(init, holder, i);
      LiveQueueIndex(init, holder, at);
      var j := IndexOf(LiveQueue(init, at), holder);
      IndexIs(LiveQueue(q, at), holder, j);
    }
  }

  lemma PutKeeps(q: seq<Place>, other: string, until: int, holder: string)
    requires DistinctPlaces(q)
    ensures DistinctPlaces(Put(q, other, until))
    ensures Waits(Put(q, other, until), other)
    ensures other != holder && Waits(q, holder) ==>
              IndexOf(Put(q, other, until), holder) == IndexOf(q, holder)
              && Put(q, other, until)[IndexOf(q, holder)] == q[IndexOf(q, holder)]
    ensures other != holder && Waits(Put(q, other, until), holder) ==> Waits(q, holder)
  {
    var p := Put(q, other, until);
    var o := IndexOf(q, other);
    assert p[if o >= 0 then o else |q|].holder == other;
    if other != holder && Waits(q, holder) {
      IndexIs(p, holder, IndexOf(q, holder));
    }
    if other != holder && Waits(p, holder) {
      var i :| 0 <= i < |p| && p[i].holder == holder;
      assert q[i].holder == holder;
    }
  }

  lemma {:induction false} RemoveContents(q: seq<Place>, other: string)
    ensures forall p :: p in Remove(q, other) <==> p in q && p.holder != other
  {
    if q != [] {
      RemoveContents(q[..|q| - 1], other);
      assert q == q[..|q| - 1] + [q[|q| - 1]];
    }
  }

  lemma {:induction false} RemoveDistinct(q: seq<Place>, other: string)
    requires DistinctPlaces(q)
    ensures DistinctPlaces(Remove(q, other))
  {
    if q != [] {
      RemoveDistinct(q[..|q| - 1], other);
      RemoveContents(q[..|q| - 1], other);
    }
  }

  lemma RemoveLast(q: seq<Place>, other: string)
    requires q != []
    ensures var init, last := q[..|q| - 1], q[|q| - 1];
            Remove(q, other) == if last.holder == other then Remove(init, other) else Remove(init, other) + [last]
  {
  }

  /** Taking a waiter out of the line moves up exactly those behind it. */
  lemma {:induction false} RemoveIndex(q: seq<Place>, other: string, holder: string)
    requires DistinctPlaces(q) && other != holder && Waits(q, holder)
    ensures Waits(Remove(q, other), holder)
    ensures IndexOf(Remove(q, other), holder)
         == IndexOf(q, holder) - (if 0 <= IndexOf(q, other) < IndexOf(q, holder) then 1 else 0)
    ensures Remove(q, other)[IndexOf(Remove(q, other), holder)] == q[IndexOf(q, holder)]
  {
    hide IndexOf, Remove;
    var init, last := q[..|q| - 1], q[|q| - 1];
    RemoveLast(q, other);
    RemoveDistinct(q, other);
    var i, o := IndexOf(q, holder), IndexOf(q, other);
    if o >= 0 && o < |q| - 1 {
      assert init[o].holder == other;
      IndexIs(init, other, o);
    }
    if i == |q| - 1 {
      RemoveSize(init, other);
      IndexIs(Remove(q, other), holder, |Remove(q, other)| - 1);
    } else {
      assert init[i].holder == holder;
      IndexIs(init, holder, i);
      RemoveIndex(init, other, holder);
      IndexIs(Remove(q, other), holder, IndexOf(Remove(init, other), holder));
    }
  }

  lemma {:induction false} RemoveSize(q: seq<Place>, other: string)
    requires DistinctPlaces(q)
    ensures |Remove(q, other)| == |q| - (if Waits(q, other) then 1 else 0)
  {
    if q != [] {
      var init, last := q[..|q| - 1], q[|q| - 1];
      RemoveSize(init, other);
      if Waits(q, other) && last.holder != other {
        var i :| 0 <= i < |q| && q[i].holder == other;
        assert init[i].holder == other;
      }
    }
  }

  // ---------- Leases ----------

  lemma SubsetSize<T>(a: set<T>, b: set<T>)
    requires a <= b
    ensures |a| <= |b|
  {
    assert b == a + (b - a);
  }

  lemma LeasesLapse(h: map<string, int>, at: int, later: int)
    requires at <= later
    ensures LiveHolders(LiveHolders(h, at), later) == LiveHolders(h, later)
    ensures |LiveHolders(h, later)| <= |LiveHolders(h, at)|
  {
    SubsetSize(LiveHolders(h, later).Keys, LiveHolders(h, at).Keys);
  }

  /** The line names each waiter once, and nobody both holds and waits. */
  ghost predicate WellFormed(s: Slots, at: int) {
    && DistinctPlaces(s.queue)
    && forall p :: p in s.queue && p.until > at && p.holder in s.holders ==> s.holders[p.holder] <= at
  }

  lemma DropKeepsWellFormed(s: Slots, at: int)
    requires WellFormed(s, at)
    ensures WellFormed(Drop(s, at), at)
    ensures forall p :: p in LiveQueue(s.queue, at) ==> p.holder !in LiveHolders(s.holders, at)
  {
    LiveQueueDistinct(s.queue, at);
    LiveQueueContents(s.queue, at);
  }

  // ---------- Runs ----------

  /** One event on the key; the time never runs backwards along a run. */
  datatype Op =
    | Acquire(holder: string, leaseMs: int, queueTtlMs: int)
    | Renew(holder: string, leaseMs: int)
    | Release(holder: string)
    | Sweep

  datatype Event = Event(at: int, op: Op)

  function Step(s: Slots, max: int, e: Event): Slots {
    match e.op
    case Acquire(holder, lease, ttl) => AcquireOn(s, holder, SlotOptions(max, lease, ttl), e.at).0
    case Renew(holder, lease) => RenewOn(s, holder, lease, e.at).0
    case Release(holder) => ReleaseOn(s, holder)
    case Sweep => Drop(s, e.at)
  }

  function Run(s: Slots, max: int, run: seq<Event>): Slots
    decreases |run|
  {
    if run == [] then s else Run(Step(s, max, run[0]), max, run[1..])
  }

  ghost predicate InOrder(start: int, run: seq<Event>, end: int)
    decreases |run|
  {
    if run == [] then start <= end else start <= run[0].at && InOrder(run[0].at, run[1..], end)
  }

  predicate By(holder: string, op: Op) {
    !op.Sweep? && op.holder == holder
  }

  /** The waiter asking now would be granted. */
  ghost predicate Eligible(s: Slots, max: int, holder: string, at: int) {
    var d := Drop(s, at);
    Waits(d.queue, holder) && IndexOf(d.queue, holder) < max - |d.holders|
  }

  ghost predicate Bounded(s: Slots, max: int, at: int) {
    |LiveHolders(s.holders, at)| <= max
  }

  lemma {:induction false} LiveQueueRemove(q: seq<Place>, holder: string, at: int)
    ensures LiveQueue(Remove(q, holder), at) == Remove(LiveQueue(q, at), holder)
  {
    if q != [] {
      var init, last := q[..|q| - 1], q[|q| - 1];
      LiveQueueRemove(init, holder, at);
      LiveQueueAppend(Remove(init, holder), last, at);
    }
  }

  /** After any step the live part is the step of the live part. */
  lemma ReleaseOnLive(s: Slots, holder: string, at: int)
    requires DistinctPlaces(s.queue)
    ensures Drop(ReleaseOn(s, holder), at) == ReleaseOn(Drop(s, at), holder)
    ensures DistinctPlaces(ReleaseOn(s, holder).queue)
  {
    LiveQueueRemove(s.queue, holder, at);
    RemoveDistinct(s.queue, holder);
  }

  lemma PutContents(q: seq<Place>, holder: string, until: int)
    requires DistinctPlaces(q)
    ensures forall p :: p in Put(q, holder, until) ==> p == Place(holder, until) || (p in q && p.holder != holder)
  {
    var i := IndexOf(q, holder);
    forall p | p in Put(q, holder, until)
      ensures p == Place(holder, until) || (p in q && p.holder != holder)
    {
      var j :| 0 <= j < |Put(q, holder, until)| && Put(q, holder, until)[j] == p;
      if p != Place(holder, until) {
        assert j < |q| && q[j] == p;
        assert p.holder == holder ==> Waits(q, holder);
      }
    }
  }

  lemma StepKeepsWellFormed(s: Slots, max: int, e: Event)
    requires WellFormed(s, e.at)
    ensures WellFormed(Step(s, max, e), e.at)
  {
    hide IndexOf, LiveQueue, Remove, Put;
    var d := Drop(s, e.at);
    DropKeepsWellFormed(s, e.at);
    match e.op {
      case Acquire(holder, _, ttl) =>
        RemoveDistinct(d.queue, holder);
        RemoveContents(d.queue, holder);
        PutKeeps(d.queue, holder, e.at + ttl, holder);
        PutContents(d.queue, holder, e.at + ttl);
      case Release(holder) =>
        RemoveDistinct(s.queue, holder);
        RemoveContents(s.queue, holder);
      case Renew(_, _) =>
      case Sweep =>
    }
  }

  lemma StepKeepsBound(s: Slots, max: int, e: Event)
    requires Bounded(s, max, e.at)
    ensures Bounded(Step(s, max, e), max, e.at)
  {
    hide IndexOf, LiveQueue, Remove, Put;
    var d := LiveHolders(s.holders, e.at);
    if e.op.Acquire? {
      LeaseAdded(d, e.op.holder, e.op.leaseMs, e.at);
    } else if e.op.Renew? {
      LeaseAdded(d, e.op.holder, e.op.leaseMs, e.at);
    }
    SubsetSize(LiveHolders(d, e.at).Keys, d.Keys);
    if e.op.Release? {
      SubsetSize(LiveHolders(s.holders - {e.op.holder}, e.at).Keys, d.Keys);
    }
  }

  /** At most `max` live leases after every run. */
  lemma {:induction false} AtMostMax(s: Slots, max: int, start: int, run: seq<Event>, end: int)
    requires Bounded(s, max, start) && WellFormed(s, start) && InOrder(start, run, end)
    ensures Bounded(Run(s, max, run), max, end) && WellFormed(Run(s, max, run), end)
    decreases |run|
  {
    var next := if run == [] then end else run[0].at;
    LeasesLapse(s.holders, start, next);
    if run != [] {
      StepKeepsBound(s, max, run[0]);
      StepKeepsWellFormed(s, max, run[0]);
      AtMostMax(Step(s, max, run[0]), max, run[0].at, run[1..], end);
    }
  }

  // ---------- No overtaking ----------

  ghost predicate WaitsUntil(s: Slots, holder: string, at: int, until: int) {
    var q := LiveQueue(s.queue, at);
    Waits(q, holder) && q[IndexOf(q, holder)].until == until
  }

  ghost function PlaceInLine(s: Slots, holder: string, at: int): int {
    IndexOf(LiveQueue(s.queue, at), holder)
  }

  lemma TimeKeepsPlace(s: Slots, max: int, holder: string, at: int, later: int, until: int)
    requires WellFormed(s, at) && at <= later < until && WaitsUntil(s, holder, at, until)
    ensures WaitsUntil(s, holder, later, until)
    ensures PlaceInLine(s, holder, later) <= PlaceInLine(s, holder, at)
    ensures Eligible(s, max, holder, at) ==> Eligible(s, max, holder, later)
  {
    LiveQueueDistinct(s.queue, at);
    LiveQueueTwice(s.queue, at, later);
    LiveQueueIndex(LiveQueue(s.queue, at), holder, later);
    LeasesLapse(s.holders, at, later);
  }

  /** Between two live states of the key: the waiter keeps its place or moves up, and keeps
      the slot it may claim. */
  ghost predicate KeepsPlace(d: Slots, t: Slots, max: int, holder: string) {
    && Waits(d.queue, holder) && Waits(t.queue, holder)
    && t.queue[IndexOf(t.queue, holder)] == d.queue[IndexOf(d.queue, holder)]
    && IndexOf(t.queue, holder) <= IndexOf(d.queue, holder)
    && (IndexOf(d.queue, holder) < max - |d.holders| ==> IndexOf(t.queue, holder) < max - |t.holders|)
  }

  /** A grant to someone else uses a slot, and moves up whoever stood behind it. */
  lemma OtherGranted(d: Slots, max: int, holder: string, other: string, h: map<string, int>)
    requires DistinctPlaces(d.queue) && other != holder && Waits(d.queue, holder)
    requires if other in d.holders then !Waits(d.queue, other) else Admits(d, other, max)
    requires |h| <= |d.holders| + (if other in d.holders then 0 else 1)
    ensures KeepsPlace(d, Slots(h, Remove(d.queue, other)), max, holder)
  {
    RemoveIndex(d.queue, other, holder);
  }

  /** Nothing in `d` has lapsed. */
  ghost predicate Live(d: Slots, at: int) {
    && (forall x :: x in d.holders ==> d.holders[x] > at)
    && (forall p :: p in d.queue ==> p.until > at)
  }

  lemma DropIsLive(s: Slots, at: int)
    requires WellFormed(s, at)
    ensures Live(Drop(s, at), at) && WellFormed(Drop(s, at), at)
  {
    DropKeepsWellFormed(s, at);
    LiveQueueContents(s.queue, at);
  }

  lemma {:induction false} LiveQueueOfLive(q: seq<Place>, at: int)
    requires forall p :: p in q ==> p.until > at
    ensures LiveQueue(q, at) == q
  {
    if q != [] {
      assert q == q[..|q| - 1] + [q[|q| - 1]];
      LiveQueueOfLive(q[..|q| - 1], at);
    }
  }

  lemma HoldersDoNotWait(d: Slots, other: string, at: int)
    requires Live(d, at) && WellFormed(d, at) && other in d.holders
    ensures !Waits(d.queue, other)
  {
    assert forall i :: 0 <= i < |d.queue| ==> d.queue[i] in d.queue && d.queue[i].holder !in d.holders;
  }

  /** A refusal to someone else puts it, or keeps it, behind or in its own place. */
  lemma OtherRefused(d: Slots, max: int, holder: string, other: string, until: int, h: map<string, int>, at: int)
    requires DistinctPlaces(d.queue) && other != holder && Waits(d.queue, holder)
    requires d.queue[IndexOf(d.queue, holder)].until > at && |h| <= |d.holders|
    ensures KeepsPlace(d, Slots(h, LiveQueue(Put(d.queue, other, until), at)), max, holder)
  {
    PutKeeps(d.queue, other, until, holder);
    assert Put(d.queue, other, until)[IndexOf(d.queue, holder)].holder == holder;
    LiveQueueIndex(Put(d.queue, other, until), holder, at);
  }

  lemma OtherReleased(d: Slots, max: int, holder: string, other: string)
    requires DistinctPlaces(d.queue) && other != holder && Waits(d.queue, holder)
    ensures KeepsPlace(d, ReleaseOn(d, other), max, holder)
  {
    RemoveIndex(d.queue, other, holder);
    SubsetSize((d.holders - {other}).Keys, d.holders.Keys);
  }

  lemma OtherAcquires(d: Slots, o: SlotOptions, holder: string, other: string, at: int)
    requires Live(d, at) && WellFormed(d, at) && other != holder && Waits(d.queue, holder)
    ensures KeepsPlace(d, Drop(AcquireLive(d, other, o, at).0, at), o.max, holder)
  {
    hide IndexOf, LiveQueue, Remove, Put;
    if other in d.holders || Admits(d, other, o.max) {
      if other in d.holders {
        HoldersDoNotWait(d, other, at);
      }
      LeaseAdded(d.holders, other, o.leaseMs, at);
      OtherGranted(d, o.max, holder, other, LiveHolders(d.holders[other := at + o.leaseMs], at));
      RemoveContents(d.queue, other);
      LiveQueueOfLive(Remove(d.queue, other), at);
    } else {
      SubsetSize(LiveHolders(d.holders, at).Keys, d.holders.Keys);
      assert d.queue[IndexOf(d.queue, holder)] in d.queue;
      OtherRefused(d, o.max, holder, other, at + o.queueTtlMs, LiveHolders(d.holders, at), at);
    }
  }

  /** A renewal, or a sweep, by someone else leaves the line alone and takes no slot. */
  lemma OtherRenews(d: Slots, max: int, holder: string, other: string, leaseMs: int, at: int)
    requires Live(d, at) && Waits(d.queue, holder)
    ensures KeepsPlace(d, Drop(d, at), max, holder)
    ensures other in d.holders ==>
              KeepsPlace(d, Drop(Slots(d.holders[other := at + leaseMs], d.queue), at), max, holder)
  {
    LeaseAdded(d.holders, other, leaseMs, at);
    LiveQueueOfLive(d.queue, at);
    SubsetSize(LiveHolders(d.holders, at).Keys, d.holders.Keys);
  }

  lemma OthersKeepLivePlace(s: Slots, max: int, holder: string, e: Event)
    requires WellFormed(s, e.at) && !By(holder, e.op) && Waits(Drop(s, e.at).queue, holder)
    ensures KeepsPlace(Drop(s, e.at), Drop(Step(s, max, e), e.at), max, holder)
  {
    hide IndexOf, LiveQueue, Remove, Put, LiveHolders;
    var at, d := e.at, Drop(s, e.at);
    DropIsLive(s, at);
    if e.op.Acquire? {
      OtherAcquires(d, SlotOptions(max, e.op.leaseMs, e.op.queueTtlMs), holder, e.op.holder, at);
    } else if e.op.Release? {
      ReleaseOnLive(s, e.op.holder, at);
      OtherReleased(d, max, holder, e.op.holder);
    } else {
      OtherRenews(d, max, holder, if e.op.Renew? then e.op.holder else holder,
                  if e.op.Renew? then e.op.leaseMs else 0, at);
    }
  }

  /** No step of anyone else moves a live waiter back, or takes the slot it may claim. */
  lemma OthersKeepPlace(s: Slots, max: int, holder: string, until: int, e: Event)
    requires WellFormed(s, e.at) && !By(holder, e.op) && WaitsUntil(s, holder, e.at, until)
    ensures WaitsUntil(Step(s, max, e), holder, e.at, until)
    ensures PlaceInLine(Step(s, max, e), holder, e.at) <= PlaceInLine(s, holder, e.at)
    ensures Eligible(s, max, holder, e.at) ==> Eligible(Step(s, max, e), max, holder, e.at)
  {
    OthersKeepLivePlace(s, max, holder, e);
  }

  lemma LeaseAdded(h: map<string, int>, holder: string, leaseMs: int, at: int)
    ensures |LiveHolders(h[holder := at + leaseMs], at)| <= |h| + (if holder in h then 0 else 1)
  {
    SubsetSize(LiveHolders(h[holder := at + leaseMs], at).Keys, h.Keys + {holder});
    if holder in h {
      assert h.Keys + {holder} == h.Keys;
    }
  }

  /** The waiter's place over a whole run of everybody else, until its place lapses: it never
      moves back, and once it lies within the free slots the waiter's next ask is granted. */
  lemma {:induction false} NoOvertaking(s: Slots, max: int, holder: string, start: int, run: seq<Event>, end: int, until: int)
    requires WellFormed(s, start) && InOrder(start, run, end) && end < until
    requires forall e :: e in run ==> !By(holder, e.op)
    requires WaitsUntil(s, holder, start, until)
    ensures WaitsUntil(Run(s, max, run), holder, end, until)
    ensures PlaceInLine(Run(s, max, run), holder, end) <= PlaceInLine(s, holder, start)
    ensures Eligible(s, max, holder, start) ==> Eligible(Run(s, max, run), max, holder, end)
    ensures forall o: SlotOptions :: Eligible(s, max, holder, start) && o.max == max ==>
              AcquireOn(Run(s, max, run), holder, o, end).1
    decreases |run|
  {
    if run == [] {
      TimeKeepsPlace(s, max, holder, start, end, until);
    } else {
      var at := run[0].at;
      InOrderBounds(start, run, end);
      TimeKeepsPlace(s, max, holder, start, at, until);
      OthersKeepPlace(s, max, holder, until, run[0]);
      StepKeepsWellFormed(s, max, run[0]);
      NoOvertaking(Step(s, max, run[0]), max, holder, at, run[1..], end, until);
    }
  }

  lemma {:induction false} InOrderBounds(start: int, run: seq<Event>, end: int)
    requires InOrder(start, run, end)
    ensures start <= end && forall e :: e in run ==> start <= e.at <= end
    decreases |run|
  {
    if run != [] {
      InOrderBounds(run[0].at, run[1..], end);
    }
  }

  /** Who is served before a live waiter without having been ahead of it in line leaves it a
      slot of its own: the waiter could have had one before, and still can. */
  lemma ServedOutOfTurn(s: Slots, o: SlotOptions, holder: string, other: string, at: int, until: int)
    requires WellFormed(s, at) && holder != other && WaitsUntil(s, holder, at, until)
    requires other !in LiveHolders(s.holders, at) && AcquireOn(s, other, o, at).1
    requires Waits(LiveQueue(s.queue, at), other) ==> PlaceInLine(s, holder, at) < PlaceInLine(s, other, at)
    ensures Eligible(s, o.max, holder, at)
    ensures Eligible(AcquireOn(s, other, o, at).0, o.max, holder, at)
  {
    OthersKeepPlace(s, o.max, holder, until, Event(at, Acquire(other, o.leaseMs, o.queueTtlMs)));
  }

  // ---------- From an empty store ----------

  ghost predicate NeverOver(max: int) {
    forall start, run, end :: InOrder(start, run, end) ==> Bounded(Run(NO_SLOTS, max, run), max, end)
  }

  /** Over every run of a new semaphore at most `max` leases live, if and only if the limit is not negative. */
  lemma AtMostMaxIff(max: int)
    ensures NeverOver(max) <==> 0 <= max
  {
    hide Step, LiveHolders, WellFormed;
    NoSlotsHeld(max);
    if 0 <= max {
      forall start, run, end | InOrder(start, run, end)
        ensures Bounded(Run(NO_SLOTS, max, run), max, end)
      {
        NoSlotsWellFormed(start);
        AtMostMax(NO_SLOTS, max, start, run, end);
      }
    } else {
      var none: seq<Event> := [];
      assert InOrder(0, none, 0);
      assert Run(NO_SLOTS, max, none) == NO_SLOTS;
      assert !Bounded(Run(NO_SLOTS, max, none), max, 0);
    }
  }

  lemma NoSlotsHeld(max: int)
    ensures forall at :: Bounded(NO_SLOTS, max, at) <==> 0 <= max
  {
    forall at
      ensures Bounded(NO_SLOTS, max, at) <==> 0 <= max
    {
      assert LiveHolders(map[], at) == map[];
    }
  }

  lemma NoSlotsWellFormed(at: int)
    ensures WellFormed(NO_SLOTS, at)
  {
  }

  lemma {:induction false} RunKeepsWellFormed(s: Slots, max: int, start: int, run: seq<Event>, end: int)
    requires WellFormed(s, start) && InOrder(start, run, end)
    ensures WellFormed(Run(s, max, run), end)
    decreases |run|
  {
    hide Step;
    var next := if run == [] then end else run[0].at;
    WellFormedLater(s, start, next);
    if run != [] {
      StepKeepsWellFormed(s, max, run[0]);
      RunKeepsWellFormed(Step(s, max, run[0]), max, run[0].at, run[1..], end);
    }
  }

  lemma WellFormedLater(s: Slots, at: int, later: int)
    requires WellFormed(s, at) && at <= later
    ensures WellFormed(s, later)
  {
    LeasesLapse(s.holders, at, later);
  }

  /** A waiter of a new semaphore, after any history: through a whole run of everybody else its place never
      moves back, and once within the free slots its next ask is granted. */
  lemma NeverOvertaken(max: int, history: seq<Event>, holder: string, began: int, start: int, run: seq<Event>, end: int, until: int)
    requires InOrder(began, history, start) && InOrder(start, run, end) && end < until
    requires forall e :: e in run ==> !By(holder, e.op)
    requires WaitsUntil(Run(NO_SLOTS, max, history), holder, start, until)
    ensures var s := Run(NO_SLOTS, max, history);
            && WaitsUntil(Run(s, max, run), holder, end, until)
            && PlaceInLine(Run(s, max, run), holder, end) <= PlaceInLine(s, holder, start)
            && forall o: SlotOptions :: Eligible(s, max, holder, start) && o.max == max ==>
                 AcquireOn(Run(s, max, run), holder, o, end).1
  {
    hide Step, WellFormed, WaitsUntil, Eligible, AcquireOn, PlaceInLine;
    NoSlotsWellFormed(began);
    RunKeepsWellFormed(NO_SLOTS, max, began, history, start);
    NoOvertaking(Run(NO_SLOTS, max, history), max, holder, start, run, end, until);
  }
}
