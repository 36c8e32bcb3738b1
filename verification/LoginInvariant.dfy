/** What every run of login attempts keeps: each window's count is the takes recorded for it, each attempt
    holds the take that was counted for it, and every refund is on its way to where its own was counted. */
module LoginInvariant {
  import opened Wrappers
  import opened Backends
  import opened WindowCounter
  import opened LoginGuard

  // ---------- The record of counted takes ----------

  /** The takes counted in one window and not given back. */
  ghost function Outstanding(charges: seq<Charge>, store: Store, key: string, id: nat): set<nat> {
    set n | 0 <= n < |charges| && charges[n].store == store && charges[n].key == key && charges[n].id == id
            && !charges[n].givenBack
  }

  lemma OutstandingGrows(charges: seq<Charge>, c: Charge, store: Store, key: string, id: nat)
    requires !c.givenBack
    ensures Outstanding(charges + [c], store, key, id)
         == Outstanding(charges, store, key, id) + (if c.store == store && c.key == key && c.id == id then {|charges|} else {})
  {
  }

  lemma OutstandingShrinks(charges: seq<Charge>, n: nat, store: Store, key: string, id: nat)
    requires n < |charges|
    ensures Outstanding(charges[n := charges[n].(givenBack := true)], store, key, id)
         == Outstanding(charges, store, key, id) - {n}
    ensures n in Outstanding(charges, store, key, id)
       <==> charges[n].store == store && charges[n].key == key && charges[n].id == id && !charges[n].givenBack
  {
  }

  lemma OutstandingKeeps(charges: seq<Charge>, n: nat, store: Store, key: string, id: nat)
    requires n < |charges|
    ensures Outstanding(charges[n := charges[n].(abandoned := true)], store, key, id)
         == Outstanding(charges, store, key, id)
  {
  }

  /** A window's count is the number of takes recorded for it and not given back. */
  ghost predicate CountsRecorded(c: Counter, charges: seq<Charge>, store: Store) {
    forall key :: key in c.entries ==> c.entries[key].count == |Outstanding(charges, store, key, c.entries[key].id)|
  }

  /** Window ids are handed out in order, so one that is over never comes back. */
  ghost predicate IdsBelow(c: Counter, charges: seq<Charge>, store: Store) {
    && (forall key :: key in c.entries ==> c.entries[key].id <= c.last)
    && (forall n :: 0 <= n < |charges| && charges[n].store == store ==> charges[n].id <= c.last)
  }

  ghost predicate WindowBounded(charges: seq<Charge>, store: Store, key: string, id: nat, max: int) {
    |Outstanding(charges, store, key, id)| <= Max(0, max)
  }

  ghost predicate StoreRecorded(w: World, store: Store) {
    CountsRecorded(In(w, store), w.charges, store) && IdsBelow(In(w, store), w.charges, store)
  }

  ghost predicate Recorded(w: World, max: int) {
    && (forall store :: StoreRecorded(w, store))
    && (forall store, key, id :: WindowBounded(w.charges, store, key, id, max))
  }

  /** What a take does to the counter: one more in the live window or in a new one, or nothing. */
  lemma TakeEffect(c: Counter, key: string, limit: Limit, now: int)
    ensures var (c', id) := TakeAttempt(c, key, limit, now);
            var live := LiveWindow(c.entries, key, now);
            && c.last <= c'.last
            && (forall k :: k in c'.entries && k != key ==> k in c.entries && c'.entries[k] == c.entries[k])
            && (id.None? <==> CountIn(live) + 1 > limit.maxAttempts)
            && (id.None? ==> c'.last == c.last && c'.entries == Read(c.entries, key, now))
            && (id.Some? ==> key in c'.entries && c'.entries[key].id == id.value && c'.entries[key].count == CountIn(live) + 1)
            && (id.Some? ==> id.value == if live.Some? then live.value.id else c.last + 1)
            && (id.Some? && live.None? ==> c'.last == c.last + 1)
  {
    TakeOneKey(c, key, WindowOptions(limit.maxAttempts, limit.windowMs, 1, 0), now);
    hide TakeOn;
  }

  lemma CountTakeKeepsStore(w: World, store: Store, key: string, attempt: string, abandoned: bool, limit: Limit, s: Store)
    requires StoreRecorded(w, s) && StoreRecorded(w, store)
    ensures StoreRecorded(CountTake(w, store, key, attempt, abandoned, limit).0, s)
  {
    var w' := CountTake(w, store, key, attempt, abandoned, limit).0;
    var c := In(w, store);
    var id := TakeAttempt(c, key, limit, w.now).1;
    TakeEffect(c, key, limit, w.now);
    hide TakeAttempt;
    forall k | k in In(w', s).entries
      ensures In(w', s).entries[k].count == |Outstanding(w'.charges, s, k, In(w', s).entries[k].id)|
    {
      if id.Some? {
        OutstandingGrows(w.charges, Charge(store, key, id.value, attempt, abandoned, false), s, k, In(w', s).entries[k].id);
        if s == store && k == key && LiveWindow(c.entries, key, w.now).None? {
          assert Outstanding(w.charges, s, k, c.last + 1) == {};
        }
      }
    }
  }

  lemma CountTakeKeepsBound(w: World, store: Store, key: string, attempt: string, abandoned: bool, limit: Limit,
                            s: Store, k: string, id: nat)
    requires StoreRecorded(w, store) && WindowBounded(w.charges, s, k, id, limit.maxAttempts)
    ensures WindowBounded(CountTake(w, store, key, attempt, abandoned, limit).0.charges, s, k, id, limit.maxAttempts)
  {
    var c := In(w, store);
    TakeEffect(c, key, limit, w.now);
    var got := TakeAttempt(c, key, limit, w.now).1;
    hide TakeAttempt;
    if got.Some? {
      OutstandingGrows(w.charges, Charge(store, key, got.value, attempt, abandoned, false), s, k, id);
      if LiveWindow(c.entries, key, w.now).None? {
        assert Outstanding(w.charges, store, key, c.last + 1) == {};
      }
    }
  }

  lemma CountTakeKeepsRecorded(w: World, store: Store, key: string, attempt: string, abandoned: bool, limit: Limit)
    requires Recorded(w, limit.maxAttempts)
    ensures Recorded(CountTake(w, store, key, attempt, abandoned, limit).0, limit.maxAttempts)
  {
    hide CountTake, StoreRecorded, WindowBounded;
    forall s
      ensures StoreRecorded(CountTake(w, store, key, attempt, abandoned, limit).0, s)
    {
      CountTakeKeepsStore(w, store, key, attempt, abandoned, limit, s);
    }
    forall s, k, id
      ensures WindowBounded(CountTake(w, store, key, attempt, abandoned, limit).0.charges, s, k, id, limit.maxAttempts)
    {
      CountTakeKeepsBound(w, store, key, attempt, abandoned, limit, s, k, id);
    }
  }

  /** The charge a refund gives back: counted in the window it names, and still counting. */
  ghost predicate Owns(w: World, n: nat, store: Store, key: string, id: nat, attempt: string) {
    n < |w.charges| && w.charges[n] == Charge(store, key, id, attempt, false, false)
  }

  lemma RefundEffect(c: Counter, key: string, id: nat, now: int)
    ensures var c' := RefundOn(c, key, id, now);
            var live := LiveWindow(c.entries, key, now);
            && c'.last == c.last
            && (forall k :: k in c'.entries ==> k in c.entries && c'.entries[k].id == c.entries[k].id)
            && (forall k :: k in c'.entries && k != key ==> c'.entries[k] == c.entries[k])
            && (live.Some? && live.value.id == id ==> key in c'.entries && c'.entries[key].count == Max(0, live.value.count - 1))
            && (key in c'.entries && !(live.Some? && live.value.id == id) ==> c'.entries[key] == c.entries[key])
  {
  }

  lemma RefundedKeepsKey(w: World, store: Store, key: string, id: nat, charge: nat, attempt: string, s: Store, k: string)
    requires StoreRecorded(w, s) && StoreRecorded(w, store) && Owns(w, charge, store, key, id, attempt)
    requires k in In(Refunded(w, store, key, id, charge), s).entries
    ensures var w' := Refunded(w, store, key, id, charge);
            In(w', s).entries[k].count == |Outstanding(w'.charges, s, k, In(w', s).entries[k].id)|
  {
    var w' := Refunded(w, store, key, id, charge);
    RefundEffect(In(w, store), key, id, w.now);
    hide RefundOn, Outstanding;
    OutstandingShrinks(w.charges, charge, s, k, In(w', s).entries[k].id);
  }

  lemma RefundedKeepsStore(w: World, store: Store, key: string, id: nat, charge: nat, attempt: string, s: Store)
    requires StoreRecorded(w, s) && StoreRecorded(w, store) && Owns(w, charge, store, key, id, attempt)
    ensures StoreRecorded(Refunded(w, store, key, id, charge), s)
  {
    var w' := Refunded(w, store, key, id, charge);
    RefundEffect(In(w, store), key, id, w.now);
    hide RefundOn;
    forall k | k in In(w', s).entries
      ensures In(w', s).entries[k].count == |Outstanding(w'.charges, s, k, In(w', s).entries[k].id)|
    {
      RefundedKeepsKey(w, store, key, id, charge, attempt, s, k);
    }
    assert IdsBelow(In(w, s), w.charges, s);
    hide Outstanding;
  }

  lemma RefundedKeepsRecorded(w: World, store: Store, key: string, id: nat, charge: nat, attempt: string, max: int)
    requires Recorded(w, max) && Owns(w, charge, store, key, id, attempt)
    ensures Recorded(Refunded(w, store, key, id, charge), max)
  {
    forall s
      ensures StoreRecorded(Refunded(w, store, key, id, charge), s)
    {
      RefundedKeepsStore(w, store, key, id, charge, attempt, s);
    }
    hide RefundOn, StoreRecorded;
    forall s, k, i
      ensures WindowBounded(Refunded(w, store, key, id, charge).charges, s, k, i, max)
    {
      assert WindowBounded(w.charges, s, k, i, max);
      OutstandingShrinks(w.charges, charge, s, k, i);
    }
  }

  lemma AbandonedKeepsRecorded(w: World, counting: Option<Counting>, max: int)
    requires Recorded(w, max)
    ensures Recorded(Abandoned(w, counting), max)
  {
    var w' := Abandoned(w, counting);
    if counting.Some? && counting.value.charge < |w.charges| {
      forall s
        ensures StoreRecorded(w', s)
      {
        assert StoreRecorded(w, s);
        forall k | k in In(w', s).entries
          ensures In(w', s).entries[k].count == |Outstanding(w'.charges, s, k, In(w', s).entries[k].id)|
        {
          OutstandingKeeps(w.charges, counting.value.charge, s, k, In(w', s).entries[k].id);
        }
      }
      forall s, k, i
        ensures WindowBounded(w'.charges, s, k, i, max)
      {
        assert WindowBounded(w.charges, s, k, i, max);
        OutstandingKeeps(w.charges, counting.value.charge, s, k, i);
      }
    }
  }

  /** A read, a mark or a sweep changes no count and brings no window back. */
  lemma HousekeepingKeepsRecorded(w: World, store: Store, c: Counter, max: int)
    requires Recorded(w, max) && c.last == In(w, store).last
    requires c.entries.Keys <= In(w, store).entries.Keys
    requires forall k :: k in c.entries ==> c.entries[k].count == In(w, store).entries[k].count
    requires forall k :: k in c.entries ==> c.entries[k].id == In(w, store).entries[k].id
    ensures Recorded(WithCounter(w, store, c), max)
  {
    forall s
      ensures StoreRecorded(WithCounter(w, store, c), s)
    {
      assert StoreRecorded(w, s);
    }
  }

  // ---------- What each attempt holds ----------

  function ChargeOf(p: Phase): Option<nat> {
    match p
    case Served(_, _, Some(counting)) => Some(counting.charge)
    case Verifying(_, charge) => Some(charge)
    case Failed(_, charge) => Some(charge)
    case Succeeded(_, charge) => Some(charge)
    case Closed(charge) => Some(charge)
    case _ => None
  }

  /** The tag of a ticket names the store whose window it holds. */
  ghost predicate TicketNames(w: World, replica: string, ticket: Ticket, store: Store) {
    match ticket
    case LocalTicket(_) => store == Local(replica)
    case SharedTicket(generation, _) => store.Shared? && Names(w, replica, generation, store.backend)
  }

  ghost predicate HoldsTicket(w: World, attempt: string, ticket: Ticket, n: nat)
    requires attempt in w.attempts
  {
    var a := w.attempts[attempt];
    && n < |w.charges|
    && Owns(w, n, w.charges[n].store, a.key, ticket.id, attempt)
    && TicketNames(w, a.replica, ticket, w.charges[n].store)
  }

  ghost predicate AttemptHolds(w: World, attempt: string)
    requires attempt in w.attempts
  {
    var a := w.attempts[attempt];
    && a.replica in w.replicas
    && match a.phase {
         case Arrived => true
         case Refused => true
         case Sent(backend, generation) => Names(w, a.replica, generation, backend)
         case Served(backend, generation, counting) =>
           && Names(w, a.replica, generation, backend)
           && (counting.Some? ==> Owns(w, counting.value.charge, Shared(backend), a.key, counting.value.id, attempt))
         case Verifying(ticket, n) => HoldsTicket(w, attempt, ticket, n)
         case Failed(ticket, n) => HoldsTicket(w, attempt, ticket, n)
         case Succeeded(ticket, n) => HoldsTicket(w, attempt, ticket, n)
         case Closed(n) =>
           n < |w.charges| && w.charges[n].attempt == attempt && w.charges[n].key == a.key && !w.charges[n].abandoned
       }
  }

  /** A refund on its way goes to the store and window its own attempt was counted in. */
  ghost predicate MessageHolds(w: World, m: Message) {
    && m.attempt in w.attempts
    && (m.Refund? ==>
          var p := w.attempts[m.attempt].phase;
          p.Closed? && Owns(w, p.charge, Shared(m.backend), m.key, m.id, m.attempt))
  }

  /** Every take counted for an attempt that knows of it is the one that attempt holds. */
  ghost predicate ChargeHeld(w: World, n: nat)
    requires n < |w.charges|
  {
    var c := w.charges[n];
    && c.attempt in w.attempts
    && (c.abandoned || ChargeOf(w.attempts[c.attempt].phase) == Some(n))
    && (c.givenBack ==> w.attempts[c.attempt].phase.Closed?)
  }

  ghost predicate AttemptsHold(w: World) {
    forall h :: h in w.attempts ==> AttemptHolds(w, h)
  }

  ghost predicate MailHolds(w: World) {
    forall m :: m in w.mail ==> MessageHolds(w, m)
  }

  ghost predicate ChargesHeld(w: World) {
    forall n :: 0 <= n < |w.charges| ==> ChargeHeld(w, n)
  }

  ghost predicate Held(w: World) {
    InstalledNamed(w) && AttemptsHold(w) && MailHolds(w) && ChargesHeld(w)
  }

  ghost predicate Invariant(w: World, max: int) {
    Recorded(w, max) && Held(w)
  }

  /** What a step of attempt `h` leaves alone. */
  ghost predicate OnlyMoves(w: World, w': World, h: string) {
    && w.replicas.Keys <= w'.replicas.Keys
    && (forall p :: p in w.named ==> p in w'.named && w'.named[p] == w.named[p])
    && (forall g :: g in w.attempts ==> g in w'.attempts)
    && (forall g :: g in w'.attempts && g != h ==> g in w.attempts && w'.attempts[g] == w.attempts[g])
    && |w.charges| <= |w'.charges|
    && (forall n :: 0 <= n < |w.charges| && w.charges[n].attempt != h ==> w'.charges[n] == w.charges[n])
    && (forall n :: 0 <= n < |w'.charges| && w'.charges[n].attempt != h ==> n < |w.charges| && w'.charges[n] == w.charges[n])
  }

  lemma AttemptStays(w: World, w': World, h: string, g: string)
    requires OnlyMoves(w, w', h) && g != h && g in w'.attempts && AttemptsHold(w)
    ensures AttemptHolds(w', g)
  {
    assert AttemptHolds(w, g);
  }

  lemma MessageStays(w: World, w': World, h: string, m: Message)
    requires OnlyMoves(w, w', h) && MessageHolds(w, m) && (m.attempt != h || m.LateTake?)
    ensures MessageHolds(w', m)
  {
  }

  lemma ChargeStays(w: World, w': World, h: string, n: nat)
    requires OnlyMoves(w, w', h) && n < |w'.charges| && w'.charges[n].attempt != h && ChargesHeld(w)
    ensures ChargeHeld(w', n)
  {
    assert ChargeHeld(w, n);
  }

  /** If `h` is left holding what it should, so is everyone. */
  lemma MoveKeepsHeld(w: World, w': World, h: string)
    requires Held(w) && InstalledNamed(w') && OnlyMoves(w, w', h)
    requires h in w'.attempts ==> AttemptHolds(w', h)
    requires forall m :: m in w'.mail ==> (m in w.mail && (m.attempt != h || m.LateTake?)) || MessageHolds(w', m)
    requires forall n :: 0 <= n < |w'.charges| && w'.charges[n].attempt == h ==> ChargeHeld(w', n)
    ensures Held(w')
  {
    hide OnlyMoves, InstalledNamed, AttemptHolds, MessageHolds, ChargeHeld;
    forall g | g in w'.attempts
      ensures AttemptHolds(w', g)
    {
      if g != h {
        AttemptStays(w, w', h, g);
      }
    }
    forall m | m in w'.mail
      ensures MessageHolds(w', m)
    {
      if m in w.mail && (m.attempt != h || m.LateTake?) {
        MessageStays(w, w', h, m);
      }
    }
    forall n | 0 <= n < |w'.charges|
      ensures ChargeHeld(w', n)
    {
      if w'.charges[n].attempt != h {
        ChargeStays(w, w', h, n);
      }
    }
  }

  /** A take on the replica's own memory, by an attempt no charge is held for. */
  lemma AskLocallyKeepsHeld(w: World, h: string, limit: Limit)
    requires Held(w) && Known(w, h)
    requires forall n :: 0 <= n < |w.charges| && w.charges[n].attempt == h ==> w.charges[n].abandoned && !w.charges[n].givenBack
    requires forall m :: m in w.mail && m.attempt == h ==> m.LateTake?
    ensures Held(AskLocally(w, h, limit))
  {
    hide TakeAttempt, InstalledNamed;
    var w' := AskLocally(w, h, limit);
    assert InstalledNamed(w') by {
      SameInstalled(w, w');
    }
    assert AttemptHolds(w, h);
    forall n | 0 <= n < |w'.charges| && w'.charges[n].attempt == h
      ensures ChargeHeld(w', n)
    {
      if n < |w.charges| {
        assert ChargeHeld(w, n);
      }
    }
    MoveKeepsHeld(w, w', h);
  }

  lemma SameInstalled(w: World, w': World)
    requires InstalledNamed(w) && w'.replicas == w.replicas && w'.named == w.named
    ensures InstalledNamed(w')
  {
  }

  /** An attempt no charge is held for has none but abandoned ones, and no refund on its way. */
  lemma HoldsNone(w: World, h: string)
    requires Held(w) && h in w.attempts && ChargeOf(w.attempts[h].phase).None?
    ensures forall n :: 0 <= n < |w.charges| && w.charges[n].attempt == h ==> w.charges[n].abandoned && !w.charges[n].givenBack
    ensures forall m :: m in w.mail && m.attempt == h ==> m.LateTake?
  {
    forall n | 0 <= n < |w.charges| && w.charges[n].attempt == h
      ensures w.charges[n].abandoned && !w.charges[n].givenBack
    {
      assert ChargeHeld(w, n);
    }
    forall m | m in w.mail && m.attempt == h
      ensures m.LateTake?
    {
      assert MessageHolds(w, m);
    }
  }

  lemma AskKeepsHeld(w: World, h: string, limit: Limit)
    requires Held(w) && Enabled(w, Ask(h))
    ensures Held(Apply(w, Ask(h), limit))
  {
    hide TakeAttempt, InstalledNamed, AskLocally;
    var w' := Apply(w, Ask(h), limit);
    HoldsNone(w, h);
    if w.replicas[w.attempts[h].replica].backend.None? {
      AskLocallyKeepsHeld(w, h, limit);
    } else {
      SameInstalled(w, w');
      InstalledNames(w, w.attempts[h].replica);
      forall n | 0 <= n < |w'.charges| && w'.charges[n].attempt == h
        ensures ChargeHeld(w', n)
      {
        assert ChargeHeld(w, n);
      }
      MoveKeepsHeld(w, w', h);
    }
  }

  lemma InstalledNames(w: World, replica: string)
    requires InstalledNamed(w) && replica in w.replicas && w.replicas[replica].backend.Some?
    ensures Names(w, replica, w.replicas[replica].generation, w.replicas[replica].backend.value)
  {
  }

  lemma ServeKeepsHeld(w: World, h: string, limit: Limit)
    requires Held(w) && Enabled(w, Serve(h))
    ensures Held(Apply(w, Serve(h), limit))
  {
    hide TakeAttempt, InstalledNamed;
    var w' := Apply(w, Serve(h), limit);
    HoldsNone(w, h);
    SameInstalled(w, w');
    assert AttemptHolds(w, h);
    forall n | 0 <= n < |w'.charges| && w'.charges[n].attempt == h
      ensures ChargeHeld(w', n)
    {
      if n < |w.charges| {
        assert ChargeHeld(w, n);
      }
    }
    MoveKeepsHeld(w, w', h);
  }

  /** A step that changes only the phase of an attempt past its take. */
  lemma PhaseKeepsHeld(w: World, h: string, phase: Phase)
    requires Held(w) && h in w.attempts && !w.attempts[h].phase.Closed? && AttemptHolds(WithPhase(w, h, phase), h)
    requires ChargeOf(phase) == ChargeOf(w.attempts[h].phase)
    ensures Held(WithPhase(w, h, phase))
  {
    hide InstalledNamed;
    var w' := WithPhase(w, h, phase);
    SameInstalled(w, w');
    assert AttemptHolds(w, h);
    forall n | 0 <= n < |w'.charges| && w'.charges[n].attempt == h
      ensures ChargeHeld(w', n)
    {
      assert ChargeHeld(w, n);
    }
    forall m | m in w.mail && m.attempt == h
      ensures m.LateTake?
    {
      assert MessageHolds(w, m);
    }
    MoveKeepsHeld(w, w', h);
  }

  lemma AnswerKeepsHeld(w: World, h: string, limit: Limit)
    requires Held(w) && Enabled(w, Answer(h))
    ensures Held(Apply(w, Answer(h), limit))
  {
    assert AttemptHolds(w, h);
    PhaseKeepsHeld(w, h, Apply(w, Answer(h), limit).attempts[h].phase);
  }

  lemma JudgeKeepsHeld(w: World, h: string, ok: bool, limit: Limit)
    requires Held(w) && Enabled(w, Judge(h, ok))
    ensures Held(Apply(w, Judge(h, ok), limit))
  {
    assert AttemptHolds(w, h);
    PhaseKeepsHeld(w, h, Apply(w, Judge(h, ok), limit).attempts[h].phase);
  }

  lemma {:induction false} FailKeepsHeld(w: World, h: string, limit: Limit)
    requires Held(w) && Enabled(w, Fail(h))
    ensures Held(Apply(w, Fail(h), limit))
  {
    hide TakeAttempt, InstalledNamed, AskLocally;
    var p := w.attempts[h].phase;
    assert AttemptHolds(w, h);
    if p.Sent? {
      HoldsNone(w, h);
      var w1 := w.(mail := w.mail + {LateTake(p.backend, w.attempts[h].key, h)});
      SameInstalled(w, w1);
      forall n | 0 <= n < |w1.charges| && w1.charges[n].attempt == h
        ensures ChargeHeld(w1, n)
      {
        assert ChargeHeld(w, n);
      }
      MoveKeepsHeld(w, w1, h);
      AskLocallyKeepsHeld(w1, h, limit);
    } else {
      AbandonedKeepsHeld(w, h);
      AskLocallyKeepsHeld(WithPhase(Abandoned(w, p.counting), h, Arrived), h, limit);
      assert AskLocally(WithPhase(Abandoned(w, p.counting), h, Arrived), h, limit) == AskLocally(Abandoned(w, p.counting), h, limit) by {
        SamePhaseForgotten(Abandoned(w, p.counting), h, limit);
      }
    }
  }

  lemma {:induction false} SamePhaseForgotten(w: World, h: string, limit: Limit)
    requires h in w.attempts
    ensures AskLocally(WithPhase(w, h, Arrived), h, limit) == AskLocally(w, h, limit)
  {
    hide TakeAttempt;
    var a, b := AskLocally(WithPhase(w, h, Arrived), h, limit), AskLocally(w, h, limit);
    assert a.attempts == b.attempts;
  }

  lemma AbandonedKeepsHeld(w: World, h: string)
    requires Held(w) && Known(w, h) && w.attempts[h].phase.Served?
    ensures var w1 := WithPhase(Abandoned(w, w.attempts[h].phase.counting), h, Arrived);
            && Held(w1)
            && (forall n :: 0 <= n < |w1.charges| && w1.charges[n].attempt == h ==> w1.charges[n].abandoned && !w1.charges[n].givenBack)
            && (forall m :: m in w1.mail && m.attempt == h ==> m.LateTake?)
  {
    hide InstalledNamed;
    var w1 := WithPhase(Abandoned(w, w.attempts[h].phase.counting), h, Arrived);
    SameInstalled(w, w1);
    assert AttemptHolds(w, h);
    forall n | 0 <= n < |w1.charges| && w1.charges[n].attempt == h
      ensures ChargeHeld(w1, n) && w1.charges[n].abandoned && !w1.charges[n].givenBack
    {
      assert ChargeHeld(w, n);
    }
    forall m | m in w.mail && m.attempt == h
      ensures m.LateTake?
    {
      assert MessageHolds(w, m);
    }
    MoveKeepsHeld(w, w1, h);
  }

  /** Dropping what is on its way, or anything about the counters, concerns no attempt. */
  lemma UntouchedKeepsHeld(w: World, w': World)
    requires Held(w) && InstalledNamed(w') && w'.attempts == w.attempts && w'.charges == w.charges && w'.mail <= w.mail
    requires w.replicas.Keys <= w'.replicas.Keys && forall p :: p in w.named ==> p in w'.named && w'.named[p] == w.named[p]
    ensures Held(w')
  {
    hide InstalledNamed;
    forall h | h in w'.attempts
      ensures AttemptHolds(w', h)
    {
      assert AttemptHolds(w, h);
    }
    forall m | m in w'.mail
      ensures MessageHolds(w', m)
    {
      assert MessageHolds(w, m);
    }
    forall n | 0 <= n < |w'.charges|
      ensures ChargeHeld(w', n)
    {
      assert ChargeHeld(w, n);
    }
  }

  lemma CloseKeepsHeld(w: World, h: string)
    requires Held(w) && h in w.attempts && w.attempts[h].phase.Succeeded?
    ensures Held(WithPhase(w, h, Closed(w.attempts[h].phase.charge)))
    ensures forall m :: m in w.mail && m.attempt == h ==> m.LateTake?
  {
    hide InstalledNamed;
    var w' := WithPhase(w, h, Closed(w.attempts[h].phase.charge));
    SameInstalled(w, w');
    assert AttemptHolds(w, h);
    forall n | 0 <= n < |w'.charges| && w'.charges[n].attempt == h
      ensures ChargeHeld(w', n)
    {
      assert ChargeHeld(w, n);
    }
    forall m | m in w.mail && m.attempt == h
      ensures m.LateTake?
    {
      assert MessageHolds(w, m);
    }
    MoveKeepsHeld(w, w', h);
  }

  lemma RefundedKeepsHeld(w: World, h: string, store: Store, id: nat)
    requires Held(w) && h in w.attempts && w.attempts[h].phase.Closed?
    requires forall m :: m in w.mail && m.attempt == h ==> m.LateTake?
    requires Owns(w, w.attempts[h].phase.charge, store, w.attempts[h].key, id, h)
    ensures Held(Refunded(w, store, w.attempts[h].key, id, w.attempts[h].phase.charge))
  {
    hide InstalledNamed, RefundOn;
    var w' := Refunded(w, store, w.attempts[h].key, id, w.attempts[h].phase.charge);
    SameInstalled(w, w');
    assert AttemptHolds(w, h);
    forall n | 0 <= n < |w'.charges| && w'.charges[n].attempt == h
      ensures ChargeHeld(w', n)
    {
      assert ChargeHeld(w, n);
    }
    MoveKeepsHeld(w, w', h);
  }

  lemma SendRefundKeepsHeld(w: World, m: Message)
    requires Held(w) && MessageHolds(w, m)
    ensures Held(w.(mail := w.mail + {m}))
  {
    hide InstalledNamed, Owns;
    var w' := w.(mail := w.mail + {m});
    SameInstalled(w, w');
    UntouchedKeepsHeld(w, w'.(mail := w.mail));
    forall m' | m' in w'.mail
      ensures MessageHolds(w', m')
    {
      assert MessageHolds(w, m');
      SameOwner(w, w', m');
    }
    forall h | h in w'.attempts
      ensures AttemptHolds(w', h)
    {
      assert AttemptHolds(w'.(mail := w.mail), h);
      SameAttempt(w'.(mail := w.mail), w', h);
    }
    forall n | 0 <= n < |w'.charges|
      ensures ChargeHeld(w', n)
    {
      assert ChargeHeld(w, n);
    }
  }

  lemma SameOwner(w: World, w': World, m: Message)
    requires w'.attempts == w.attempts && w'.charges == w.charges && MessageHolds(w, m)
    ensures MessageHolds(w', m)
  {
  }

  lemma SameAttempt(w: World, w': World, h: string)
    requires w' == w.(mail := w'.mail) && h in w.attempts && AttemptHolds(w, h)
    ensures AttemptHolds(w', h)
  {
  }

  lemma GiveBackKeepsHeld(w: World, h: string, limit: Limit)
    requires Held(w) && Enabled(w, GiveBack(h))
    ensures Held(Apply(w, GiveBack(h), limit))
  {
    hide InstalledNamed, Refunded;
    var a := w.attempts[h];
    var closed := WithPhase(w, h, Closed(a.phase.charge));
    CloseKeepsHeld(w, h);
    assert AttemptHolds(w, h);
    match a.phase.ticket {
      case LocalTicket(id) => RefundedKeepsHeld(closed, h, Local(a.replica), id);
      case SharedTicket(generation, id) =>
        var i := w.replicas[a.replica];
        if i.backend.Some? && i.generation == generation {
          InstalledNames(w, a.replica);
          SendRefundKeepsHeld(closed, Message.Refund(i.backend.value, a.key, id, h));
        }
    }
  }

  lemma DeliverKeepsHeld(w: World, m: Message, limit: Limit)
    requires Held(w) && Enabled(w, Deliver(m))
    ensures Held(Apply(w, Deliver(m), limit))
  {
    hide InstalledNamed, Refunded, CountTake;
    var w1 := w.(mail := w.mail - {m});
    SameInstalled(w, w1);
    UntouchedKeepsHeld(w, w1);
    assert MessageHolds(w, m);
    match m {
      case LateTake(backend, key, h) => LateTakeKeepsHeld(w1, backend, key, h, limit);
      case Refund(backend, key, id, h) =>
        OneRefund(w, m);
        assert w.attempts[h].key == key by {
          assert AttemptHolds(w, h);
        }
        RefundedKeepsHeld(w1, h, Shared(backend), id);
    }
  }

  /** A refund is the only one of its attempt on its way. */
  lemma OneRefund(w: World, m: Message)
    requires MailHolds(w) && m in w.mail && m.Refund?
    ensures forall m' :: m' in w.mail - {m} && m'.attempt == m.attempt ==> m'.LateTake?
  {
    assert MessageHolds(w, m);
    forall m' | m' in w.mail - {m} && m'.attempt == m.attempt
      ensures m'.LateTake?
    {
      assert MessageHolds(w, m');
    }
  }

  lemma LateTakeKeepsHeld(w: World, backend: nat, key: string, h: string, limit: Limit)
    requires Held(w) && h in w.attempts
    ensures Held(CountTake(w, Shared(backend), key, h, true, limit).0)
  {
    hide InstalledNamed, TakeAttempt;
    var w' := CountTake(w, Shared(backend), key, h, true, limit).0;
    SameInstalled(w, w');
    assert AttemptHolds(w, h);
    forall n | 0 <= n < |w'.charges| && w'.charges[n].attempt == h
      ensures ChargeHeld(w', n)
    {
      if n < |w.charges| {
        assert ChargeHeld(w, n);
      }
    }
    forall m | m in w'.mail && m.attempt == h
      ensures MessageHolds(w', m)
    {
      assert MessageHolds(w, m);
    }
    MoveKeepsHeld(w, w', h);
  }

  lemma ArriveKeepsHeld(w: World, h: string, replica: string, key: string, limit: Limit)
    requires Held(w) && Enabled(w, Arrive(h, replica, key))
    ensures Held(Apply(w, Arrive(h, replica, key), limit))
  {
    hide InstalledNamed;
    var w' := Apply(w, Arrive(h, replica, key), limit);
    SameInstalled(w, w');
    forall n | 0 <= n < |w'.charges|
      ensures w'.charges[n].attempt != h
    {
      assert ChargeHeld(w, n);
    }
    forall m | m in w'.mail
      ensures m.attempt != h
    {
      assert MessageHolds(w, m);
    }
    MoveKeepsHeld(w, w', h);
  }

  lemma ApplyKeepsHeld(w: World, a: Action, limit: Limit)
    requires Held(w) && Enabled(w, a)
    ensures Held(Apply(w, a, limit))
  {
    hide InstalledNamed, AttemptsHold, MailHolds, ChargesHeld, PeekOn, MarkOn;
    match a {
      case Ask(h) => AskKeepsHeld(w, h, limit);
      case Serve(h) => ServeKeepsHeld(w, h, limit);
      case Answer(h) => AnswerKeepsHeld(w, h, limit);
      case Fail(h) => FailKeepsHeld(w, h, limit);
      case Judge(h, ok) => JudgeKeepsHeld(w, h, ok, limit);
      case GiveBack(h) => GiveBackKeepsHeld(w, h, limit);
      case Deliver(m) => DeliverKeepsHeld(w, m, limit);
      case Arrive(h, replica, key) => ArriveKeepsHeld(w, h, replica, key, limit);
      case Swap(_, _) =>
        SwapKeepsInstalled(w, a, limit);
        UntouchedKeepsHeld(w, Apply(w, a, limit));
      case _ =>
        SameInstalled(w, Apply(w, a, limit));
        UntouchedKeepsHeld(w, Apply(w, a, limit));
    }
  }

  lemma SwapKeepsInstalled(w: World, a: Action, limit: Limit)
    requires InstalledNamed(w) && Enabled(w, a) && a.Swap?
    ensures InstalledNamed(Apply(w, a, limit))
    ensures forall p :: p in w.named ==> p in Apply(w, a, limit).named && Apply(w, a, limit).named[p] == w.named[p]
  {
  }

  lemma ApplyKeepsRecorded(w: World, a: Action, limit: Limit)
    requires Invariant(w, limit.maxAttempts) && Enabled(w, a)
    ensures Recorded(Apply(w, a, limit), limit.maxAttempts)
  {
    hide CountTake, Refunded, Abandoned, AttemptHolds, Recorded, InstalledNamed, ChargesHeld;
    var max := limit.maxAttempts;
    var w' := Apply(w, a, limit);
    match a {
      case Ask(h) =>
        if w.replicas[w.attempts[h].replica].backend.None? {
          AskLocallyKeepsRecorded(w, h, limit);
        } else {
          SameRecord(w, w', max);
        }
      case Serve(h) =>
        CountTakeKeepsRecorded(w, Shared(w.attempts[h].phase.backend), w.attempts[h].key, h, false, limit);
        SameRecord(CountTake(w, Shared(w.attempts[h].phase.backend), w.attempts[h].key, h, false, limit).0, w', max);
      case Fail(h) =>
        var p := w.attempts[h].phase;
        if p.Sent? {
          var w1 := w.(mail := w.mail + {LateTake(p.backend, w.attempts[h].key, h)});
          SameRecord(w, w1, max);
          AskLocallyKeepsRecorded(w1, h, limit);
        } else {
          AbandonedKeepsRecorded(w, p.counting, max);
          AbandonedKeepsAttempts(w, p.counting);
          AskLocallyKeepsRecorded(Abandoned(w, p.counting), h, limit);
        }
      case GiveBack(h) => GivingBackKeepsRecorded(w, h, max);
      case Deliver(m) => DeliveredKeepsRecorded(w, m, limit);
      case Peek(store, key) => HousekeepingKeepsRecorded(w, store, w'.counters[store], max);
      case Mark(store, key) => HousekeepingKeepsRecorded(w, store, w'.counters[store], max);
      case Sweep(store) => HousekeepingKeepsRecorded(w, store, w'.counters[store], max);
      case _ => SameRecord(w, w', max);
    }
  }

  lemma SameRecord(w: World, w': World, max: int)
    requires Recorded(w, max) && w'.counters == w.counters && w'.charges == w.charges
    ensures Recorded(w', max)
  {
    forall store
      ensures StoreRecorded(w', store)
    {
      assert StoreRecorded(w, store);
    }
  }

  lemma AbandonedKeepsAttempts(w: World, counting: Option<Counting>)
    ensures Abandoned(w, counting).attempts == w.attempts
  {
  }

  lemma AskLocallyKeepsRecorded(w: World, h: string, limit: Limit)
    requires Recorded(w, limit.maxAttempts) && h in w.attempts
    ensures Recorded(AskLocally(w, h, limit), limit.maxAttempts)
  {
    hide CountTake, Recorded;
    var a := w.attempts[h];
    CountTakeKeepsRecorded(w, Local(a.replica), a.key, h, false, limit);
    SameRecord(CountTake(w, Local(a.replica), a.key, h, false, limit).0, AskLocally(w, h, limit), limit.maxAttempts);
  }

  lemma GivingBackKeepsRecorded(w: World, h: string, max: int)
    requires Invariant(w, max) && Enabled(w, GiveBack(h))
    ensures Recorded(GivingBack(w, h), max)
  {
    hide Refunded, Recorded, InstalledNamed, ChargesHeld, MailHolds;
    var a := w.attempts[h];
    assert AttemptHolds(w, h);
    var closed := WithPhase(w, h, Closed(a.phase.charge));
    SameRecord(w, closed, max);
    if a.phase.ticket.LocalTicket? {
      RefundedKeepsRecorded(closed, Local(a.replica), a.key, a.phase.ticket.id, a.phase.charge, h, max);
    } else {
      SameRecord(w, GivingBack(w, h), max);
    }
  }

  lemma DeliveredKeepsRecorded(w: World, m: Message, limit: Limit)
    requires Invariant(w, limit.maxAttempts) && m in w.mail
    ensures Recorded(Delivered(w, m, limit), limit.maxAttempts)
  {
    hide CountTake, Refunded, Recorded, InstalledNamed, ChargesHeld, AttemptsHold;
    var w1 := w.(mail := w.mail - {m});
    SameRecord(w, w1, limit.maxAttempts);
    assert MessageHolds(w, m);
    match m {
      case LateTake(backend, key, attempt) => CountTakeKeepsRecorded(w1, Shared(backend), key, attempt, true, limit);
      case Refund(backend, key, id, attempt) =>
        RefundedKeepsRecorded(w1, Shared(backend), key, id, w.attempts[attempt].phase.charge, attempt, limit.maxAttempts);
    }
  }

  lemma {:induction false} RunKeepsInvariant(w: World, run: seq<Action>, limit: Limit)
    requires Invariant(w, limit.maxAttempts) && Possible(w, run, limit)
    ensures Invariant(After(w, run, limit), limit.maxAttempts)
    decreases |run|
  {
    hide Apply, Enabled, Recorded, Held;
    if run != [] {
      ApplyKeepsRecorded(w, run[0], limit);
      ApplyKeepsHeld(w, run[0], limit);
      RunKeepsInvariant(Apply(w, run[0], limit), run[1..], limit);
    }
  }

  lemma InitInvariant(w: World, max: int)
    requires Init(w)
    ensures Invariant(w, max)
  {
    forall store, key, id
      ensures WindowBounded(w.charges, store, key, id, max)
    {
      assert Outstanding([], store, key, id) == {};
    }
  }
}
