/** How many passwords an address can guess (src/pages/plugins/auth-login.plugin.tsx:196-330), and where a
    refund lands (src/utils/shared-store.ts:540-558). */
module LoginBound {
  import opened Wrappers
  import opened Backends
  import opened WindowCounter
  import opened LoginGuard
  import opened LoginInvariant

  // ---------- The guessing bound ----------

  /** Whether the attempt was counted in this window and is failed, or still in flight. */
  predicate Guesses(w: World, h: string, store: Store, key: string, id: nat) {
    && h in w.attempts
    && var p := w.attempts[h].phase;
       && (p.Served? || p.Verifying? || p.Failed?)
       && ChargeOf(p).Some?
       && var n := ChargeOf(p).value;
          n < |w.charges| && w.charges[n].store == store && w.charges[n].key == key && w.charges[n].id == id
  }

  function Guessing(w: World, store: Store, key: string, id: nat): set<string> {
    set h | h in w.attempts && Guesses(w, h, store, key, id)
  }

  /** The takes counted in this window that no failed or in-flight attempt answers for. */
  ghost function Owed(w: World, store: Store, key: string, id: nat): set<nat> {
    set n | n in Outstanding(w.charges, store, key, id)
            && (n < |w.charges| ==> !(Guesses(w, w.charges[n].attempt, store, key, id)
                                      && ChargeOf(w.attempts[w.charges[n].attempt].phase) == Some(n)))
  }

  ghost function ChargeAt(w: World, h: string): nat {
    if h in w.attempts && ChargeOf(w.attempts[h].phase).Some? then ChargeOf(w.attempts[h].phase).value else 0
  }

  lemma GuessHolds(w: World, h: string, store: Store, key: string, id: nat)
    requires AttemptsHold(w) && Guesses(w, h, store, key, id)
    ensures ChargeAt(w, h) in Outstanding(w.charges, store, key, id)
    ensures w.charges[ChargeAt(w, h)].attempt == h
  {
    assert AttemptHolds(w, h);
  }

  lemma {:induction false} SameSize(hs: set<string>, ns: set<nat>, w: World)
    requires forall h :: h in hs ==> ChargeAt(w, h) in ns
    requires forall h :: h in hs ==> ChargeAt(w, h) < |w.charges| && w.charges[ChargeAt(w, h)].attempt == h
    requires forall n :: n in ns ==> n < |w.charges| && w.charges[n].attempt in hs && ChargeAt(w, w.charges[n].attempt) == n
    ensures |hs| == |ns|
    decreases |hs|
  {
    hide ChargeAt;
    if hs == {} {
      assert ns == {};
    } else {
      var h :| h in hs;
      SameSize(hs - {h}, ns - {ChargeAt(w, h)}, w);
    }
  }

  /** In any state: the takes counted in a window are one for each failed or in-flight attempt, and
      those owed back. */
  lemma CountedOrOwed(w: World, store: Store, key: string, id: nat)
    requires AttemptsHold(w)
    ensures |Outstanding(w.charges, store, key, id)| == |Guessing(w, store, key, id)| + |Owed(w, store, key, id)|
  {
    var guessing, owed, all := Guessing(w, store, key, id), Owed(w, store, key, id), Outstanding(w.charges, store, key, id);
    forall h | h in guessing
      ensures ChargeAt(w, h) in all - owed && w.charges[ChargeAt(w, h)].attempt == h
    {
      GuessHolds(w, h, store, key, id);
    }
    SameSize(guessing, all - owed, w);
    assert all == (all - owed) + owed;
  }

  /** However takes, failures, successes, refunds, backend changes and window ends interleave: at most
      `maxAttempts` attempts counted in one window of one store ever fail or are in flight, and the
      live window's count is those attempts and the takes still owed back. */
  lemma GuessingBound(init: World, run: seq<Action>, limit: Limit, store: Store, key: string, id: nat)
    requires Init(init) && Possible(init, run, limit)
    ensures var w := After(init, run, limit);
            var live := LiveWindow(In(w, store).entries, key, w.now);
            && |Guessing(w, store, key, id)| <= Max(0, limit.maxAttempts)
            && (live.Some? && live.value.id == id ==>
                  live.value.count == |Guessing(w, store, key, id)| + |Owed(w, store, key, id)|)
  {
    hide *;
    InitInvariant(init, limit.maxAttempts);
    RunKeepsInvariant(init, run, limit);
    BoundInState(After(init, run, limit), limit.maxAttempts, store, key, id);
  }

  lemma BoundInState(w: World, max: int, store: Store, key: string, id: nat)
    requires Invariant(w, max)
    ensures |Guessing(w, store, key, id)| <= Max(0, max)
    ensures var live := LiveWindow(In(w, store).entries, key, w.now);
            live.Some? && live.value.id == id ==>
              live.value.count == |Guessing(w, store, key, id)| + |Owed(w, store, key, id)|
  {
    hide Guessing, Owed, Outstanding, AttemptHolds;
    CountedOrOwed(w, store, key, id);
    assert StoreRecorded(w, store);
    assert WindowBounded(w.charges, store, key, id, max);
  }

  /** A take is owed back only for a call whose answer never came or a success whose refund has not
      landed: nothing is owed when neither happened, and the count is then exactly the guesses. */
  lemma OwedOnlyFor(init: World, run: seq<Action>, limit: Limit, store: Store, key: string, id: nat, n: nat)
    requires Init(init) && Possible(init, run, limit) && n in Owed(After(init, run, limit), store, key, id)
    ensures var w := After(init, run, limit);
            && n < |w.charges|
            && w.charges[n].attempt in w.attempts
            && (w.charges[n].abandoned
                || w.attempts[w.charges[n].attempt].phase.Succeeded? || w.attempts[w.charges[n].attempt].phase.Closed?)
  {
    hide After, Possible, Recorded;
    InitInvariant(init, limit.maxAttempts);
    RunKeepsInvariant(init, run, limit);
    var w := After(init, run, limit);
    assert ChargeHeld(w, n);
  }

  // ---------- Where a refund lands ----------

  /** The attempt whose refund a step serves. */
  function Refunder(a: Action): Option<string> {
    match a
    case GiveBack(h) => Some(h)
    case Deliver(Refund(_, _, _, h)) => Some(h)
    case _ => None
  }

  predicate HasCharge(w: World, h: string) {
    h in w.attempts && ChargeOf(w.attempts[h].phase).Some? && ChargeOf(w.attempts[h].phase).value < |w.charges|
  }

  ghost function WindowIn(w: World, store: Store, key: string): Option<Window> {
    LiveWindow(In(w, store).entries, key, w.now)
  }

  /** The live window is another one, or gone, or counts less. */
  ghost predicate LosesWeight(w: World, w': World, store: Store, key: string) {
    var before, after := WindowIn(w, store, key), WindowIn(w', store, key);
    before.Some? && (after.None? || after.value.id != before.value.id || after.value.count < before.value.count)
  }

  lemma TakeKeepsEnd(c: Counter, key: string, limit: Limit, now: int)
    ensures var c' := TakeAttempt(c, key, limit, now).0;
            && (forall k :: k in c.entries && k != key ==> k in c'.entries && c'.entries[k] == c.entries[k])
            && (LiveWindow(c.entries, key, now).Some? ==>
                  key in c'.entries && c'.entries[key].expiresAt == c.entries[key].expiresAt)
  {
    TakeOneKey(c, key, WindowOptions(limit.maxAttempts, limit.windowMs, 1, 0), now);
    hide TakeOn;
  }

  lemma TakeLosesNothing(w: World, s: Store, k: string, attempt: string, abandoned: bool, limit: Limit, store: Store, key: string)
    ensures !LosesWeight(w, CountTake(w, s, k, attempt, abandoned, limit).0, store, key)
  {
    TakeEffect(In(w, s), k, limit, w.now);
    TakeKeepsEnd(In(w, s), k, limit, w.now);
    hide TakeAttempt;
  }

  /** What a refund named by `id` does to the live window of `key`. */
  lemma RefundTakesOne(w: World, s: Store, k: string, id: nat, charge: nat, attempt: string, store: Store, key: string)
    requires StoreRecorded(w, s) && Owns(w, charge, s, k, id, attempt)
    requires LosesWeight(w, Refunded(w, s, k, id, charge), store, key)
    ensures s == store && k == key && WindowIn(w, store, key).value.id == id
    ensures WindowIn(Refunded(w, s, k, id, charge), store, key)
         == Some(WindowIn(w, store, key).value.(count := WindowIn(w, store, key).value.count - 1))
  {
    assert charge in Outstanding(w.charges, s, k, id);
  }

  /** The record of a take says it was given back only when its window lived to lose it. */
  lemma OnlyLiveGivesBack(w: World, s: Store, k: string, id: nat, charge: nat)
    ensures Refunded(w, s, k, id, charge).charges != w.charges ==> WindowIn(w, s, k).Some? && WindowIn(w, s, k).value.id == id
  {
  }

  ghost predicate LandsHome(w: World, a: Action, w': World, store: Store, key: string) {
    var before := WindowIn(w, store, key);
    && before.Some?
    && Refunder(a).Some? && HasCharge(w, Refunder(a).value)
    && w.charges[ChargeOf(w.attempts[Refunder(a).value].phase).value]
       == Charge(store, key, before.value.id, Refunder(a).value, false, false)
    && WindowIn(w', store, key) == Some(before.value.(count := before.value.count - 1))
  }

  lemma GiveBackLandsHome(w: World, h: string, limit: Limit, store: Store, key: string)
    requires Invariant(w, limit.maxAttempts) && Enabled(w, GiveBack(h))
    requires LosesWeight(w, Apply(w, GiveBack(h), limit), store, key)
    ensures LandsHome(w, GiveBack(h), Apply(w, GiveBack(h), limit), store, key)
  {
    hide InstalledNamed, ChargesHeld, MailHolds, Refunded, Recorded, StoreRecorded;
    var a := w.attempts[h];
    assert AttemptHolds(w, h);
    var closed := WithPhase(w, h, Closed(a.phase.charge));
    assert WindowIn(closed, store, key) == WindowIn(w, store, key);
    if a.phase.ticket.LocalTicket? {
      SameRecord(w, closed, limit.maxAttempts);
      RecordedAt(closed, limit.maxAttempts, Local(a.replica));
      RefundTakesOne(closed, Local(a.replica), a.key, a.phase.ticket.id, a.phase.charge, h, store, key);
    }
  }

  lemma RecordedAt(w: World, max: int, store: Store)
    requires Recorded(w, max)
    ensures StoreRecorded(w, store)
  {
  }

  lemma DeliverLandsHome(w: World, m: Message, limit: Limit, store: Store, key: string)
    requires Invariant(w, limit.maxAttempts) && m in w.mail
    requires LosesWeight(w, Delivered(w, m, limit), store, key)
    ensures LandsHome(w, Deliver(m), Delivered(w, m, limit), store, key)
  {
    hide InstalledNamed, ChargesHeld, AttemptsHold, Refunded, CountTake, Recorded, StoreRecorded;
    var w1 := w.(mail := w.mail - {m});
    assert WindowIn(w1, store, key) == WindowIn(w, store, key);
    assert MessageHolds(w, m);
    match m {
      case LateTake(backend, k, h) => TakeLosesNothing(w1, Shared(backend), k, h, true, limit, store, key);
      case Refund(backend, k, id, h) =>
        SameRecord(w, w1, limit.maxAttempts);
        RecordedAt(w1, limit.maxAttempts, Shared(backend));
        RefundTakesOne(w1, Shared(backend), k, id, w.attempts[h].phase.charge, h, store, key);
    }
  }

  lemma AskLosesNothing(w: World, h: string, limit: Limit, store: Store, key: string)
    requires h in w.attempts
    ensures !LosesWeight(w, AskLocally(w, h, limit), store, key)
  {
    hide CountTake;
    var a := w.attempts[h];
    TakeLosesNothing(w, Local(a.replica), a.key, h, false, limit, store, key);
  }

  lemma SameCounters(w: World, w1: World, w': World, store: Store, key: string)
    requires w1.counters == w.counters && w1.now == w.now && !LosesWeight(w1, w', store, key)
    ensures !LosesWeight(w, w', store, key)
  {
  }

  lemma OnlyRefundsLose(w: World, a: Action, limit: Limit, store: Store, key: string)
    requires Enabled(w, a) && !a.Tick? && !a.GiveBack? && !a.Deliver?
    ensures !LosesWeight(w, Apply(w, a, limit), store, key)
  {
    hide CountTake, AskLocally;
    match a {
      case Ask(h) => AskLosesNothing(w, h, limit, store, key);
      case Serve(h) => TakeLosesNothing(w, Shared(w.attempts[h].phase.backend), w.attempts[h].key, h, false, limit, store, key);
      case Fail(h) =>
        var p := w.attempts[h].phase;
        var w1 := if p.Sent? then w.(mail := w.mail + {LateTake(p.backend, w.attempts[h].key, h)}) else Abandoned(w, p.counting);
        AskLosesNothing(w1, h, limit, store, key);
        SameCounters(w, w1, AskLocally(w1, h, limit), store, key);
      case _ =>
    }
  }

  /** A live window loses weight only to a refund of an attempt counted in that very window of that very
      store, and then exactly its one; a login that straddles a window's end or a change of backend takes
      nothing from another window. */
  lemma RefundLandsHome(init: World, run: seq<Action>, limit: Limit, a: Action, store: Store, key: string)
    requires Init(init) && Possible(init, run, limit) && Enabled(After(init, run, limit), a) && !a.Tick?
    requires LosesWeight(After(init, run, limit), Apply(After(init, run, limit), a, limit), store, key)
    ensures LandsHome(After(init, run, limit), a, Apply(After(init, run, limit), a, limit), store, key)
  {
    hide After, Possible, Invariant, LosesWeight, LandsHome, AskLocally, GivingBack, Delivered;
    InitInvariant(init, limit.maxAttempts);
    RunKeepsInvariant(init, run, limit);
    var w := After(init, run, limit);
    match a {
      case GiveBack(h) => GiveBackLandsHome(w, h, limit, store, key);
      case Deliver(m) => DeliverLandsHome(w, m, limit, store, key);
      case _ => OnlyRefundsLose(w, a, limit, store, key);
    }
  }

  // ---------- Refunds that arrive late ----------

  lemma MailStays(w: World, a: Action, limit: Limit, m: Message)
    requires Enabled(w, a) && m in w.mail && a != Deliver(m) && a != Lose(m)
    ensures m in Apply(w, a, limit).mail
  {
    hide TakeAttempt, RefundOn, PeekOn, MarkOn;
  }

  lemma {:induction false} MailStaysAlong(w: World, run: seq<Action>, limit: Limit, m: Message)
    requires Possible(w, run, limit) && m in w.mail && Deliver(m) !in run && Lose(m) !in run
    ensures m in After(w, run, limit).mail
    decreases |run|
  {
    hide Apply, Enabled;
    if run != [] {
      MailStays(w, run[0], limit, m);
      MailStaysAlong(Apply(w, run[0], limit), run[1..], limit, m);
    }
  }

  /** Whenever a refund arrives, the window it names gives back exactly one if it still lives, and any
      other window is left as it is. */
  lemma RefundLands(w: World, limit: Limit, m: Message, key: string)
    requires Invariant(w, limit.maxAttempts) && m in w.mail && m.Refund?
    ensures var before, after := WindowIn(w, Shared(m.backend), key), WindowIn(Delivered(w, m, limit), Shared(m.backend), key);
            if key == m.key && before.Some? && before.value.id == m.id then
              after == Some(before.value.(count := before.value.count - 1))
            else after == before
  {
    hide InstalledNamed, ChargesHeld, AttemptsHold, CountTake, Recorded, Owns;
    assert MessageHolds(w, m);
    RecordedAt(w, limit.maxAttempts, Shared(m.backend));
    IsOutstanding(w, m);
  }

  lemma IsOutstanding(w: World, m: Message)
    requires m.Refund? && MessageHolds(w, m)
    ensures var n := w.attempts[m.attempt].phase.charge;
            n < |w.charges| && n in Outstanding(w.charges, Shared(m.backend), m.key, m.id)
  {
  }

  /** The refund of a success counted in a shared store. */
  function RefundOf(w: World, h: string): Message
    requires Known(w, h) && w.attempts[h].phase.Succeeded? && w.attempts[h].phase.charge < |w.charges|
    requires w.charges[w.attempts[h].phase.charge].store.Shared?
  {
    var a := w.attempts[h];
    Message.Refund(w.charges[a.phase.charge].store.backend, a.key, a.phase.ticket.id, h)
  }

  /** Whether the backend that counted the attempt is still the one installed. */
  predicate StillInstalled(w: World, h: string)
    requires Known(w, h) && w.attempts[h].phase.Succeeded?
  {
    var a := w.attempts[h];
    var i := w.replicas[a.replica];
    a.phase.ticket.SharedTicket? && i.backend.Some? && i.generation == a.phase.ticket.generation
  }

  lemma GiveBackSends(w: World, h: string, limit: Limit)
    requires Invariant(w, limit.maxAttempts) && Enabled(w, GiveBack(h)) && StillInstalled(w, h)
    ensures w.attempts[h].phase.charge < |w.charges| && w.charges[w.attempts[h].phase.charge].store.Shared?
    ensures RefundOf(w, h) in Apply(w, GiveBack(h), limit).mail
  {
    hide ChargesHeld, MailHolds, Recorded;
    assert AttemptHolds(w, h);
  }

  /** A success counted in a shared store sends its refund there, while that is installed; however long it
      is under way, its own window gives back exactly that one if it lives when the refund arrives. */
  lemma SuccessGivesBack(init: World, history: seq<Action>, limit: Limit, h: string, later: seq<Action>)
    requires Init(init) && Possible(init, history, limit) && Enabled(After(init, history, limit), GiveBack(h))
    requires Possible(Apply(After(init, history, limit), GiveBack(h), limit), later, limit)
    requires StillInstalled(After(init, history, limit), h)
    ensures var w := After(init, history, limit);
            var n := w.attempts[h].phase.charge;
            n < |w.charges| && w.charges[n].store.Shared? && w.charges[n].key == w.attempts[h].key
    ensures var w := After(init, history, limit);
            var arriving := After(Apply(w, GiveBack(h), limit), later, limit);
            var m := RefundOf(w, h);
            Deliver(m) !in later && Lose(m) !in later ==>
              && m in arriving.mail
              && var before := WindowIn(arriving, Shared(m.backend), m.key);
                 before.Some? && before.value.id == m.id ==>
                   WindowIn(Delivered(arriving, m, limit), Shared(m.backend), m.key)
                   == Some(before.value.(count := before.value.count - 1))
  {
    hide After, Apply, Invariant, Init, Possible, WindowIn, Delivered;
    InitInvariant(init, limit.maxAttempts);
    RunKeepsInvariant(init, history, limit);
    var w := After(init, history, limit);
    GiveBackSends(w, h, limit);
    HoldsOwnKey(w, h, limit.maxAttempts);
    var m := RefundOf(w, h);
    if Deliver(m) !in later && Lose(m) !in later {
      var sent := Apply(w, GiveBack(h), limit);
      ApplyKeepsInvariant(w, GiveBack(h), limit);
      MailStaysAlong(sent, later, limit, m);
      RunKeepsInvariant(sent, later, limit);
      RefundLands(After(sent, later, limit), limit, m, m.key);
    }
  }

  lemma ApplyKeepsInvariant(w: World, a: Action, limit: Limit)
    requires Invariant(w, limit.maxAttempts) && Enabled(w, a)
    ensures Invariant(Apply(w, a, limit), limit.maxAttempts)
  {
    hide Recorded, Held;
    ApplyKeepsRecorded(w, a, limit);
    ApplyKeepsHeld(w, a, limit);
  }

  lemma HoldsOwnKey(w: World, h: string, max: int)
    requires Invariant(w, max) && Known(w, h) && w.attempts[h].phase.Succeeded?
    ensures w.attempts[h].phase.charge < |w.charges| && w.charges[w.attempts[h].phase.charge].key == w.attempts[h].key
  {
    hide Recorded, ChargesHeld, MailHolds;
    assert AttemptHolds(w, h);
  }

  /** One counted in the replica's own memory gives back at once, if its window still lives. */
  lemma LocalSuccessGivesBack(init: World, history: seq<Action>, limit: Limit, h: string)
    requires Init(init) && Possible(init, history, limit) && Enabled(After(init, history, limit), GiveBack(h))
    requires After(init, history, limit).attempts[h].phase.ticket.LocalTicket?
    ensures var w := After(init, history, limit);
            var a := w.attempts[h];
            var before := WindowIn(w, Local(a.replica), a.key);
            before.Some? && before.value.id == a.phase.ticket.id ==>
              WindowIn(Apply(w, GiveBack(h), limit), Local(a.replica), a.key)
              == Some(before.value.(count := before.value.count - 1))
  {
    hide After, Invariant, Init, Possible, Apply, WindowIn;
    InitInvariant(init, limit.maxAttempts);
    RunKeepsInvariant(init, history, limit);
    LocalGivesBack(After(init, history, limit), h, limit);
  }

  lemma LocalGivesBack(w: World, h: string, limit: Limit)
    requires Invariant(w, limit.maxAttempts) && Enabled(w, GiveBack(h)) && w.attempts[h].phase.ticket.LocalTicket?
    ensures var a := w.attempts[h];
            var before := WindowIn(w, Local(a.replica), a.key);
            before.Some? && before.value.id == a.phase.ticket.id ==>
              WindowIn(Apply(w, GiveBack(h), limit), Local(a.replica), a.key)
              == Some(before.value.(count := before.value.count - 1))
  {
    hide InstalledNamed, ChargesHeld, MailHolds, Recorded;
    var a := w.attempts[h];
    assert AttemptHolds(w, h);
    RecordedAt(w, limit.maxAttempts, Local(a.replica));
    assert a.phase.charge in Outstanding(w.charges, Local(a.replica), a.key, a.phase.ticket.id);
  }
}
