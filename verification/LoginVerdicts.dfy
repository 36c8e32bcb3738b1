/** What the verdict on a password does to the budget (src/pages/plugins/auth-login.plugin.tsx:196-330), told by
    the verdicts of a run and not by the phases of its attempts. */
module LoginVerdicts {
  import opened Wrappers
  import opened Backends
  import opened WindowCounter
  import opened LoginGuard
  import opened LoginInvariant

  // ---------- Verdicts and phases ----------

  function Verdict(w: World, h: string): Option<bool> {
    if h !in w.attempts then None
    else
      match w.attempts[h].phase
      case Failed(_, _) => Some(false)
      case Succeeded(_, _) => Some(true)
      case Closed(_) => Some(true)
      case _ => None
  }

  lemma StepJudges(w: World, a: Action, limit: Limit, h: string, ok: bool)
    requires Enabled(w, a)
    ensures Verdict(Apply(w, a, limit), h) == Some(ok) <==> Verdict(w, h) == Some(ok) || a == Judge(h, ok)
    ensures Verdict(w, h).Some? ==> a != Judge(h, ok)
  {
    hide Apply, Enabled;
    JudgeDecides(w, a, limit, h, ok);
    if !(a.Judge? && a.attempt == h) {
      VerdictStays(w, a, limit, h);
    }
  }

  lemma JudgeDecides(w: World, a: Action, limit: Limit, h: string, ok: bool)
    requires Enabled(w, a)
    ensures a.Judge? && a.attempt == h ==> Verdict(w, h).None? && Verdict(Apply(w, a, limit), h) == Some(a.ok)
  {
  }

  lemma VerdictStays(w: World, a: Action, limit: Limit, h: string)
    requires Enabled(w, a) && !(a.Judge? && a.attempt == h)
    ensures Verdict(Apply(w, a, limit), h) == Verdict(w, h)
  {
    AsideFromAttempts();
    hide CountTake, Refunded, Abandoned, PeekOn, MarkOn, PrunedEntries;
  }

  lemma EitherWay(verdict: Option<bool>, ok: bool)
    ensures verdict.Some? <==> verdict == Some(ok) || verdict == Some(!ok)
  {
    if verdict.Some? {
      if verdict.value == ok {
        assert verdict == Some(ok);
      } else {
        assert verdict.value == !ok;
      }
    }
  }

  lemma AsideFromAttempts()
    ensures forall w: World, store, key, attempt, abandoned, limit ::
              CountTake(w, store, key, attempt, abandoned, limit).0.attempts == w.attempts
    ensures forall w: World, store, key, id, n :: Refunded(w, store, key, id, n).attempts == w.attempts
    ensures forall w: World, counting :: Abandoned(w, counting).attempts == w.attempts
  {
    hide TakeAttempt, RefundOn;
  }

  lemma {:induction false} RunJudges(w: World, run: seq<Action>, limit: Limit, h: string, ok: bool)
    requires Possible(w, run, limit)
    ensures Verdict(After(w, run, limit), h) == Some(ok) <==> Verdict(w, h) == Some(ok) || Judge(h, ok) in run
    ensures Verdict(w, h).Some? ==> Judge(h, ok) !in run
    decreases |run|
  {
    hide Apply, Enabled, Verdict;
    if run != [] {
      StepJudges(w, run[0], limit, h, ok);
      StepJudges(w, run[0], limit, h, !ok);
      EitherWay(Verdict(w, h), ok);
      EitherWay(Verdict(Apply(w, run[0], limit), h), ok);
      RunJudges(Apply(w, run[0], limit), run[1..], limit, h, ok);
      assert run == [run[0]] + run[1..];
    }
  }

  lemma JudgedFromStart(init: World, run: seq<Action>, limit: Limit, h: string, ok: bool)
    requires Init(init) && Possible(init, run, limit)
    ensures Verdict(After(init, run, limit), h) == Some(ok) <==> Judge(h, ok) in run
    ensures Judge(h, ok) in run ==> Judge(h, !ok) !in run
  {
    hide After, Possible;
    RunJudges(init, run, limit, h, ok);
    RunJudges(init, run, limit, h, !ok);
  }

  // ---------- Who is judged ----------

  /** One more take of this bucket would pass the limit. */
  predicate IsFull(w: World, store: Store, key: string, limit: Limit) {
    CountIn(LiveWindow(In(w, store).entries, key, w.now)) >= limit.maxAttempts
  }

  lemma CountedUnlessFull(w: World, store: Store, key: string, attempt: string, abandoned: bool, limit: Limit)
    ensures CountTake(w, store, key, attempt, abandoned, limit).1.None? <==> IsFull(w, store, key, limit)
  {
    TakeEffect(In(w, store), key, limit, w.now);
    hide TakeAttempt;
  }

  /** Counted in the replica's own memory, because no backend is installed or the call failed: an attempt is
      refused if its bucket is full there, and goes on to its password otherwise. */
  lemma MemoryDecides(w: World, a: Action, limit: Limit, h: string)
    requires Enabled(w, a) && (a == Fail(h) || (a == Ask(h) && w.replicas[w.attempts[h].replica].backend.None?))
    ensures var phase := Apply(w, a, limit).attempts[h].phase;
            if IsFull(w, Local(w.attempts[h].replica), w.attempts[h].key, limit) then phase.Refused? else phase.Verifying?
  {
    AsideFromAttempts();
    ApartFromCounters();
    hide CountTake, Abandoned;
    var x := w.attempts[h];
    var w1 := if a == Ask(h) then w
              else if x.phase.Sent? then w.(mail := w.mail + {LateTake(x.phase.backend, x.key, h)}) else Abandoned(w, x.phase.counting);
    CountedUnlessFull(w1, Local(x.replica), x.key, h, false, limit);
  }

  lemma ApartFromCounters()
    ensures forall w: World, counting :: Abandoned(w, counting).counters == w.counters && Abandoned(w, counting).now == w.now
  {
  }

  lemma AnswerWaits(w: World, a: Action, limit: Limit, h: string)
    requires Enabled(w, a) && a != Answer(h) && a != Fail(h) && Known(w, h) && w.attempts[h].phase.Served?
    ensures Known(Apply(w, a, limit), h) && Apply(w, a, limit).attempts[h].phase == w.attempts[h].phase
  {
    AsideFromAttempts();
    AsideFromReplicas();
    hide CountTake, Refunded, Abandoned, PeekOn, MarkOn, PrunedEntries;
  }

  lemma AsideFromReplicas()
    ensures forall w: World, store, key, attempt, abandoned, limit ::
              CountTake(w, store, key, attempt, abandoned, limit).0.replicas == w.replicas
    ensures forall w: World, store, key, id, n :: Refunded(w, store, key, id, n).replicas == w.replicas
    ensures forall w: World, counting :: Abandoned(w, counting).replicas == w.replicas
  {
    hide TakeAttempt, RefundOn;
  }

  lemma {:induction false} AnswerWaitsAlong(w: World, run: seq<Action>, limit: Limit, h: string)
    requires Possible(w, run, limit) && Answer(h) !in run && Fail(h) !in run && Known(w, h) && w.attempts[h].phase.Served?
    ensures Known(After(w, run, limit), h) && After(w, run, limit).attempts[h].phase == w.attempts[h].phase
    decreases |run|
  {
    hide Apply, Enabled, Known;
    if run != [] {
      AnswerWaits(w, run[0], limit, h);
      AnswerWaitsAlong(Apply(w, run[0], limit), run[1..], limit, h);
    }
  }

  /** Counted in a shared store: however late the answer comes, an attempt is refused if its bucket was full
      there when it was served, and goes on to its password otherwise. */
  lemma AnswerDecides(w: World, limit: Limit, h: string, later: seq<Action>)
    requires Enabled(w, Serve(h)) && Possible(Apply(w, Serve(h), limit), later, limit)
    requires Answer(h) !in later && Fail(h) !in later
    ensures var answering := After(Apply(w, Serve(h), limit), later, limit);
            && Enabled(answering, Answer(h))
            && var phase := Apply(answering, Answer(h), limit).attempts[h].phase;
               if IsFull(w, Shared(w.attempts[h].phase.backend), w.attempts[h].key, limit) then phase.Refused?
               else phase.Verifying?
  {
    AsideFromAttempts();
    AsideFromReplicas();
    hide CountTake, Possible, After;
    var x := w.attempts[h];
    CountedUnlessFull(w, Shared(x.phase.backend), x.key, h, false, limit);
    AnswerWaitsAlong(Apply(w, Serve(h), limit), later, limit, h);
  }

  lemma AskWaits(w: World, a: Action, limit: Limit, h: string)
    requires Enabled(w, a) && a != Serve(h) && a != Fail(h) && Known(w, h) && w.attempts[h].phase.Sent?
    ensures Known(Apply(w, a, limit), h) && Apply(w, a, limit).attempts[h] == w.attempts[h]
  {
    AsideFromAttempts();
    AsideFromReplicas();
    hide CountTake, Refunded, Abandoned, PeekOn, MarkOn, PrunedEntries;
  }

  lemma {:induction false} AskWaitsAlong(w: World, run: seq<Action>, limit: Limit, h: string)
    requires Possible(w, run, limit) && Serve(h) !in run && Fail(h) !in run && Known(w, h) && w.attempts[h].phase.Sent?
    ensures Known(After(w, run, limit), h) && After(w, run, limit).attempts[h] == w.attempts[h]
    decreases |run|
  {
    hide Apply, Enabled, Known;
    if run != [] {
      AskWaits(w, run[0], limit, h);
      AskWaitsAlong(Apply(w, run[0], limit), run[1..], limit, h);
    }
  }

  /** An attempt is counted at the backend installed when it was made, however late that is. */
  lemma AskGoesTo(w: World, limit: Limit, h: string, later: seq<Action>)
    requires Enabled(w, Ask(h)) && w.replicas[w.attempts[h].replica].backend.Some?
    requires Possible(Apply(w, Ask(h), limit), later, limit) && Serve(h) !in later && Fail(h) !in later
    ensures var installed := w.replicas[w.attempts[h].replica];
            var serving := After(Apply(w, Ask(h), limit), later, limit);
            && Enabled(serving, Serve(h))
            && serving.attempts[h] == Attempt(w.attempts[h].replica, w.attempts[h].key, Sent(installed.backend.value, installed.generation))
  {
    hide Possible, After;
    AskWaitsAlong(Apply(w, Ask(h), limit), later, limit, h);
  }

  /** What a take leaves of the windows of its store. */
  lemma CountTakeWindows(w: World, store: Store, k: string, attempt: string, abandoned: bool, limit: Limit, key: string)
    ensures var before, after := LiveWindow(In(w, store).entries, key, w.now),
                                 In(CountTake(w, store, k, attempt, abandoned, limit).0, store).entries;
            if key == k && !IsFull(w, store, k, limit) then key in after && after[key].count == CountIn(before) + 1
            else LiveWindow(after, key, w.now) == before
  {
    TakeEffect(In(w, store), k, limit, w.now);
    TakeOneKey(In(w, store), k, WindowOptions(limit.maxAttempts, limit.windowMs, 1, 0), w.now);
    hide TakeOn;
  }

  /** A call given up on before it was served counts in the shared window, unless that is full, if it is
      served after all. */
  lemma LateTakeLands(w: World, limit: Limit, m: Message, key: string)
    requires m in w.mail && m.LateTake?
    ensures var store := Shared(m.backend);
            var before, after := LiveWindow(In(w, store).entries, key, w.now), In(Apply(w, Deliver(m), limit), store).entries;
            if key == m.key && !IsFull(w, store, key, limit) then key in after && after[key].count == CountIn(before) + 1
            else LiveWindow(after, key, w.now) == before
  {
    var w1 := w.(mail := w.mail - {m});
    CountTakeWindows(w1, Shared(m.backend), m.key, m.attempt, true, limit, key);
    hide CountTake, LiveWindow;
  }

  /** Every call may fail, before it was served or after. */
  lemma CallMayFail(w: World, h: string)
    ensures Known(w, h) && (w.attempts[h].phase.Sent? || w.attempts[h].phase.Served?) <==> Enabled(w, Fail(h))
  {
  }

  lemma FailLeavesTake(w: World, limit: Limit, h: string)
    requires Enabled(w, Fail(h)) && w.attempts[h].phase.Sent?
    ensures LateTake(w.attempts[h].phase.backend, w.attempts[h].key, h) in Apply(w, Fail(h), limit).mail
  {
    MailAside();
    hide CountTake;
  }

  lemma MailAside()
    ensures forall w: World, store, key, attempt, abandoned, limit ::
              CountTake(w, store, key, attempt, abandoned, limit).0.mail == w.mail
  {
    hide TakeAttempt;
  }

  lemma {:induction false} OneMore(w: World, run: seq<Action>, a: Action, limit: Limit)
    requires Possible(w, run, limit) && Enabled(After(w, run, limit), a)
    ensures Possible(w, run + [a], limit) && After(w, run + [a], limit) == Apply(After(w, run, limit), a, limit)
    decreases |run|
  {
    hide Apply, Enabled;
    if run == [] {
      assert ([] + [a])[1..] == [];
      NoMore(Apply(w, a, limit), limit);
    } else {
      OneMore(Apply(w, run[0], limit), run[1..], a, limit);
      assert (run + [a])[1..] == run[1..] + [a];
    }
  }

  lemma NoMore(w: World, limit: Limit)
    ensures Possible(w, [], limit) && After(w, [], limit) == w
  {
  }

  /** An attempt of this bucket that has been refused, or goes on to its password unless `full`. */
  predicate Decided(w: World, h: string, replica: string, key: string, full: bool) {
    && Known(w, h) && w.attempts[h].key == key && w.attempts[h].replica == replica
    && if full then w.attempts[h].phase.Refused? else w.attempts[h].phase.Verifying?
  }

  lemma ArrivesAndAsks(w: World, limit: Limit, h: string, replica: string, key: string)
    requires h !in w.attempts && replica in w.replicas
    ensures Enabled(w, Arrive(h, replica, key))
    ensures var arrived := Apply(w, Arrive(h, replica, key), limit);
            && Enabled(arrived, Ask(h)) && arrived.replicas == w.replicas && arrived.counters == w.counters && arrived.now == w.now
            && arrived.attempts[h] == Attempt(replica, key, Arrived)
  {
  }

  lemma DecidedInMemory(w: World, limit: Limit, h: string)
    requires Enabled(w, Ask(h)) && w.replicas[w.attempts[h].replica].backend.None?
    ensures var x := w.attempts[h];
            Decided(Apply(w, Ask(h), limit), h, x.replica, x.key, IsFull(w, Local(x.replica), x.key, limit))
  {
    MemoryDecides(w, Ask(h), limit, h);
    AsideFromAttempts();
    AsideFromReplicas();
    hide CountTake, LiveWindow;
  }

  lemma DecidedByBackend(w: World, limit: Limit, h: string)
    requires Enabled(w, Ask(h)) && w.replicas[w.attempts[h].replica].backend.Some?
    ensures var x, asked := w.attempts[h], Apply(w, Ask(h), limit);
            && Enabled(asked, Serve(h)) && Enabled(Apply(asked, Serve(h), limit), Answer(h))
            && Decided(Apply(Apply(asked, Serve(h), limit), Answer(h), limit), h, x.replica, x.key,
                       IsFull(w, Shared(w.replicas[x.replica].backend.value), x.key, limit))
  {
    var asked := Apply(w, Ask(h), limit);
    AsideFromAttempts();
    AsideFromReplicas();
    NoMore(Apply(asked, Serve(h), limit), limit);
    AnswerDecides(asked, limit, h, []);
    hide CountTake, LiveWindow, Possible, After;
  }

  /** A newcomer is counted where its replica counts, and may be judged either way unless its bucket is full. */
  lemma NewcomerIsJudged(w: World, limit: Limit, h: string, replica: string, key: string, ok: bool) returns (run: seq<Action>)
    requires h !in w.attempts && replica in w.replicas
    ensures Possible(w, run, limit)
    ensures var end := After(w, run, limit);
            var installed := w.replicas[replica].backend;
            var store := if installed.Some? then Shared(installed.value) else Local(replica);
            && Known(end, h) && end.attempts[h].key == key && end.attempts[h].replica == replica
            && (if IsFull(w, store, key, limit) then end.attempts[h].phase.Refused? else Verdict(end, h) == Some(ok))
  {
    hide Possible, After, Apply, LiveWindow, In;
    ArrivesAndAsks(w, limit, h, replica, key);
    NoMore(w, limit);
    OneMore(w, [], Arrive(h, replica, key), limit);
    run := [] + [Arrive(h, replica, key)];
    var arrived, installed := After(w, run, limit), w.replicas[replica].backend;
    var store := if installed.Some? then Shared(installed.value) else Local(replica);
    SameFullness(w, arrived, store, key, limit);
    OneMore(w, run, Ask(h), limit);
    run := run + [Ask(h)];
    if installed.Some? {
      DecidedByBackend(arrived, limit, h);
      OneMore(w, run, Serve(h), limit);
      run := run + [Serve(h)];
      OneMore(w, run, Answer(h), limit);
      run := run + [Answer(h)];
    } else {
      DecidedInMemory(arrived, limit, h);
    }
    if !IsFull(w, store, key, limit) {
      OneMore(w, run, Judge(h, ok), limit);
      JudgeKeeps(After(w, run, limit), limit, h, ok);
      run := run + [Judge(h, ok)];
    }
  }

  lemma SameFullness(w: World, w': World, store: Store, key: string, limit: Limit)
    requires w'.counters == w.counters && w'.now == w.now
    ensures IsFull(w', store, key, limit) <==> IsFull(w, store, key, limit)
  {
  }

  lemma JudgeKeeps(w: World, limit: Limit, h: string, ok: bool)
    requires Enabled(w, Judge(h, ok))
    ensures var after := Apply(w, Judge(h, ok), limit);
            && Known(after, h) && after.attempts[h].key == w.attempts[h].key && after.attempts[h].replica == w.attempts[h].replica
            && Verdict(after, h) == Some(ok)
  {
  }

  /** A window lives until its time has come, and no longer. */
  lemma WindowEnds(w: World, limit: Limit, to: int, store: Store, key: string)
    requires Enabled(w, Tick(to))
    ensures var after := Apply(w, Tick(to), limit);
            && after.now == to
            && LiveWindow(In(after, store).entries, key, after.now)
               == if key in In(w, store).entries && In(w, store).entries[key].expiresAt > to then Some(In(w, store).entries[key])
                  else None
  {
  }

  // ---------- Wrong passwords ----------

  /** A take of the attempt was counted in this window. */
  ghost predicate Charged(w: World, h: string, store: Store, key: string, id: nat) {
    exists n :: 0 <= n < |w.charges| && w.charges[n].store == store && w.charges[n].key == key
                && w.charges[n].id == id && w.charges[n].attempt == h
  }

  /** The attempts counted in this window whose password was found wrong in the run. */
  ghost function WrongIn(w: World, run: seq<Action>, store: Store, key: string, id: nat): set<string> {
    set h | h in w.attempts && Judge(h, false) in run && Charged(w, h, store, key, id)
  }

  lemma {:induction false} OneChargeEach(w: World, hs: set<string>, ns: set<nat>)
    requires forall n :: n in ns ==> n < |w.charges|
    requires forall h :: h in hs ==> exists n :: n in ns && w.charges[n].attempt == h
    ensures |hs| <= |ns|
    decreases |hs|
  {
    if hs != {} {
      var h :| h in hs;
      var n :| n in ns && w.charges[n].attempt == h;
      forall g | g in hs - {h}
        ensures exists k :: k in ns - {n} && w.charges[k].attempt == g
      {
        var k :| k in ns && w.charges[k].attempt == g;
        assert k in ns - {n};
      }
      OneChargeEach(w, hs - {h}, ns - {n});
    }
  }

  lemma WrongIsOutstanding(w: World, h: string, store: Store, key: string, id: nat)
    requires ChargesHeld(w) && Verdict(w, h) == Some(false) && Charged(w, h, store, key, id)
    ensures exists n :: n in Outstanding(w.charges, store, key, id) && n < |w.charges| && w.charges[n].attempt == h
  {
    var n :| 0 <= n < |w.charges| && w.charges[n].store == store && w.charges[n].key == key
             && w.charges[n].id == id && w.charges[n].attempt == h;
    assert ChargeHeld(w, n);
    assert n in Outstanding(w.charges, store, key, id);
  }

  /** However takes, verdicts, refunds, backend changes and window ends interleave: of the attempts counted in
      one window of one store, at most `maxAttempts` ever have a wrong password. */
  lemma WrongPasswords(init: World, run: seq<Action>, limit: Limit, store: Store, key: string, id: nat)
    requires Init(init) && Possible(init, run, limit)
    ensures |WrongIn(After(init, run, limit), run, store, key, id)| <= Max(0, limit.maxAttempts)
  {
    hide After, Possible, Init, AttemptsHold, MailHolds, ChargesHeld, InstalledNamed, Charged, Verdict, Outstanding;
    InitInvariant(init, limit.maxAttempts);
    RunKeepsInvariant(init, run, limit);
    var w := After(init, run, limit);
    var wrong := WrongIn(w, run, store, key, id);
    var counted := Outstanding(w.charges, store, key, id);
    AllBelow(w, store, key, id);
    forall h | h in wrong
      ensures exists n :: n in counted && w.charges[n].attempt == h
    {
      JudgedFromStart(init, run, limit, h, false);
      WrongIsOutstanding(w, h, store, key, id);
    }
    OneChargeEach(w, wrong, counted);
    assert WindowBounded(w.charges, store, key, id, limit.maxAttempts);
  }

  lemma AllBelow(w: World, store: Store, key: string, id: nat)
    ensures forall n :: n in Outstanding(w.charges, store, key, id) ==> n < |w.charges|
  {
  }

  /** No password is judged that was not counted first, for the client's own bucket. */
  lemma JudgedWasCounted(init: World, run: seq<Action>, limit: Limit, h: string, ok: bool)
    requires Init(init) && Possible(init, run, limit) && Judge(h, ok) in run
    ensures var w := After(init, run, limit);
            && h in w.attempts
            && exists n :: 0 <= n < |w.charges| && w.charges[n].attempt == h && w.charges[n].key == w.attempts[h].key
                           && !w.charges[n].abandoned
  {
    hide After, Possible, Init, MailHolds, ChargesHeld, InstalledNamed, Recorded;
    InitInvariant(init, limit.maxAttempts);
    RunKeepsInvariant(init, run, limit);
    JudgedFromStart(init, run, limit, h, ok);
    var w := After(init, run, limit);
    assert AttemptHolds(w, h);
    assert ChargeOf(w.attempts[h].phase).Some?;
    var n := ChargeOf(w.attempts[h].phase).value;
    assert 0 <= n < |w.charges| && w.charges[n].attempt == h;
  }

  // ---------- Refunds ----------

  /** Another backend installed is the one that counts from then on, and the refund of an attempt the one before
      counted is skipped. */
  lemma SwapCutsOff(init: World, history: seq<Action>, limit: Limit, h: string, backend: Option<nat>)
    requires Init(init) && Possible(init, history, limit) && Enabled(After(init, history, limit), GiveBack(h))
    requires After(init, history, limit).attempts[h].phase.ticket.SharedTicket?
    ensures var w := After(init, history, limit);
            var after := Apply(w, Swap(w.attempts[h].replica, backend), limit);
            && after.replicas[w.attempts[h].replica].backend == backend
            && Enabled(after, GiveBack(h))
            && Apply(after, GiveBack(h), limit).mail == w.mail && Apply(after, GiveBack(h), limit).counters == w.counters
  {
    hide After, Possible, Init, MailHolds, ChargesHeld, Recorded;
    InitInvariant(init, limit.maxAttempts);
    RunKeepsInvariant(init, history, limit);
    assert AttemptHolds(After(init, history, limit), h);
  }

  lemma {:induction false} PrefixPossible(w: World, run: seq<Action>, limit: Limit, k: nat)
    requires Possible(w, run, limit) && k < |run|
    ensures Possible(w, run[..k], limit) && Enabled(After(w, run[..k], limit), run[k])
    decreases k
  {
    hide Apply, Enabled;
    if k > 0 {
      PrefixPossible(Apply(w, run[0], limit), run[1..], limit, k - 1);
      assert run[..k][1..] == run[1..][..k - 1];
    } else {
      assert run[..0] == [];
    }
  }

  /** The attempt whose refund this action sends or serves. */
  predicate Refunds(a: Action, h: string) {
    a == GiveBack(h) || (a.Deliver? && a.message.Refund? && a.message.attempt == h)
  }

  /** An attempt is given back only once its password was found right, and never one found wrong. */
  lemma RefundedWasRight(init: World, run: seq<Action>, limit: Limit, k: nat, h: string)
    requires Init(init) && Possible(init, run, limit) && k < |run| && Refunds(run[k], h)
    ensures Judge(h, true) in run[..k] && Judge(h, false) !in run
  {
    hide After, Possible, Init, AttemptsHold, ChargesHeld, InstalledNamed, Recorded;
    PrefixPossible(init, run, limit, k);
    InitInvariant(init, limit.maxAttempts);
    RunKeepsInvariant(init, run[..k], limit);
    var w := After(init, run[..k], limit);
    if run[k].Deliver? {
      assert MessageHolds(w, run[k].message);
    }
    assert Verdict(w, h) == Some(true);
    JudgedFromStart(init, run[..k], limit, h, true);
    assert Judge(h, true) in run;
    JudgedFromStart(init, run, limit, h, true);
  }

  /** An attempt found right goes on to give its take back, and one found wrong never may. */
  lemma RightGivesBack(init: World, run: seq<Action>, limit: Limit, h: string)
    requires Init(init) && Possible(init, run, limit)
    ensures var w := After(init, run, limit);
            && (Enabled(w, GiveBack(h)) ==> Judge(h, true) in run)
            && (Judge(h, true) in run && GiveBack(h) !in run ==> Enabled(w, GiveBack(h)))
  {
    NoneYet(init);
    hide After, Possible, Init, MailHolds, ChargesHeld, Recorded;
    InitInvariant(init, limit.maxAttempts);
    RunKeepsInvariant(init, run, limit);
    JudgedFromStart(init, run, limit, h, true);
    var w := After(init, run, limit);
    if Judge(h, true) in run && GiveBack(h) !in run {
      assert AttemptHolds(w, h);
      ClosedGaveBack(init, run, limit, h);
    }
  }

  lemma NoneYet(init: World)
    requires Init(init)
    ensures init.attempts == map[]
  {
  }

  lemma StepCloses(w: World, a: Action, limit: Limit, h: string)
    requires Enabled(w, a) && a != GiveBack(h) && h in Apply(w, a, limit).attempts
    requires Apply(w, a, limit).attempts[h].phase.Closed?
    ensures h in w.attempts && w.attempts[h].phase.Closed?
  {
    AsideFromAttempts();
    hide CountTake, Refunded, Abandoned, PeekOn, MarkOn, PrunedEntries;
  }

  lemma {:induction false} ClosedGaveBack(w: World, run: seq<Action>, limit: Limit, h: string)
    requires Possible(w, run, limit) && GiveBack(h) !in run
    requires h in w.attempts ==> !w.attempts[h].phase.Closed?
    ensures var end := After(w, run, limit); h in end.attempts ==> !end.attempts[h].phase.Closed?
    decreases |run|
  {
    hide Apply, Enabled;
    if run != [] {
      var next := Apply(w, run[0], limit);
      if h in next.attempts && next.attempts[h].phase.Closed? {
        StepCloses(w, run[0], limit, h);
        assert false;
      }
      ClosedGaveBack(next, run[1..], limit, h);
    }
  }
}
