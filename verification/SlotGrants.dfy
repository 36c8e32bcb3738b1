/** Who runs: exactly the sessions whose ask a store granted (src/utils/mx-throttle.ts:165-215, src/utils/shared-slots.ts:216-243). */
module SlotGrants {
  import opened Wrappers
  import opened Backends
  import opened SharedSlots
  import opened SlotRouting

  /** The store that serves the ask of `holder` in this action, if one does. */
  function AskedAt(w: World, a: Action, holder: string): Option<Store> {
    if !Known(w, holder) then None
    else
      var replica, phase := w.sessions[holder].replica, w.sessions[holder].phase;
      if a == Serve(holder) && phase.Sent? then Some(Shared(phase.backend))
      else if a == Ask(holder) && w.replicas[replica].backend.None? then Some(Local(replica))
      else if a == Fail(holder) then Some(Local(replica))
      else None
  }

  /** The action serves the ask of `holder` at `store`, and leaves it with a live lease there. */
  ghost predicate Granted(w: World, a: Action, o: SlotOptions, holder: string, store: Store) {
    Enabled(w, a) && AskedAt(w, a, holder) == Some(store) && HoldsLease(Apply(w, a, o), store, holder)
  }

  /** Some event of the run granted `holder` a lease of `store`. */
  ghost predicate WasGranted(w: World, run: seq<Action>, o: SlotOptions, holder: string, store: Store) {
    exists k: nat :: k < |run| && Possible(w, run[..k], o) && Granted(After(w, run[..k], o), run[k], o, holder, store)
  }

  /** An acquire leaves a lease exactly when it grants. */
  lemma AcquireLeases(s: Slots, holder: string, o: SlotOptions, at: int)
    requires o.leaseMs >= 1
    ensures var (after, granted) := AcquireOn(s, holder, o, at);
            granted <==> holder in after.holders && after.holders[holder] > at
  {
    hide Admits, LiveQueue, Put, Remove;
  }

  // ---------- Who runs was granted ----------

  /** The session runs, has run, or has the answer under way, on a slot of this store. */
  ghost predicate Promised(w: World, holder: string, store: Store) {
    && holder in w.sessions
    && match w.sessions[holder].phase
       case Served(backend, _, granted) => granted && store == Shared(backend)
       case Running(_, granter) => store == granter
       case Finished(_, granter) => store == granter
       case _ => false
  }

  lemma PromiseIsGrant(w: World, a: Action, o: SlotOptions, holder: string, store: Store)
    requires Enabled(w, a) && o.leaseMs >= 1 && Promised(Apply(w, a, o), holder, store) && !Promised(w, holder, store)
    ensures Granted(w, a, o, holder, store)
  {
    hide AcquireOn, RenewOn, ReleaseOn, Drop, Posted, Taken;
    match a {
      case Ask(h) => AcquireLeases(In(w, Local(w.sessions[h].replica)), h, o, w.now);
      case Serve(h) => AcquireLeases(In(w, Shared(w.sessions[h].phase.backend)), h, o, w.now);
      case Fail(h) => AcquireLeases(In(w, Local(w.sessions[h].replica)), h, o, w.now);
      case _ =>
    }
  }

  lemma {:induction false} PrefixPossible(w: World, run: seq<Action>, o: SlotOptions, k: nat)
    requires Possible(w, run, o) && k <= |run|
    ensures Possible(w, run[..k], o)
    decreases k
  {
    hide Apply, Enabled;
    if k > 0 {
      PrefixPossible(Apply(w, run[0], o), run[1..], o, k - 1);
      assert run[..k][1..] == run[1..][..k - 1];
    }
  }

  lemma GrantedLater(w: World, run: seq<Action>, o: SlotOptions, holder: string, store: Store)
    requires Possible(w, run, o) && run != [] && WasGranted(Apply(w, run[0], o), run[1..], o, holder, store)
    ensures WasGranted(w, run, o, holder, store)
  {
    hide Apply, Enabled, Granted;
    var rest := run[1..];
    var k: nat :| k < |rest| && Possible(Apply(w, run[0], o), rest[..k], o)
                  && Granted(After(Apply(w, run[0], o), rest[..k], o), rest[k], o, holder, store);
    PrefixPossible(w, run, o, k + 1);
    assert run[..k + 1][1..] == rest[..k] && run[k + 1] == rest[k];
  }

  lemma GrantedFirst(w: World, run: seq<Action>, o: SlotOptions, holder: string, store: Store)
    requires run != [] && Granted(w, run[0], o, holder, store)
    ensures WasGranted(w, run, o, holder, store)
  {
    hide Granted;
    assert run[..0] == [];
    assert Possible(w, run[..0], o) && After(w, run[..0], o) == w;
  }

  lemma {:induction false} PromisedWasGranted(w: World, run: seq<Action>, o: SlotOptions, holder: string, store: Store)
    requires Possible(w, run, o) && o.leaseMs >= 1 && Promised(After(w, run, o), holder, store)
    ensures Promised(w, holder, store) || WasGranted(w, run, o, holder, store)
    decreases |run|
  {
    hide Apply, Enabled, Promised, Granted, WasGranted;
    if run != [] {
      var next := Apply(w, run[0], o);
      PromisedWasGranted(next, run[1..], o, holder, store);
      if WasGranted(next, run[1..], o, holder, store) {
        GrantedLater(w, run, o, holder, store);
      } else if !Promised(w, holder, store) {
        PromiseIsGrant(w, run[0], o, holder, store);
        GrantedFirst(w, run, o, holder, store);
      }
    }
  }

  /** Whoever runs on a slot of a store got a live lease there when its own ask was served: the sessions
      `SharedLimit` counts beyond the limit have lost one. */
  lemma RunningWasGranted(init: World, run: seq<Action>, o: SlotOptions, holder: string, store: Store)
    requires Init(init) && Possible(init, run, o) && o.leaseMs >= 1 && holder in RunningOn(After(init, run, o), store)
    ensures WasGranted(init, run, o, holder, store)
  {
    hide After, Possible, WasGranted;
    PromisedWasGranted(init, run, o, holder, store);
  }

  // ---------- Whoever is granted runs ----------

  lemma AnswerWaits(w: World, a: Action, o: SlotOptions, holder: string)
    requires Enabled(w, a) && a != Answer(holder) && a != Fail(holder)
    requires Known(w, holder) && w.sessions[holder].phase.Served?
    ensures Known(Apply(w, a, o), holder) && Apply(w, a, o).sessions[holder].phase == w.sessions[holder].phase
  {
    hide AcquireOn, RenewOn, ReleaseOn, Drop, Posted, Taken;
  }

  lemma {:induction false} AnswerWaitsAlong(w: World, run: seq<Action>, o: SlotOptions, holder: string)
    requires Possible(w, run, o) && Answer(holder) !in run && Fail(holder) !in run
    requires Known(w, holder) && w.sessions[holder].phase.Served?
    ensures Known(After(w, run, o), holder) && After(w, run, o).sessions[holder].phase == w.sessions[holder].phase
    decreases |run|
  {
    hide Apply, Enabled, Known;
    if run != [] {
      AnswerWaits(w, run[0], o, holder);
      AnswerWaitsAlong(Apply(w, run[0], o), run[1..], o, holder);
    }
  }

  /** However late the answer comes and whatever happens meanwhile: the session runs on a slot of the store
      that served its ask if that left it a lease, and otherwise asks again. */
  lemma AnswerTells(w: World, o: SlotOptions, holder: string, later: seq<Action>)
    requires Enabled(w, Serve(holder)) && o.leaseMs >= 1
    requires Possible(Apply(w, Serve(holder), o), later, o) && Answer(holder) !in later && Fail(holder) !in later
    ensures var store := Shared(w.sessions[holder].phase.backend);
            var served := Apply(w, Serve(holder), o);
            var answering := After(served, later, o);
            && Enabled(answering, Answer(holder))
            && var after := Apply(answering, Answer(holder), o);
               if HoldsLease(served, store, holder) then holder in RunningOn(after, store)
               else after.sessions[holder].phase == Asking
  {
    hide AcquireOn, Possible, After;
    var backend := w.sessions[holder].phase.backend;
    AcquireLeases(In(w, Shared(backend)), holder, o, w.now);
    AnswerWaitsAlong(Apply(w, Serve(holder), o), later, o, holder);
  }

  /** Served by the replica's own memory, because no backend is installed or the call failed, a session runs
      at once if that left it a lease, and otherwise asks again. */
  lemma MemoryTells(w: World, a: Action, o: SlotOptions, holder: string)
    requires Enabled(w, a) && o.leaseMs >= 1 && AskedAt(w, a, holder).Some? && AskedAt(w, a, holder).value.Local?
    ensures var store := Local(w.sessions[holder].replica);
            var after := Apply(w, a, o);
            && AskedAt(w, a, holder) == Some(store)
            && if HoldsLease(after, store, holder) then holder in RunningOn(after, store)
               else after.sessions[holder].phase == Asking
  {
    hide AcquireOn, Posted;
    AcquireLeases(In(w, Local(w.sessions[holder].replica)), holder, o, w.now);
  }

  // ---------- Where an ask goes ----------

  lemma AskWaits(w: World, a: Action, o: SlotOptions, holder: string)
    requires Enabled(w, a) && a != Serve(holder) && a != Fail(holder)
    requires Known(w, holder) && w.sessions[holder].phase.Sent?
    ensures Known(Apply(w, a, o), holder) && Apply(w, a, o).sessions[holder].phase == w.sessions[holder].phase
  {
    hide AcquireOn, RenewOn, ReleaseOn, Drop, Posted, Taken;
  }

  lemma {:induction false} AskWaitsAlong(w: World, run: seq<Action>, o: SlotOptions, holder: string)
    requires Possible(w, run, o) && Serve(holder) !in run && Fail(holder) !in run
    requires Known(w, holder) && w.sessions[holder].phase.Sent?
    ensures Known(After(w, run, o), holder) && After(w, run, o).sessions[holder].phase == w.sessions[holder].phase
    decreases |run|
  {
    hide Apply, Enabled, Known;
    if run != [] {
      AskWaits(w, run[0], o, holder);
      AskWaitsAlong(Apply(w, run[0], o), run[1..], o, holder);
    }
  }

  /** An ask goes to the backend installed when it was made, however late it is served and whatever is
      installed meanwhile; without a backend the replica's own memory serves it at once. */
  lemma AskGoesTo(w: World, o: SlotOptions, holder: string, later: seq<Action>)
    requires Enabled(w, Ask(holder)) && Possible(Apply(w, Ask(holder), o), later, o)
    requires Serve(holder) !in later && Fail(holder) !in later
    ensures var installed := w.replicas[w.sessions[holder].replica];
            var serving := After(Apply(w, Ask(holder), o), later, o);
            if installed.backend.Some? then
              Enabled(serving, Serve(holder)) && AskedAt(serving, Serve(holder), holder) == Some(Shared(installed.backend.value))
            else AskedAt(w, Ask(holder), holder) == Some(Local(w.sessions[holder].replica))
  {
    hide AcquireOn, Possible, After;
    if w.replicas[w.sessions[holder].replica].backend.Some? {
      AskWaitsAlong(Apply(w, Ask(holder), o), later, o, holder);
    }
  }

  /** Another backend installed cuts a running session off from the store that granted, for good. */
  lemma SwapCutsOff(init: World, history: seq<Action>, o: SlotOptions, holder: string, backend: Option<nat>)
    requires Init(init) && Possible(init, history, o) && 0 <= o.max
    requires var w := After(init, history, o);
             Known(w, holder) && w.sessions[holder].phase.Running? && w.sessions[holder].phase.grant.SharedGrant?
    ensures var w := After(init, history, o);
            var after := Apply(w, Swap(w.sessions[holder].replica, backend), o);
            && Known(after, holder) && after.sessions[holder] == w.sessions[holder] && !StillReached(after, holder)
            && after.replicas[w.sessions[holder].replica].backend == backend
  {
    hide Possible, After, StoresBounded, MailRightful, Init;
    InitInvariant(init, o.max);
    RunKeepsInvariant(init, history, o);
    var w := After(init, history, o);
    assert SessionNamed(w, w.sessions[holder]);
  }

  /** A lease lives until its time has come, and no longer. */
  lemma LeaseLapses(w: World, o: SlotOptions, to: int, store: Store, holder: string)
    requires Enabled(w, Tick(to))
    ensures HoldsLease(Apply(w, Tick(to), o), store, holder)
       <==> holder in In(w, store).holders && In(w, store).holders[holder] > to
  {
  }

  lemma OneMore(w: World, a: Action, rest: seq<Action>, o: SlotOptions)
    requires Enabled(w, a) && Possible(Apply(w, a, o), rest, o)
    ensures Possible(w, [a] + rest, o) && After(w, [a] + rest, o) == After(Apply(w, a, o), rest, o)
  {
    hide Apply, Enabled;
    assert ([a] + rest)[1..] == rest;
  }

  lemma NoMore(w: World, o: SlotOptions)
    ensures Possible(w, [], o) && After(w, [], o) == w
  {
  }

  /** A newcomer asks the backend its replica has installed, and runs if that grants. */
  lemma NewcomerRuns(w: World, o: SlotOptions, holder: string, replica: string) returns (run: seq<Action>)
    requires holder !in w.sessions && replica in w.replicas && w.replicas[replica].backend.Some? && o.leaseMs >= 1
    ensures Possible(w, run, o)
    ensures var end := After(w, run, o);
            var store := Shared(w.replicas[replica].backend.value);
            && Known(end, holder) && end.sessions[holder].replica == replica
            && (AcquireOn(In(w, store), holder, o, w.now).1 <==> holder in RunningOn(end, store))
            && (holder in RunningOn(end, store) ==> HoldsLease(end, store, holder))
  {
    hide AcquireOn, Possible, After;
    var asking := Apply(w, Arrive(holder, replica), o);
    var sent := Apply(asking, Ask(holder), o);
    var served := Apply(sent, Serve(holder), o);
    var answered := Apply(served, Answer(holder), o);
    AcquireLeases(In(w, Shared(w.replicas[replica].backend.value)), holder, o, w.now);
    NoMore(answered, o);
    OneMore(served, Answer(holder), [], o);
    OneMore(sent, Serve(holder), [Answer(holder)] + [], o);
    OneMore(asking, Ask(holder), [Serve(holder)] + ([Answer(holder)] + []), o);
    OneMore(w, Arrive(holder, replica), [Ask(holder)] + ([Serve(holder)] + ([Answer(holder)] + [])), o);
    run := [Arrive(holder, replica)] + ([Ask(holder)] + ([Serve(holder)] + ([Answer(holder)] + [])));
  }

  // ---------- Calls given up on ----------

  /** Every call may fail, before it was served or after. */
  lemma CallMayFail(w: World, holder: string)
    ensures Known(w, holder) && (w.sessions[holder].phase.Sent? || w.sessions[holder].phase.Served?)
       <==> Enabled(w, Fail(holder))
  {
  }

  /** What a failed call leaves under way: a release, and the call itself if it was not served yet. */
  lemma FailSends(w: World, o: SlotOptions, holder: string)
    requires Enabled(w, Fail(holder))
    ensures var p := w.sessions[holder].phase;
            Apply(w, Fail(holder), o).mail
            == w.mail + multiset{Message.Release(Shared(p.backend), holder, None)}
               + (if p.Sent? then multiset{LateAcquire(Shared(p.backend), holder)} else multiset{})
  {
    hide AcquireOn;
  }

  /** A session that gives up on a call sends the store a release, which stays under way through any run and
      takes back on arrival what the call may have been granted. */
  lemma FailGivesBack(w: World, o: SlotOptions, holder: string, later: seq<Action>)
    requires Enabled(w, Fail(holder)) && Possible(Apply(w, Fail(holder), o), later, o)
    ensures var release := Message.Release(Shared(w.sessions[holder].phase.backend), holder, None);
            var arriving := After(Apply(w, Fail(holder), o), later, o);
            Deliver(release) !in later && Lose(release) !in later ==>
              release in arriving.mail && !HoldsLease(Apply(arriving, Deliver(release), o), release.store, holder)
  {
    hide Apply, After, Possible, HoldsLease;
    FailSends(w, o, holder);
    var release := Message.Release(Shared(w.sessions[holder].phase.backend), holder, None);
    if Deliver(release) !in later && Lose(release) !in later {
      MailStaysAlong(Apply(w, Fail(holder), o), later, o, release);
      ReleaseLands(After(Apply(w, Fail(holder), o), later, o), o, release);
    }
  }

  /** A call given up on before it was served may be served yet, and is answered to nobody: the store grants it
      a lease as it would any ask, and no session moves. */
  lemma LateAcquireLands(w: World, o: SlotOptions, m: Message)
    requires m in w.mail && m.LateAcquire? && o.leaseMs >= 1
    ensures var after := Apply(w, Deliver(m), o);
            && after.sessions == w.sessions
            && (HoldsLease(after, m.store, m.holder)
                <==> HoldsLease(w, m.store, m.holder) || Admits(Drop(In(w, m.store), w.now), m.holder, o.max))
  {
    AcquireLeases(In(w, m.store), m.holder, o, w.now);
    hide Admits, LiveQueue, Put, Remove;
  }
}
