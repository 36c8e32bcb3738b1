/** No two equal messages of the login model are ever under way (src/utils/shared-store.ts:497-574), so that a
    set of them loses none: an attempt gives up on one call at most, and sends one refund. */
module LoginMail {
  import opened WindowCounter
  import opened LoginGuard

  /** A message comes from an attempt that is past its call; a refund, from one that is closed. */
  ghost predicate Past(w: World, m: Message) {
    && m.attempt in w.attempts
    && var p := w.attempts[m.attempt].phase;
       !p.Arrived? && !p.Sent? && (m.Refund? ==> p.Closed?)
  }

  ghost predicate MailPast(w: World) {
    forall m :: m in w.mail ==> Past(w, m)
  }

  /** The counters take no part in this. */
  lemma CountersApart()
    ensures forall w: World, store, key, attempt, abandoned, limit ::
              var r := CountTake(w, store, key, attempt, abandoned, limit).0; r.attempts == w.attempts && r.mail == w.mail
    ensures forall w: World, store, key, id, n ::
              var r := Refunded(w, store, key, id, n); r.attempts == w.attempts && r.mail == w.mail
    ensures forall w: World, counting :: Abandoned(w, counting).attempts == w.attempts && Abandoned(w, counting).mail == w.mail
  {
    hide TakeAttempt, RefundOn;
  }

  lemma PastStays(w: World, a: Action, limit: Limit, m: Message)
    requires Past(w, m) && Enabled(w, a)
    ensures Past(Apply(w, a, limit), m)
  {
    CountersApart();
    hide CountTake, Refunded, Abandoned, PeekOn, MarkOn, PrunedEntries;
  }

  lemma NewMailPast(w: World, a: Action, limit: Limit, m: Message)
    requires Enabled(w, a) && m in Apply(w, a, limit).mail && m !in w.mail
    ensures Past(Apply(w, a, limit), m)
  {
    CountersApart();
    hide CountTake, Refunded, Abandoned, PeekOn, MarkOn, PrunedEntries;
  }

  lemma {:induction false} RunKeepsPast(w: World, run: seq<Action>, limit: Limit)
    requires MailPast(w) && Possible(w, run, limit)
    ensures MailPast(After(w, run, limit))
    decreases |run|
  {
    hide Apply, Enabled, Past;
    if run != [] {
      var next := Apply(w, run[0], limit);
      forall m | m in next.mail
        ensures Past(next, m)
      {
        if m in w.mail {
          PastStays(w, run[0], limit, m);
        } else {
          NewMailPast(w, run[0], limit, m);
        }
      }
      RunKeepsPast(next, run[1..], limit);
    }
  }

  /** In every reachable state, an attempt about to give up on its call has nothing under way, and one about
      to send its refund at most the call it gave up on. */
  lemma SentOnce(init: World, history: seq<Action>, limit: Limit, h: string)
    requires Init(init) && Possible(init, history, limit) && h in After(init, history, limit).attempts
    ensures var w := After(init, history, limit);
            var p := w.attempts[h].phase;
            && (p.Sent? ==> forall m :: m in w.mail ==> m.attempt != h)
            && (p.Succeeded? ==> forall m :: m in w.mail && m.attempt == h ==> m.LateTake?)
  {
    hide After, Possible;
    RunKeepsPast(init, history, limit);
    assert forall m :: m in After(init, history, limit).mail ==> Past(After(init, history, limit), m);
  }
}
