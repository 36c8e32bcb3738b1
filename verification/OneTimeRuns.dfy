/** What one-time entries promise over whole runs: a value is taken at most once, under its guard and in
    time; a claim holds for its lifetime; the store stays within its cap. */
module OneTimeRuns {
  import opened Wrappers
  import opened OneTimeStore

  datatype Op =
    | Put(key: string, guard: string, value: string, ttlMs: int)
    | Take(key: string, guard: string)
    | Claim(key: string, ttlMs: int)

  datatype Event = Event(at: int, op: Op)

  datatype Result = Stored | Took(taken: Taken) | Answered(claimed: Claimed)

  function Step(entries: Entries, maxEntries: int, e: Event): (Entries, Result) {
    match e.op
    case Put(key, guard, value, ttlMs) => (StoreOn(entries, maxEntries, key, Entry(guard, value, e.at + ttlMs), e.at), Stored)
    case Take(key, guard) =>
      var (after, r) := TakeOn(entries, key, guard, e.at);
      (after, Took(r))
    case Claim(key, ttlMs) =>
      var (after, r) := ClaimOn(entries, maxEntries, key, ttlMs, e.at);
      (after, Answered(r))
  }

  function After(run: seq<Event>, maxEntries: int): Entries {
    if run == [] then [] else Step(After(run[..|run| - 1], maxEntries), maxEntries, run[|run| - 1]).0
  }

  /** The result of event `n`. */
  function ResultAt(run: seq<Event>, maxEntries: int, n: nat): Result
    requires n < |run|
  {
    Step(After(run[..n], maxEntries), maxEntries, run[n]).1
  }

  ghost predicate Timely(run: seq<Event>) {
    forall i, j :: 0 <= i < j < |run| ==> run[i].at <= run[j].at
  }

  // ---------- Entries as a map ----------

  lemma {:induction false} FindIsThere(entries: Entries, key: string)
    ensures Find(entries, key).Some? <==> exists i :: 0 <= i < |entries| && entries[i].key == key
  {
    if entries != [] {
      FindIsThere(entries[1..], key);
      assert forall i :: 1 <= i < |entries| ==> entries[i] == entries[1..][i - 1];
      if i :| 0 <= i < |entries| && entries[i].key == key {
        assert i == 0 || entries[1..][i - 1].key == key;
      }
    }
  }

  lemma TailDistinct(entries: Entries)
    requires Distinct(entries) && entries != []
    ensures Distinct(entries[1..]) && Find(entries[1..], entries[0].key).None?
  {
    FindIsThere(entries[1..], entries[0].key);
  }

  lemma HeadDistinct(item: Item, rest: Entries)
    requires Distinct(rest) && Find(rest, item.key).None?
    ensures Distinct([item] + rest)
  {
    FindIsThere(rest, item.key);
  }

  lemma {:induction false} FindWithout(entries: Entries, key: string, k: string)
    requires Distinct(entries)
    ensures Distinct(Without(entries, key))
    ensures Find(Without(entries, key), k) == if k == key then None else Find(entries, k)
    ensures |Without(entries, key)| <= |entries|
  {
    hide Distinct;
    if entries != [] {
      TailDistinct(entries);
      FindWithout(entries[1..], key, k);
      if entries[0].key != key {
        FindWithout(entries[1..], key, entries[0].key);
        HeadDistinct(entries[0], Without(entries[1..], key));
        assert ([entries[0]] + Without(entries[1..], key))[1..] == Without(entries[1..], key);
      }
    }
  }

  lemma {:induction false} FindWith(entries: Entries, key: string, entry: Entry, k: string)
    requires Distinct(entries)
    ensures Distinct(With(entries, key, entry))
    ensures Find(With(entries, key, entry), k) == if k == key then Some(entry) else Find(entries, k)
    ensures |With(entries, key, entry)| == |entries| + (if Find(entries, key).Some? then 0 else 1)
  {
    hide Distinct;
    if entries == [] {
      NoneDistinct();
      HeadDistinct(Item(key, entry), []);
      assert [Item(key, entry)] + [] == [Item(key, entry)];
      assert [Item(key, entry)][1..] == [];
    } else {
      TailDistinct(entries);
      if entries[0].key == key {
        HeadDistinct(Item(key, entry), entries[1..]);
        assert ([Item(key, entry)] + entries[1..])[1..] == entries[1..];
      } else {
        FindWith(entries[1..], key, entry, k);
        FindWith(entries[1..], key, entry, entries[0].key);
        HeadDistinct(entries[0], With(entries[1..], key, entry));
        assert ([entries[0]] + With(entries[1..], key, entry))[1..] == With(entries[1..], key, entry);
      }
    }
  }

  lemma NoneDistinct()
    ensures Distinct([])
  {
  }

  lemma {:induction false} FindUnexpired(entries: Entries, at: int, k: string)
    requires Distinct(entries)
    ensures Distinct(Unexpired(entries, at))
    ensures Find(Unexpired(entries, at), k) == LiveEntry(entries, k, at)
    ensures |Unexpired(entries, at)| <= |entries|
  {
    hide Distinct;
    if entries == [] {
      NoneDistinct();
    } else {
      var rest := Unexpired(entries[1..], at);
      TailDistinct(entries);
      FindUnexpired(entries[1..], at, k);
      FindUnexpired(entries[1..], at, entries[0].key);
      HeadDistinct(entries[0], rest);
      assert ([entries[0]] + rest)[1..] == rest;
      assert [] + rest == rest;
    }
  }

  function Cap(maxEntries: int): int {
    if maxEntries < 1 then 1 else maxEntries
  }

  /** A store: the entry is there, and every other live entry but, at the cap, the oldest one. */
  lemma FindStored(entries: Entries, maxEntries: int, key: string, entry: Entry, at: int, k: string)
    requires Distinct(entries)
    ensures var after, live := StoreOn(entries, maxEntries, key, entry, at), Unexpired(entries, at);
            && Distinct(after) && (|entries| <= Cap(maxEntries) ==> |after| <= Cap(maxEntries))
            && Find(after, key) == Some(entry)
            && (k != key && Find(after, k).Some? ==> Find(after, k) == LiveEntry(entries, k, at))
            && (k != key && (|live| < maxEntries || (live != [] && live[0].key != k)) ==>
                  Find(after, k) == LiveEntry(entries, k, at))
            && (|live| >= maxEntries && live != [] && live[0].key != key ==> Find(after, live[0].key).None?)
  {
    hide Distinct, With;
    var live := Unexpired(entries, at);
    FindUnexpired(entries, at, k);
    FindUnexpired(entries, at, key);
    var kept := if |live| >= maxEntries && live != [] then live[1..] else live;
    if live != [] {
      TailDistinct(live);
      FindWith(kept, key, entry, live[0].key);
    }
    FindWith(kept, key, entry, k);
    FindWith(kept, key, entry, key);
  }

  // ---------- One step ----------

  /** The entry event `e` writes for `key` when its result is `r`, if any. */
  function Written(e: Event, r: Result, key: string): Option<Entry> {
    match e.op
    case Put(k, guard, value, ttlMs) => if k == key then Some(Entry(guard, value, e.at + ttlMs)) else None
    case Claim(k, ttlMs) => if k == key && r == Answered(Granted) then Some(Entry("", "", e.at + ttlMs)) else None
    case Take(_, _) => None
  }

  predicate TakesFrom(e: Event, r: Result, key: string) {
    e.op.Take? && e.op.key == key && r.Took? && r.taken.Taken?
  }

  /** What a step leaves under a key: what it writes, nothing it takes, and at most what was there. */
  lemma StepOnKey(entries: Entries, maxEntries: int, e: Event, key: string)
    requires Distinct(entries) && |entries| <= Cap(maxEntries)
    ensures var (after, r) := Step(entries, maxEntries, e);
            && Distinct(after) && |after| <= Cap(maxEntries)
            && (Written(e, r, key).Some? ==> Find(after, key) == Written(e, r, key))
            && (Written(e, r, key).None? && Find(after, key).Some? ==>
                  Find(after, key) == Find(entries, key) && !TakesFrom(e, r, key))
  {
    hide Distinct, StoreOn, Unexpired, Without;
    match e.op {
      case Put(k, guard, value, ttlMs) => FindStored(entries, maxEntries, k, Entry(guard, value, e.at + ttlMs), e.at, key);
      case Take(k, guard) => FindWithout(entries, k, key);
      case Claim(k, ttlMs) =>
        FindUnexpired(entries, e.at, key);
        FindStored(entries, maxEntries, k, Entry("", "", e.at + ttlMs), e.at, key);
        FindStored(Unexpired(entries, e.at), maxEntries, k, Entry("", "", e.at + ttlMs), e.at, key);
    }
  }

  /** A live entry outlasts every step but a put, its own take, and time. */
  lemma LiveStays(entries: Entries, maxEntries: int, e: Event, key: string)
    requires Distinct(entries) && LiveEntry(entries, key, e.at).Some? && !e.op.Put?
    requires !(e.op.Take? && e.op.key == key && e.op.guard == LiveEntry(entries, key, e.at).value.guard)
    ensures LiveEntry(Step(entries, maxEntries, e).0, key, e.at) == LiveEntry(entries, key, e.at)
  {
    hide Distinct, StoreOn, Unexpired, Without;
    match e.op {
      case Take(k, guard) => FindWithout(entries, k, key);
      case Claim(k, ttlMs) =>
        var live := Unexpired(entries, e.at);
        FindUnexpired(entries, e.at, key);
        FindUnexpired(live, e.at, key);
        FindStored(entries, maxEntries, k, Entry("", "", e.at + ttlMs), e.at, key);
        FindStored(live, maxEntries, k, Entry("", "", e.at + ttlMs), e.at, key);
    }
  }

  // ---------- Runs ----------

  lemma {:induction false} RunKeeps(run: seq<Event>, maxEntries: int)
    ensures Distinct(After(run, maxEntries)) && |After(run, maxEntries)| <= Cap(maxEntries)
    decreases |run|
  {
    hide Step, Distinct;
    if run == [] {
      NoneDistinct();
    } else {
      RunKeeps(run[..|run| - 1], maxEntries);
      StepOnKey(After(run[..|run| - 1], maxEntries), maxEntries, run[|run| - 1], "");
    }
  }

  /** Event `n` is a take that found a live entry under another guard. */
  predicate IsMismatch(run: seq<Event>, maxEntries: int, n: nat)
    requires n < |run|
  {
    ResultAt(run, maxEntries, n).Took? && ResultAt(run, maxEntries, n).taken.Mismatch?
  }

  function WithoutEvent(run: seq<Event>, n: nat): seq<Event>
    requires n < |run|
  {
    run[..n] + run[n + 1..]
  }

  lemma WithoutPrefix(run: seq<Event>, n: nat, k: nat)
    requires n < k <= |run|
    ensures WithoutEvent(run, n)[..k - 1] == WithoutEvent(run[..k], n)
    ensures k < |run| ==> WithoutEvent(run, n)[k - 1] == run[k]
  {
    assert run[..k][..n] == run[..n];
    assert run[..k][n + 1..] == run[n + 1..][..k - n - 1];
  }

  lemma MismatchStep(entries: Entries, maxEntries: int, e: Event)
    requires Step(entries, maxEntries, e).1.Took? && Step(entries, maxEntries, e).1.taken.Mismatch?
    ensures Step(entries, maxEntries, e).0 == entries
  {
  }

  lemma {:induction false} MismatchLeaves(run: seq<Event>, maxEntries: int, n: nat)
    requires n < |run| && IsMismatch(run, maxEntries, n)
    ensures After(run, maxEntries) == After(WithoutEvent(run, n), maxEntries)
    decreases |run|
  {
    hide Step;
    var last := |run| - 1;
    if n == last {
      assert WithoutEvent(run, n) == run[..n];
      MismatchStep(After(run[..n], maxEntries), maxEntries, run[n]);
    } else {
      assert run[..last][..n] == run[..n];
      MismatchLeaves(run[..last], maxEntries, n);
      WithoutPrefix(run, n, last);
    }
  }

  /** A guess under a wrong guard goes unnoticed: without it every other event has the same result. */
  lemma MismatchUnseen(run: seq<Event>, maxEntries: int, n: nat, m: nat)
    requires n < |run| && m < |run| && m != n && IsMismatch(run, maxEntries, n)
    ensures ResultAt(WithoutEvent(run, n), maxEntries, if m < n then m else m - 1) == ResultAt(run, maxEntries, m)
  {
    hide Step;
    var rest := WithoutEvent(run, n);
    if m < n {
      assert rest[..m] == run[..m];
    } else {
      assert run[..m][..n] == run[..n];
      MismatchLeaves(run[..m], maxEntries, n);
      WithoutPrefix(run, n, m);
    }
  }

  /** The size stays within the cap on every run exactly when the cap leaves room for one entry. */
  lemma SizeIffRoomForOne(maxEntries: int)
    ensures (forall run :: |After(run, maxEntries)| <= maxEntries) <==> maxEntries >= 1
  {
    if maxEntries >= 1 {
      forall run
        ensures |After(run, maxEntries)| <= maxEntries
      {
        RunKeeps(run, maxEntries);
      }
    } else {
      var run := [Event(0, Put("", "", "", 1))];
      assert run[..0] == [];
      assert After([], maxEntries) == [];
      assert |After(run, maxEntries)| == 1;
    }
  }

  /** The last event that wrote `key` or took from it. */
  function LastTouch(run: seq<Event>, maxEntries: int, key: string): Option<nat>
    decreases |run|
  {
    if run == [] then None
    else
      var n := |run| - 1;
      var r := ResultAt(run, maxEntries, n);
      if Written(run[n], r, key).Some? || TakesFrom(run[n], r, key) then Some(n) else LastTouch(run[..n], maxEntries, key)
  }

  /** Whatever is stored under a key was written by the last event that touched it. */
  lemma {:induction false} StoredByLastTouch(run: seq<Event>, maxEntries: int, key: string)
    requires Find(After(run, maxEntries), key).Some?
    ensures var m := LastTouch(run, maxEntries, key);
            m.Some? && m.value < |run|
            && Written(run[m.value], ResultAt(run, maxEntries, m.value), key) == Find(After(run, maxEntries), key)
    decreases |run|
  {
    hide Step, Written, TakesFrom, Find, Distinct;
    if run == [] {
      NothingFirst(key);
    } else {
      var n := |run| - 1;
      var init := run[..n];
      RunKeeps(init, maxEntries);
      StepOnKey(After(init, maxEntries), maxEntries, run[n], key);
      if Written(run[n], ResultAt(run, maxEntries, n), key).None? {
        StoredByLastTouch(init, maxEntries, key);
        var m := LastTouch(init, maxEntries, key).value;
        assert init[..m] == run[..m];
      }
    }
  }

  lemma NothingFirst(key: string)
    ensures Find([], key).None?
  {
  }

  /** A value taken is the one the last event that touched its key wrote, under the guard it was written
      with, and before it expired: no event in between wrote the key or took from it. */
  lemma TakenFromLastWrite(run: seq<Event>, maxEntries: int, n: nat)
    requires n < |run| && run[n].op.Take? && TakesFrom(run[n], ResultAt(run, maxEntries, n), run[n].op.key)
    ensures var key := run[n].op.key;
            var m := LastTouch(run[..n], maxEntries, key);
            && m.Some? && m.value < n
            && var w := Written(run[m.value], ResultAt(run, maxEntries, m.value), key);
               && w.Some? && w.value.guard == run[n].op.guard && run[n].at < w.value.expiresAt
               && ResultAt(run, maxEntries, n) == Took(Taken(w.value.value))
  {
    var key := run[n].op.key;
    StoredByLastTouch(run[..n], maxEntries, key);
    var m := LastTouch(run[..n], maxEntries, key).value;
    assert run[..n][..m] == run[..m];
  }

  lemma {:induction false} LastTouchIsLast(run: seq<Event>, maxEntries: int, key: string, k: nat)
    requires k < |run|
    requires Written(run[k], ResultAt(run, maxEntries, k), key).Some? || TakesFrom(run[k], ResultAt(run, maxEntries, k), key)
    ensures LastTouch(run, maxEntries, key).Some? && k <= LastTouch(run, maxEntries, key).value < |run|
    decreases |run|
  {
    hide Step, Written, TakesFrom;
    var n := |run| - 1;
    if k < n {
      assert run[..n][..k] == run[..k];
      LastTouchIsLast(run[..n], maxEntries, key, k);
    }
  }

  /** Two takes that both got a value under one key got what two different events wrote: the second of
      these came after the first take. So no value put is taken twice. */
  lemma TakenAtMostOnce(run: seq<Event>, maxEntries: int, first: nat, second: nat)
    requires first < second < |run| && run[first].op.Take? && run[second].op.Take?
    requires run[first].op.key == run[second].op.key
    requires TakesFrom(run[first], ResultAt(run, maxEntries, first), run[first].op.key)
    requires TakesFrom(run[second], ResultAt(run, maxEntries, second), run[second].op.key)
    ensures var key := run[first].op.key;
            var a, b := LastTouch(run[..first], maxEntries, key), LastTouch(run[..second], maxEntries, key);
            a.Some? && b.Some? && a.value < first < b.value < second
  {
    hide Step, LastTouch, TakesFrom;
    TakenFromLastWrite(run, maxEntries, first);
    TakenFromLastWrite(run, maxEntries, second);
    var init := run[..second];
    assert init[..first] == run[..first];
    LastTouchIsLast(init, maxEntries, run[first].op.key, first);
  }

  // ---------- Claims ----------

  /** Event `k` ends a claim of `key` before its time: a put that writes the key, or evicts it as the oldest
      entry at the cap, or a take that got it. */
  predicate Ends(run: seq<Event>, maxEntries: int, k: nat, key: string)
    requires k < |run|
  {
    var live := Unexpired(After(run[..k], maxEntries), run[k].at);
    match run[k].op
    case Put(written, _, _, _) => written == key || (|live| >= maxEntries && live != [] && live[0].key == key)
    case Take(_, _) => TakesFrom(run[k], ResultAt(run, maxEntries, k), key)
    case Claim(_, _) => false
  }

  /** A live entry outlasts an event that does not end it. */
  lemma LiveUnlessEnded(run: seq<Event>, maxEntries: int, k: nat, key: string)
    requires k < |run| && !Ends(run, maxEntries, k, key)
    requires LiveEntry(After(run[..k], maxEntries), key, run[k].at).Some?
    ensures LiveEntry(After(run[..k + 1], maxEntries), key, run[k].at) == LiveEntry(After(run[..k], maxEntries), key, run[k].at)
  {
    hide Distinct, StoreOn, Unexpired, Without;
    var e, entries := run[k], After(run[..k], maxEntries);
    assert run[..k + 1][..k] == run[..k];
    RunKeeps(run[..k], maxEntries);
    if e.op.Put? {
      FindUnexpired(entries, e.at, key);
      FindStored(entries, maxEntries, e.op.key, Entry(e.op.guard, e.op.value, e.at + e.op.ttlMs), e.at, key);
    } else {
      LiveStays(entries, maxEntries, e, key);
    }
  }

  lemma {:induction false} ClaimHolds(run: seq<Event>, maxEntries: int, i: nat, n: nat)
    requires Timely(run) && i < n <= |run| && run[i].op.Claim?
    requires ResultAt(run, maxEntries, i) == Answered(Granted)
    requires forall k :: i < k < n ==> !Ends(run, maxEntries, k, run[i].op.key)
    ensures Find(After(run[..n], maxEntries), run[i].op.key) == Some(Entry("", "", run[i].at + run[i].op.ttlMs))
         || run[i].at + run[i].op.ttlMs <= run[n - 1].at
    decreases n
  {
    hide Step, Find, Distinct, Ends;
    var key := run[i].op.key;
    if n == i + 1 {
      assert run[..n][..n - 1] == run[..n - 1];
      RunKeeps(run[..n - 1], maxEntries);
      StepOnKey(After(run[..n - 1], maxEntries), maxEntries, run[i], key);
    } else {
      ClaimHolds(run, maxEntries, i, n - 1);
      if run[i].at + run[i].op.ttlMs > run[n - 1].at {
        LiveUnlessEnded(run, maxEntries, n - 1, key);
      }
    }
  }

  /** In any run, two claims of one key are granted at least the first one's lifetime apart, unless a put
      overwrote or evicted the first claim, or a take took it, in between. */
  lemma ClaimsApart(run: seq<Event>, maxEntries: int, i: nat, j: nat)
    requires Timely(run) && i < j < |run|
    requires run[i].op.Claim? && run[j].op.Claim? && run[i].op.key == run[j].op.key
    requires ResultAt(run, maxEntries, i) == Answered(Granted) && ResultAt(run, maxEntries, j) == Answered(Granted)
    ensures run[i].at + run[i].op.ttlMs <= run[j].at
         || exists k :: i < k < j && Ends(run, maxEntries, k, run[i].op.key)
  {
    hide After, Ends;
    if forall k :: i < k < j ==> !Ends(run, maxEntries, k, run[i].op.key) {
      ClaimHolds(run, maxEntries, i, j);
    }
  }

  /** A claim is rejected exactly when the key is free but live entries fill the store, and then no live
      entry is lost; otherwise it is granted exactly when nothing live is under the key, and recorded. */
  lemma ClaimExactly(entries: Entries, maxEntries: int, key: string, ttlMs: int, at: int)
    requires Distinct(entries)
    ensures var (after, r) := ClaimOn(entries, maxEntries, key, ttlMs, at);
            && (r == Held <==> LiveEntry(entries, key, at).Some?)
            && (r == Full <==> LiveEntry(entries, key, at).None? && |Unexpired(entries, at)| >= maxEntries)
            && (r == Granted ==> Find(after, key) == Some(Entry("", "", at + ttlMs)))
            && forall k :: k != key ==> LiveEntry(after, k, at) == LiveEntry(entries, k, at)
  {
    hide Distinct, StoreOn, Find;
    FindUnexpired(entries, at, key);
    var live := Unexpired(entries, at);
    FindStored(entries, maxEntries, key, Entry("", "", at + ttlMs), at, key);
    FindUnexpired(live, at, key);
    FindStored(live, maxEntries, key, Entry("", "", at + ttlMs), at, key);
    hide Unexpired;
    forall k | k != key
      ensures LiveEntry(ClaimOn(entries, maxEntries, key, ttlMs, at).0, k, at) == LiveEntry(entries, k, at)
    {
      FindUnexpired(entries, at, k);
      FindUnexpired(live, at, k);
      FindStored(entries, maxEntries, key, Entry("", "", at + ttlMs), at, k);
      FindStored(live, maxEntries, key, Entry("", "", at + ttlMs), at, k);
    }
  }
}
