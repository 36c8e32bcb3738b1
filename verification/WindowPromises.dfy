/** What a counter promises of a take over several keys and of marks over a run (src/utils/shared-store.ts:68-95),
    apart from the loops that keep it. */
module WindowPromises {
  import opened Wrappers
  import opened WindowCounter
  import opened CounterRefinement

  // ---------- A take over several keys ----------

  predicate DistinctKeys(keys: seq<string>) {
    forall i, j :: 0 <= i < j < |keys| ==> keys[i] != keys[j]
  }

  ghost predicate SomeOver(entries: Entries, keys: seq<string>, o: WindowOptions, at: int) {
    exists k :: k in keys && IsOver(entries, k, o, at)
  }

  /** The longest wait among the keys over the limit; none is shorter than 0. */
  ghost predicate LongestWait(entries: Entries, keys: seq<string>, o: WindowOptions, at: int, wait: int) {
    && wait >= 0
    && (forall k :: k in keys && IsOver(entries, k, o, at) ==> WaitFor(entries, k, o, at) <= wait)
    && (wait == 0 || exists k :: k in keys && IsOver(entries, k, o, at) && WaitFor(entries, k, o, at) == wait)
  }

  lemma {:induction false} CheckedPromise(entries: Entries, keys: seq<string>, o: WindowOptions, at: int)
    ensures var (e, limited, retry) := Checked(entries, keys, o, at);
            && (forall k :: LiveWindow(e, k, at) == LiveWindow(entries, k, at))
            && limited == SomeOver(entries, keys, o, at) && LongestWait(entries, keys, o, at, retry)
    decreases |keys|
  {
    if keys != [] {
      var init, last := keys[..|keys| - 1], keys[|keys| - 1];
      assert keys == init + [last];
      assert forall k :: k in keys <==> k in init || k == last;
      CheckedPromise(entries, init, o, at);
      var (e, limited, retry) := Checked(entries, init, o, at);
      ReadKeeps(e, last, at);
      hide Checked, LiveWindow, Read;
      SameWindow(e, entries, last, o, at);
      if limited {
        var k :| k in init && IsOver(entries, k, o, at);
        assert k in keys;
      }
      if retry != 0 {
        var k :| k in init && IsOver(entries, k, o, at) && WaitFor(entries, k, o, at) == retry;
        assert k in keys;
      }
      CheckedLast(entries, init, last, o, at);
    }
  }

  lemma SameWindow(e: Entries, entries: Entries, key: string, o: WindowOptions, at: int)
    requires LiveWindow(e, key, at) == LiveWindow(entries, key, at)
    ensures IsOver(e, key, o, at) == IsOver(entries, key, o, at) && WaitFor(e, key, o, at) == WaitFor(entries, key, o, at)
  {
  }

  lemma CheckedLast(entries: Entries, init: seq<string>, last: string, o: WindowOptions, at: int)
    ensures var (e, limited, retry) := Checked(entries, init, o, at);
            Checked(entries, init + [last], o, at)
            == if IsOver(e, last, o, at) then (Read(e, last, at), true, Max(retry, WaitFor(e, last, o, at)))
               else (Read(e, last, at), limited, retry)
  {
    assert (init + [last])[..|init|] == init;
  }

  /** One key of a take that adds `add`: its live window counts that much more, or a new one starts with it. */
  ghost predicate KeyCounted(c: Counter, after: Counter, key: string, add: int, windowMs: int, at: int) {
    var w := LiveWindow(c.entries, key, at);
    if add <= 0 then LiveWindow(after.entries, key, at) == w
    else
      && key in after.entries
      && var counted := after.entries[key];
         if w.Some? then counted == w.value.(count := w.value.count + add)
         else counted == Window(add, at + windowMs, false, counted.id) && c.last < counted.id <= after.last
  }

  function CountAfter(c: Counter, key: string, add: int, at: int): int {
    CountIn(LiveWindow(c.entries, key, at)) + (if add > 0 then add else 0)
  }

  ghost predicate HighestCount(c: Counter, keys: seq<string>, add: int, at: int, count: int) {
    && count >= 0
    && (forall k :: k in keys ==> CountAfter(c, k, add, at) <= count)
    && (count == 0 || exists k :: k in keys && CountAfter(c, k, add, at) == count)
  }

  /** The ticket names the window of every key that has one now. */
  ghost predicate NamesWindows(c: Counter, after: Counter, keys: seq<string>, add: int, at: int, windows: map<string, nat>) {
    && (forall k :: k in windows <==> k in keys && (add > 0 || LiveWindow(c.entries, k, at).Some?))
    && (forall k :: k in windows ==> k in after.entries && windows[k] == after.entries[k].id)
  }

  lemma KeyStays(c: Counter, before: Counter, key: string, other: string, add: int, windowMs: int, at: int)
    requires KeyCounted(c, before, key, add, windowMs, at) && other != key
    ensures KeyCounted(c, CountOne(before, other, add, windowMs, at).0, key, add, windowMs, at)
  {
  }

  lemma KeyNow(c: Counter, before: Counter, key: string, add: int, windowMs: int, at: int)
    requires LiveWindow(before.entries, key, at) == LiveWindow(c.entries, key, at) && c.last <= before.last
    ensures var (after, w) := CountOne(before, key, add, windowMs, at);
            && KeyCounted(c, after, key, add, windowMs, at) && before.last <= after.last
            && CountIn(w) == CountAfter(c, key, add, at)
            && (w.Some? <==> add > 0 || LiveWindow(c.entries, key, at).Some?)
            && (w.Some? ==> key in after.entries && after.entries[key].id == w.value.id)
            && (forall k :: k != key ==> LiveWindow(after.entries, k, at) == LiveWindow(before.entries, k, at))
            && (forall k :: k != key && k in before.entries ==> k in after.entries && after.entries[k] == before.entries[k])
  {
  }

  lemma CountedLast(c: Counter, init: seq<string>, last: string, add: int, windowMs: int, at: int)
    ensures var (before, top, windows) := Counted(c, init, add, windowMs, at);
            var (after, w) := CountOne(before, last, add, windowMs, at);
            Counted(c, init + [last], add, windowMs, at)
            == (after, Max(top, CountIn(w)), if w.Some? then windows[last := w.value.id] else windows)
  {
    assert (init + [last])[..|init|] == init;
  }

  lemma HighestGrows(c: Counter, init: seq<string>, last: string, add: int, at: int, top: int)
    requires HighestCount(c, init, add, at, top)
    ensures HighestCount(c, init + [last], add, at, Max(top, CountAfter(c, last, add, at)))
  {
    hide CountAfter;
    var keys := init + [last];
    assert forall k :: k in keys <==> k in init || k == last;
    if top != 0 {
      var k :| k in init && CountAfter(c, k, add, at) == top;
      assert k in keys;
    }
    assert last in keys;
  }

  lemma NamesGrow(c: Counter, before: Counter, init: seq<string>, last: string, add: int, windowMs: int, at: int,
                  windows: map<string, nat>)
    requires NamesWindows(c, before, init, add, at, windows) && last !in init
    requires LiveWindow(before.entries, last, at) == LiveWindow(c.entries, last, at) && c.last <= before.last
    ensures var (after, w) := CountOne(before, last, add, windowMs, at);
            NamesWindows(c, after, init + [last], add, at, if w.Some? then windows[last := w.value.id] else windows)
  {
    KeyNow(c, before, last, add, windowMs, at);
    hide CountOne, LiveWindow, KeyCounted;
    assert forall k :: k in init + [last] <==> k in init || k == last;
  }

  /** What the second pass of a take keeps. */
  ghost predicate Kept(c: Counter, after: Counter, keys: seq<string>, add: int, windowMs: int, at: int) {
    && (forall k :: k in keys ==> KeyCounted(c, after, k, add, windowMs, at))
    && (forall k :: k !in keys ==> LiveWindow(after.entries, k, at) == LiveWindow(c.entries, k, at))
    && c.last <= after.last
  }

  lemma KeptGrows(c: Counter, before: Counter, init: seq<string>, last: string, add: int, windowMs: int, at: int)
    requires Kept(c, before, init, add, windowMs, at) && last !in init
    ensures Kept(c, CountOne(before, last, add, windowMs, at).0, init + [last], add, windowMs, at)
  {
    KeyNow(c, before, last, add, windowMs, at);
    forall k | k in init
      ensures KeyCounted(c, CountOne(before, last, add, windowMs, at).0, k, add, windowMs, at)
    {
      KeyStays(c, before, k, last, add, windowMs, at);
    }
    hide CountOne, LiveWindow, KeyCounted;
    assert forall k :: k in init + [last] <==> k in init || k == last;
  }

  lemma {:induction false} CountedPromise(c: Counter, keys: seq<string>, add: int, windowMs: int, at: int)
    requires DistinctKeys(keys)
    ensures var (after, count, windows) := Counted(c, keys, add, windowMs, at);
            && Kept(c, after, keys, add, windowMs, at) && HighestCount(c, keys, add, at, count)
            && NamesWindows(c, after, keys, add, at, windows)
    decreases |keys|
  {
    if keys != [] {
      var init, last := keys[..|keys| - 1], keys[|keys| - 1];
      assert keys == init + [last] && last !in init;
      CountedPromise(c, init, add, windowMs, at);
      CountedLast(c, init, last, add, windowMs, at);
      var (before, top, windows) := Counted(c, init, add, windowMs, at);
      KeyNow(c, before, last, add, windowMs, at);
      hide Counted, CountOne, LiveWindow, KeyCounted, CountAfter;
      KeptGrows(c, before, init, last, add, windowMs, at);
      HighestGrows(c, init, last, add, at, top);
      NamesGrow(c, before, init, last, add, windowMs, at, windows);
    }
  }

  /** A take over different keys: refused exactly when some key's count plus the weight would pass the
      limit; a refusal adds `refusedWeight` to every key and an acceptance `weight`, all of them or none;
      the wait is the longest among the keys over, the count the highest afterwards, the ticket names every
      key's window, and no other key's window changes. */
  lemma TakePromise(c: Counter, keys: seq<string>, o: WindowOptions, at: int)
    requires DistinctKeys(keys)
    ensures var (after, d) := TakeOn(c, keys, o, at);
            var add := if d.limited then o.refusedWeight else o.weight;
            && d.limited == SomeOver(c.entries, keys, o, at)
            && (d.limited ==> LongestWait(c.entries, keys, o, at, d.retryAfterMs))
            && (forall k :: k in keys ==> KeyCounted(c, after, k, add, o.windowMs, at))
            && (forall k :: k !in keys ==> LiveWindow(after.entries, k, at) == LiveWindow(c.entries, k, at))
            && HighestCount(c, keys, add, at, d.count) && NamesWindows(c, after, keys, add, at, d.windows)
  {
    CheckedPromise(c.entries, keys, o, at);
    var (e, limited, retry) := Checked(c.entries, keys, o, at);
    var read := c.(entries := e);
    var add := if limited then o.refusedWeight else o.weight;
    CountedPromise(read, keys, add, o.windowMs, at);
    var (after, count, windows) := Counted(read, keys, add, o.windowMs, at);
    hide Checked, Counted, LiveWindow, SomeOver, LongestWait;
    ReadAlike(c, read, after, keys, add, o.windowMs, at, count, windows);
  }

  /** The promise speaks of the live windows alone. */
  lemma ReadAlike(c: Counter, read: Counter, after: Counter, keys: seq<string>, add: int, windowMs: int, at: int,
                  count: int, windows: map<string, nat>)
    requires read.last == c.last && forall k :: LiveWindow(read.entries, k, at) == LiveWindow(c.entries, k, at)
    ensures forall k :: KeyCounted(read, after, k, add, windowMs, at) == KeyCounted(c, after, k, add, windowMs, at)
    ensures HighestCount(read, keys, add, at, count) == HighestCount(c, keys, add, at, count)
    ensures NamesWindows(read, after, keys, add, at, windows) == NamesWindows(c, after, keys, add, at, windows)
  {
    hide LiveWindow;
    assert forall k :: CountAfter(read, k, add, at) == CountAfter(c, k, add, at);
  }

  // ---------- Marks ----------

  /** The window `id` of `key` is marked, if it is still there, and will not be handed out again. */
  ghost predicate Spent(c: Counter, key: string, id: nat) {
    id <= c.last && (key in c.entries && c.entries[key].id == id ==> c.entries[key].marked)
  }

  lemma {:induction false} CountedKeepsSpent(c: Counter, keys: seq<string>, add: int, windowMs: int, at: int, key: string, id: nat)
    requires Spent(c, key, id)
    ensures Spent(Counted(c, keys, add, windowMs, at).0, key, id)
    decreases |keys|
  {
    if keys != [] {
      CountedKeepsSpent(c, keys[..|keys| - 1], add, windowMs, at, key, id);
    }
  }

  lemma {:induction false} CheckedKeeps(entries: Entries, keys: seq<string>, o: WindowOptions, at: int)
    ensures forall k :: k in Checked(entries, keys, o, at).0 ==> k in entries && Checked(entries, keys, o, at).0[k] == entries[k]
    decreases |keys|
  {
    if keys != [] {
      CheckedKeeps(entries, keys[..|keys| - 1], o, at);
    }
  }

  lemma StepKeepsSpent(m: Memory, e: CounterEvent, key: string, id: nat)
    requires Spent(m.counter, key, id)
    ensures Spent(MemoryStep(m, e).0.counter, key, id)
  {
    if e.op.Take? {
      var keys, o := e.op.keys, e.op.options;
      CheckedKeeps(m.counter.entries, keys, o, e.at);
      var (entries, limited, _) := Checked(m.counter.entries, keys, o, e.at);
      CountedKeepsSpent(m.counter.(entries := entries), keys, if limited then o.refusedWeight else o.weight, o.windowMs, e.at, key, id);
      hide Checked, Counted;
    }
  }

  /** The counter before event `n` of a run. */
  function Before(run: seq<CounterEvent>, n: nat): Memory
    requires n <= |run|
  {
    if n == 0 then Memory(EMPTY, []) else MemoryStep(Before(run, n - 1), run[n - 1]).0
  }

  /** Whether event `n` is a mark of `key` that answers true. */
  predicate Marks(run: seq<CounterEvent>, n: nat, key: string)
    requires n < |run|
  {
    run[n].op == MarkOnce(key) && MemoryStep(Before(run, n), run[n]).1 == Marked(true)
  }

  /** The live window a mark finds. */
  function WindowMarked(run: seq<CounterEvent>, n: nat, key: string): Option<Window>
    requires n < |run|
  {
    LiveWindow(Before(run, n).counter.entries, key, run[n].at)
  }

  lemma {:induction false} IdsInOrder(run: seq<CounterEvent>, n: nat, key: string)
    requires n <= |run|
    ensures var c := Before(run, n).counter; key in c.entries ==> c.entries[key].id <= c.last
  {
    if n > 0 {
      IdsInOrder(run, n - 1, key);
      StepKeepsIds(Before(run, n - 1), run[n - 1], key);
    }
  }

  lemma StepKeepsIds(m: Memory, e: CounterEvent, key: string)
    requires key in m.counter.entries ==> m.counter.entries[key].id <= m.counter.last
    ensures var c := MemoryStep(m, e).0.counter; key in c.entries ==> c.entries[key].id <= c.last
  {
    if e.op.Take? {
      var keys, o := e.op.keys, e.op.options;
      CheckedKeeps(m.counter.entries, keys, o, e.at);
      var (entries, limited, _) := Checked(m.counter.entries, keys, o, e.at);
      CountedKeepsIds(m.counter.(entries := entries), keys, if limited then o.refusedWeight else o.weight, o.windowMs, e.at, key);
      hide Checked, Counted;
    }
  }

  lemma {:induction false} CountedKeepsIds(c: Counter, keys: seq<string>, add: int, windowMs: int, at: int, key: string)
    requires key in c.entries ==> c.entries[key].id <= c.last
    ensures var after := Counted(c, keys, add, windowMs, at).0; key in after.entries ==> after.entries[key].id <= after.last
    decreases |keys|
  {
    if keys != [] {
      CountedKeepsIds(c, keys[..|keys| - 1], add, windowMs, at, key);
    }
  }

  lemma {:induction false} SpentStays(run: seq<CounterEvent>, i: nat, n: nat, key: string, id: nat)
    requires i <= n <= |run| && Spent(Before(run, i).counter, key, id)
    ensures Spent(Before(run, n).counter, key, id)
    decreases n - i
  {
    hide MemoryStep, Spent;
    if i < n {
      SpentStays(run, i, n - 1, key, id);
      StepKeepsSpent(Before(run, n - 1), run[n - 1], key, id);
    }
  }

  /** Over a whole run of any operations, two marks of a key that both answer true found different windows. */
  lemma MarksOncePerWindow(run: seq<CounterEvent>, i: nat, j: nat, key: string)
    requires i < j < |run| && Marks(run, i, key) && Marks(run, j, key)
    ensures WindowMarked(run, i, key).Some? && WindowMarked(run, j, key).Some?
    ensures WindowMarked(run, i, key).value.id != WindowMarked(run, j, key).value.id
  {
    IdsInOrder(run, i, key);
    var id := LiveWindow(Before(run, i).counter.entries, key, run[i].at).value.id;
    assert Spent(Before(run, i + 1).counter, key, id);
    SpentStays(run, i + 1, j, key, id);
  }

  /** Event `n` asks for the mark of `key` while its window `id` lives. */
  predicate Asks(run: seq<CounterEvent>, n: nat, key: string, id: nat)
    requires n < |run|
  {
    run[n].op == MarkOnce(key) && WindowMarked(run, n, key).Some? && WindowMarked(run, n, key).value.id == id
  }

  /** A marked window of `key`. */
  predicate HasMarked(c: Counter, key: string, id: nat) {
    key in c.entries && c.entries[key].id == id && c.entries[key].marked
  }

  lemma {:induction false} CountedMarksNone(c: Counter, keys: seq<string>, add: int, windowMs: int, at: int, key: string, id: nat)
    requires HasMarked(Counted(c, keys, add, windowMs, at).0, key, id)
    ensures HasMarked(c, key, id)
    decreases |keys|
  {
    if keys != [] {
      CountedMarksNone(c, keys[..|keys| - 1], add, windowMs, at, key, id);
    }
  }

  /** Only a mark marks. */
  lemma StepMarks(m: Memory, e: CounterEvent, key: string, id: nat)
    requires HasMarked(MemoryStep(m, e).0.counter, key, id)
    ensures || HasMarked(m.counter, key, id)
            || (e.op == MarkOnce(key) && LiveWindow(m.counter.entries, key, e.at).Some?
                && LiveWindow(m.counter.entries, key, e.at).value.id == id)
  {
    if e.op.Take? {
      var keys, o := e.op.keys, e.op.options;
      CheckedKeeps(m.counter.entries, keys, o, e.at);
      var (entries, limited, _) := Checked(m.counter.entries, keys, o, e.at);
      CountedMarksNone(m.counter.(entries := entries), keys, if limited then o.refusedWeight else o.weight, o.windowMs, e.at, key, id);
      hide Checked, Counted;
    }
  }

  lemma {:induction false} MarkedWasAsked(run: seq<CounterEvent>, n: nat, key: string, id: nat)
    requires n <= |run| && HasMarked(Before(run, n).counter, key, id)
    ensures exists i: nat :: i < n && Asks(run, i, key, id)
  {
    hide MemoryStep, HasMarked;
    NoneMarked(key, id);
    if n > 0 {
      StepMarks(Before(run, n - 1), run[n - 1], key, id);
      if HasMarked(Before(run, n - 1).counter, key, id) {
        MarkedWasAsked(run, n - 1, key, id);
      } else {
        assert Asks(run, n - 1, key, id);
      }
    }
  }

  lemma NoneMarked(key: string, id: nat)
    ensures !HasMarked(EMPTY, key, id)
  {
  }

  /** A mark answers true exactly the first time it is asked while the window lives. */
  lemma MarksFirstTime(run: seq<CounterEvent>, n: nat, key: string, id: nat)
    requires n < |run| && Asks(run, n, key, id)
    ensures Marks(run, n, key) <==> !exists i: nat :: i < n && Asks(run, i, key, id)
  {
    if HasMarked(Before(run, n).counter, key, id) {
      MarkedWasAsked(run, n, key, id);
    } else if i: nat :| i < n && Asks(run, i, key, id) {
      IdsInOrder(run, i, key);
      assert Spent(Before(run, i + 1).counter, key, id);
      SpentStays(run, i + 1, n, key, id);
    }
  }
}
