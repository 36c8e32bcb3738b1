/** How much a fixed window lets through (src/utils/shared-store.ts:195-242): with one limit and one
    window length per key and nothing given back, at most `2 * max` in any span of `windowMs`. */
module BurstBound {
  import opened Wrappers
  import opened WindowCounter
  import opened CounterRefinement

  /** The events of a run without refunds and deletes; every take uses this limit and window. */
  ghost predicate Plain(op: CounterOp, max: int, windowMs: int) {
    && !op.Refund? && !op.Delete?
    && (op.Take? ==> op.options.max == max && op.options.windowMs == windowMs
                     && op.options.weight >= 0 && op.options.refusedWeight >= 0)
  }

  /** The weight a step accepts for `key`. */
  function Accepted(m: Memory, e: CounterEvent, key: string): int {
    if e.op.Take? && key in e.op.keys && !MemoryStep(m, e).1.limited then e.op.options.weight else 0
  }

  function AcceptedAlong(m: Memory, run: seq<CounterEvent>, key: string): int
    decreases |run|
  {
    if run == [] then 0 else Accepted(m, run[0], key) + AcceptedAlong(MemoryStep(m, run[0]).0, run[1..], key)
  }

  function MemoryAfter(m: Memory, run: seq<CounterEvent>): Memory
    decreases |run|
  {
    if run == [] then m else MemoryAfter(MemoryStep(m, run[0]).0, run[1..])
  }

  // ---------- One take and one key ----------

  /** Counting `add` on a key: its window keeps its end, or starts now; it never loses weight. */
  ghost predicate Grew(w: Option<Window>, w': Option<Window>, add: int, windowMs: int, at: int) {
    && (w.Some? ==> w'.Some? && w'.value.expiresAt == w.value.expiresAt)
    && (w.None? && w'.Some? ==> w'.value.expiresAt == at + windowMs)
    && CountIn(w') >= CountIn(w) + add
  }

  lemma {:induction false} CountedGrows(c: Counter, keys: seq<string>, add: int, windowMs: int, at: int, key: string)
    requires add >= 0 && windowMs >= 1
    ensures var c' := Counted(c, keys, add, windowMs, at).0;
            Grew(LiveWindow(c.entries, key, at), LiveWindow(c'.entries, key, at), if key in keys then add else 0, windowMs, at)
    decreases |keys|
  {
    if keys != [] {
      var init, last := keys[..|keys| - 1], keys[|keys| - 1];
      assert key in keys <==> key in init || key == last;
      CountedGrows(c, init, add, windowMs, at, key);
      var before := Counted(c, init, add, windowMs, at).0;
      if key != last {
        assert LiveWindow(CountOne(before, last, add, windowMs, at).0.entries, key, at) == LiveWindow(before.entries, key, at);
      }
    }
  }

  lemma {:induction false} CheckedWindows(entries: Entries, keys: seq<string>, o: WindowOptions, at: int)
    ensures var (e, limited, _) := Checked(entries, keys, o, at);
            && (forall k :: LiveWindow(e, k, at) == LiveWindow(entries, k, at))
            && (!limited ==> forall k :: k in keys ==> CountIn(LiveWindow(entries, k, at)) + o.weight <= o.max)
    decreases |keys|
  {
    if keys != [] {
      var init, last := keys[..|keys| - 1], keys[|keys| - 1];
      assert forall k :: k in keys <==> k in init || k == last;
      CheckedWindows(entries, init, o, at);
      ReadKeeps(Checked(entries, init, o, at).0, last, at);
    }
  }

  ghost function WindowAt(m: Memory, key: string, at: int): Option<Window> {
    LiveWindow(m.counter.entries, key, at)
  }

  /** What any plain step does to the window of a key. */
  lemma StepGrows(m: Memory, e: CounterEvent, key: string, max: int, windowMs: int)
    requires Plain(e.op, max, windowMs) && windowMs >= 1
    ensures var w, w', a := WindowAt(m, key, e.at), WindowAt(MemoryStep(m, e).0, key, e.at), Accepted(m, e, key);
            Grew(w, w', a, windowMs, e.at) && a >= 0 && (a > 0 ==> CountIn(w) + a <= max)
  {
    if e.op.Take? {
      var keys, o := e.op.keys, e.op.options;
      CheckedWindows(m.counter.entries, keys, o, e.at);
      var (entries, limited, _) := Checked(m.counter.entries, keys, o, e.at);
      CountedGrows(m.counter.(entries := entries), keys, if limited then o.refusedWeight else o.weight, windowMs, e.at, key);
      hide Checked, Counted;
    }
  }

  /** Windows never count below zero. */
  ghost predicate Counts(m: Memory, at: int) {
    forall key :: CountIn(WindowAt(m, key, at)) >= 0
  }

  lemma StepKeepsCounts(m: Memory, e: CounterEvent, max: int, windowMs: int)
    requires Plain(e.op, max, windowMs) && windowMs >= 1 && Counts(m, e.at)
    ensures Counts(MemoryStep(m, e).0, e.at)
  {
    hide MemoryStep, WindowAt;
    forall key
      ensures CountIn(WindowAt(MemoryStep(m, e).0, key, e.at)) >= 0
    {
      StepGrows(m, e, key, max, windowMs);
      assert CountIn(WindowAt(m, key, e.at)) >= 0;
    }
  }

  // ---------- A span of events ----------

  ghost predicate PlainRun(run: seq<CounterEvent>, max: int, windowMs: int) {
    forall e :: e in run ==> Plain(e.op, max, windowMs)
  }

  /** Times in order from `start`, none after `end`. */
  ghost predicate Within(start: int, run: seq<CounterEvent>, end: int)
    decreases |run|
  {
    if run == [] then start <= end else start <= run[0].at && Within(run[0].at, run[1..], end)
  }

  lemma WithinEnd(start: int, run: seq<CounterEvent>, end: int)
    requires Within(start, run, end)
    ensures start <= end
    decreases |run|
  {
    if run != [] {
      WithinEnd(run[0].at, run[1..], end);
    }
  }

  /** No window of `key` at `start`, and less than one window's time: one window at most. */
  lemma {:induction false} OneWindow(m: Memory, run: seq<CounterEvent>, key: string, max: int, windowMs: int, start: int, end: int)
    requires PlainRun(run, max, windowMs) && Within(start, run, end) && Counts(m, start)
    requires windowMs >= 1 && max >= 0 && end < start + windowMs && WindowAt(m, key, start).None?
    ensures AcceptedAlong(m, run, key) <= max
    decreases |run|, 0
  {
    hide MemoryStep, Accepted;
    if run != [] {
      var e := run[0];
      WithinEnd(e.at, run[1..], end);
      Later(m, key, start, e.at);
      var t := MemoryStep(m, e).0;
      StepGrows(m, e, key, max, windowMs);
      StepKeepsCounts(m, e, max, windowMs);
      if WindowAt(t, key, e.at).None? {
        OneWindow(t, run[1..], key, max, windowMs, e.at, end);
      } else {
        RestOfWindow(t, run[1..], key, max, windowMs, e.at, end);
      }
    }
  }

  /** A live window of `key`, and less than one window's time after it: what it has left, and one more. */
  lemma {:induction false} RestOfWindow(m: Memory, run: seq<CounterEvent>, key: string, max: int, windowMs: int, start: int, end: int)
    requires PlainRun(run, max, windowMs) && Within(start, run, end) && Counts(m, start)
    requires windowMs >= 1 && max >= 0 && WindowAt(m, key, start).Some?
    requires end < WindowAt(m, key, start).value.expiresAt + windowMs
    ensures AcceptedAlong(m, run, key)
         <= Max(0, max - WindowAt(m, key, start).value.count) + (if end >= WindowAt(m, key, start).value.expiresAt then max else 0)
    decreases |run|, 1
  {
    hide MemoryStep, Accepted;
    if run != [] {
      var e := run[0];
      WithinEnd(e.at, run[1..], end);
      Later(m, key, start, e.at);
      if WindowAt(m, key, e.at).None? {
        OneWindow(m, run, key, max, windowMs, e.at, end);
      } else {
        StepGrows(m, e, key, max, windowMs);
        StepKeepsCounts(m, e, max, windowMs);
        RestOfWindow(MemoryStep(m, e).0, run[1..], key, max, windowMs, e.at, end);
      }
    }
  }

  lemma Later(m: Memory, key: string, at: int, later: int)
    requires at <= later && Counts(m, at)
    ensures Counts(m, later)
    ensures WindowAt(m, key, later).Some? ==> WindowAt(m, key, later) == WindowAt(m, key, at)
    ensures WindowAt(m, key, at).Some? && WindowAt(m, key, later).None? ==> WindowAt(m, key, at).value.expiresAt <= later
  {
    forall k
      ensures CountIn(WindowAt(m, k, later)) >= 0
    {
      assert CountIn(WindowAt(m, k, at)) >= 0;
    }
  }

  /** Whatever the state, at most two windows reach into a span of `windowMs`, its ends included. */
  lemma {:induction false} TwoWindows(m: Memory, run: seq<CounterEvent>, key: string, max: int, windowMs: int, start: int, end: int)
    requires PlainRun(run, max, windowMs) && Within(start, run, end) && Counts(m, start)
    requires windowMs >= 1 && max >= 0 && end <= start + windowMs
    ensures AcceptedAlong(m, run, key) <= 2 * max
    decreases |run|
  {
    hide MemoryStep, Accepted;
    if WindowAt(m, key, start).Some? {
      assert CountIn(WindowAt(m, key, start)) >= 0;
      assert WindowAt(m, key, start).value.expiresAt > start;
      RestOfWindow(m, run, key, max, windowMs, start, end);
    } else if run != [] {
      var e := run[0];
      WithinEnd(e.at, run[1..], end);
      Later(m, key, start, e.at);
      var t := MemoryStep(m, e).0;
      StepGrows(m, e, key, max, windowMs);
      StepKeepsCounts(m, e, max, windowMs);
      if WindowAt(t, key, e.at).None? {
        TwoWindows(t, run[1..], key, max, windowMs, e.at, end);
      } else {
        RestOfWindow(t, run[1..], key, max, windowMs, e.at, end);
      }
    }
  }

  lemma {:induction false} RunKeepsCounts(m: Memory, run: seq<CounterEvent>, max: int, windowMs: int, start: int, end: int)
    requires PlainRun(run, max, windowMs) && Within(start, run, end) && Counts(m, start) && windowMs >= 1
    ensures Counts(MemoryAfter(m, run), end)
    decreases |run|
  {
    hide MemoryStep;
    WithinEnd(start, run, end);
    if run == [] {
      Later(m, "", start, end);
    } else {
      Later(m, "", start, run[0].at);
      StepKeepsCounts(m, run[0], max, windowMs);
      RunKeepsCounts(MemoryStep(m, run[0]).0, run[1..], max, windowMs, run[0].at, end);
    }
  }

  /** After any history, the weight accepted for a key by requests at most `windowMs` apart is at most
      twice the limit. */
  lemma BurstBound(history: seq<CounterEvent>, span: seq<CounterEvent>, key: string, max: int, windowMs: int,
                   began: int, start: int, end: int)
    requires PlainRun(history, max, windowMs) && Within(began, history, start)
    requires PlainRun(span, max, windowMs) && Within(start, span, end) && end <= start + windowMs
    requires windowMs >= 1 && max >= 0
    ensures AcceptedAlong(MemoryAfter(Memory(EMPTY, []), history), span, key) <= 2 * max
  {
    RunKeepsCounts(Memory(EMPTY, []), history, max, windowMs, began, start);
    TwoWindows(MemoryAfter(Memory(EMPTY, []), history), span, key, max, windowMs, start, end);
  }
}
