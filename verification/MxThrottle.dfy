/** The in-process semaphore per provider bucket (src/utils/mx-throttle.ts:89-157): a slot passes from
    the caller that leaves to the waiter that came first. Each section of `withMxLock` between two
    awaits is one step: `Enter` up to the wait (or to `fn`), `Leave` the `finally` block. */
module MxThrottle {

  datatype Lock = Lock(active: int, queue: seq<nat>)

  /** A call in flight: running (or just woken), or waiting for a slot. */
  datatype Caller = Caller(key: string, running: bool)

  datatype State = State(table: map<string, Lock>, callers: map<nat, Caller>)

  datatype Event = Enter(caller: nat, key: string) | Leave(caller: nat)

  function LockOf(s: State, key: string): Lock {
    if key in s.table then s.table[key] else Lock(0, [])
  }

  predicate Enabled(s: State, e: Event) {
    match e
    case Enter(caller, key) => caller !in s.callers
    case Leave(caller) => caller in s.callers && s.callers[caller].running && s.callers[caller].key in s.table
  }

  /** The lock after an arrival: a slot taken, or one more waiter. */
  function Joined(l: Lock, caller: nat, max: int): Lock {
    if l.active < max then Lock(l.active + 1, l.queue) else Lock(l.active, l.queue + [caller])
  }

  function EnterStep(s: State, caller: nat, key: string, max: int): State {
    var l := LockOf(s, key);
    State(s.table[key := Joined(l, caller, max)], s.callers[caller := Caller(key, l.active < max)])
  }

  /** The lock after a departure: handed to the first waiter, or a slot freed. */
  function Released(l: Lock): Lock {
    if l.queue != [] then Lock(l.active, l.queue[1..]) else Lock(l.active - 1, [])
  }

  /** The lock back in the table, or out of it once nobody runs or waits. */
  function Kept(table: map<string, Lock>, key: string, l: Lock): map<string, Lock> {
    if l == Lock(0, []) then table - {key} else table[key := l]
  }

  function LeaveStep(s: State, caller: nat): State
    requires caller in s.callers
  {
    var key := s.callers[caller].key;
    var l := LockOf(s, key);
    var left := s.callers - {caller};
    State(Kept(s.table, key, Released(l)),
          if l.queue != [] then left[l.queue[0] := Caller(key, true)] else left)
  }

  function Step(s: State, e: Event, max: int): State
    requires Enabled(s, e)
  {
    match e
    case Enter(caller, key) => EnterStep(s, caller, key, max)
    case Leave(caller) => LeaveStep(s, caller)
  }

  // ---------- What every reachable state keeps ----------

  /** The callers of `key` that run `fn` or were just woken. */
  function Running(s: State, key: string): set<nat> {
    set c | c in s.callers && s.callers[c] == Caller(key, true)
  }

  predicate Distinct(q: seq<nat>) {
    forall i, j :: 0 <= i < j < |q| ==> q[i] != q[j]
  }

  ghost predicate LockInvariant(s: State, key: string, max: int)
    requires key in s.table
  {
    var l := s.table[key];
    && l.active == |Running(s, key)| <= max
    && (l.queue != [] ==> l.active == max)
    && (l.active > 0 || l.queue != [])
    && Distinct(l.queue)
    && (forall c :: c in l.queue ==> c in s.callers && s.callers[c] == Caller(key, false))
  }

  /** Everyone in flight has its lock in the table, and waits in it unless it runs. */
  ghost predicate Placed(s: State, c: nat)
    requires c in s.callers
  {
    var key := s.callers[c].key;
    key in s.table && (s.callers[c].running || c in s.table[key].queue)
  }

  ghost predicate Invariant(s: State, max: int) {
    && (forall key :: key in s.table ==> LockInvariant(s, key, max))
    && (forall c :: c in s.callers ==> Placed(s, c))
  }

  lemma OtherKeysStay(s: State, t: State, key: string, max: int)
    requires key in s.table && key in t.table && t.table[key] == s.table[key] && LockInvariant(s, key, max)
    requires forall c :: c in s.callers && s.callers[c].key == key ==> c in t.callers && t.callers[c] == s.callers[c]
    requires forall c :: c in t.callers && t.callers[c].key == key ==> c in s.callers && s.callers[c] == t.callers[c]
    ensures LockInvariant(t, key, max)
  {
    assert Running(t, key) == Running(s, key);
  }

  lemma EnterKeepsLock(s: State, caller: nat, key: string, max: int)
    requires Invariant(s, max) && caller !in s.callers && 0 <= max
    ensures LockInvariant(EnterStep(s, caller, key, max), key, max)
  {
    var t := EnterStep(s, caller, key, max);
    var l := LockOf(s, key);
    if key !in s.table {
      assert Running(s, key) == {};
    } else {
      assert LockInvariant(s, key, max);
    }
    if l.active < max {
      assert Running(t, key) == Running(s, key) + {caller};
    } else {
      assert Running(t, key) == Running(s, key);
      assert caller !in l.queue;
    }
  }

  lemma EnterKeepsInvariant(s: State, caller: nat, key: string, max: int)
    requires Invariant(s, max) && caller !in s.callers && 0 <= max
    ensures Invariant(EnterStep(s, caller, key, max), max)
  {
    hide LockInvariant;
    var t := EnterStep(s, caller, key, max);
    EnterKeepsLock(s, caller, key, max);
    forall k | k in t.table && k != key
      ensures LockInvariant(t, k, max)
    {
      OtherKeysStay(s, t, k, max);
    }
    forall c | c in t.callers
      ensures Placed(t, c)
    {
      assert c != caller ==> Placed(s, c);
    }
  }

  lemma Swap(r: set<nat>, gone: nat, next: nat)
    requires gone in r && next !in r
    ensures |r - {gone} + {next}| == |r| && |r - {gone}| == |r| - 1
  {
  }

  lemma HandOffKeepsLock(s: State, caller: nat, max: int, key: string)
    requires key in s.table && LockInvariant(s, key, max) && s.table[key].queue != []
    requires caller in s.callers && s.callers[caller] == Caller(key, true)
    ensures key in LeaveStep(s, caller).table && LockInvariant(LeaveStep(s, caller), key, max)
  {
    var t, l := LeaveStep(s, caller), s.table[key];
    var next := l.queue[0];
    assert next in l.queue;
    assert Running(t, key) == Running(s, key) - {caller} + {next};
    Swap(Running(s, key), caller, next);
    assert forall c :: c in l.queue[1..] ==> c in l.queue && c != next;
    assert l.active > 0;
  }

  lemma FreeingKeepsLock(s: State, caller: nat, max: int, key: string)
    requires key in s.table && LockInvariant(s, key, max) && s.table[key].queue == []
    requires caller in s.callers && s.callers[caller] == Caller(key, true)
    ensures key in LeaveStep(s, caller).table ==> LockInvariant(LeaveStep(s, caller), key, max)
  {
    var t := LeaveStep(s, caller);
    assert Running(t, key) == Running(s, key) - {caller};
  }

  lemma LeaveKeepsLock(s: State, caller: nat, max: int)
    requires Invariant(s, max) && Enabled(s, Leave(caller))
    ensures var key := s.callers[caller].key;
            key in LeaveStep(s, caller).table ==> LockInvariant(LeaveStep(s, caller), key, max)
  {
    hide LockInvariant, LeaveStep, Placed;
    var key := s.callers[caller].key;
    if s.table[key].queue != [] {
      HandOffKeepsLock(s, caller, max, key);
    } else {
      FreeingKeepsLock(s, caller, max, key);
    }
  }

  lemma LeaveKeepsPlaces(s: State, caller: nat, max: int, c: nat)
    requires Invariant(s, max) && Enabled(s, Leave(caller)) && c in LeaveStep(s, caller).callers
    ensures Placed(LeaveStep(s, caller), c)
  {
    var t, key := LeaveStep(s, caller), s.callers[caller].key;
    var l := s.table[key];
    assert LockInvariant(s, key, max);
    if key !in t.table {
      assert Running(s, key) == {caller} by {
        assert caller in Running(s, key) && |Running(s, key)| == 1;
        assert |Running(s, key) - {caller}| == 0;
      }
      assert c in s.callers && Placed(s, c);
      assert s.callers[c].key == key ==> c in Running(s, key);
    } else if l.queue == [] || c != l.queue[0] {
      assert c in s.callers && Placed(s, c);
    }
  }

  lemma LeaveKeepsInvariant(s: State, caller: nat, max: int)
    requires Invariant(s, max) && Enabled(s, Leave(caller))
    ensures Invariant(LeaveStep(s, caller), max)
  {
    var t, key := LeaveStep(s, caller), s.callers[caller].key;
    LeaveKeepsLock(s, caller, max);
    var l := s.table[key];
    assert forall c :: c in l.queue ==> c in s.callers && s.callers[c] == Caller(key, false) by {
      assert LockInvariant(s, key, max);
    }
    hide LockInvariant;
    forall k | k in t.table && k != key
      ensures LockInvariant(t, k, max)
    {
      assert l.queue != [] ==> l.queue[0] in l.queue;
      OtherKeysStay(s, t, k, max);
    }
    forall c | c in t.callers
      ensures Placed(t, c)
    {
      LeaveKeepsPlaces(s, caller, max, c);
    }
  }

  // ---------- Runs ----------

  const IDLE := State(map[], map[])

  ghost predicate Possible(s: State, run: seq<Event>, max: int)
    decreases |run|
  {
    run == [] || (Enabled(s, run[0]) && Possible(Step(s, run[0], max), run[1..], max))
  }

  ghost function After(s: State, run: seq<Event>, max: int): State
    requires Possible(s, run, max)
    decreases |run|
  {
    if run == [] then s else After(Step(s, run[0], max), run[1..], max)
  }

  lemma {:induction false} RunKeepsInvariant(s: State, run: seq<Event>, max: int)
    requires Invariant(s, max) && Possible(s, run, max)
    requires 0 <= max
    ensures Invariant(After(s, run, max), max)
    decreases |run|
  {
    hide Invariant, EnterStep, LeaveStep;
    if run != [] {
      match run[0] {
        case Enter(caller, key) => EnterKeepsInvariant(s, caller, key, max);
        case Leave(caller) => LeaveKeepsInvariant(s, caller, max);
      }
      RunKeepsInvariant(Step(s, run[0], max), run[1..], max);
    }
  }

  ghost predicate Accounted(max: int) {
    forall run :: Possible(IDLE, run, max) ==> Invariant(After(IDLE, run, max), max)
  }

  /** Every reachable state keeps the accounting if and only if the limit is not negative. */
  lemma SlotAccounting(max: int)
    ensures Accounted(max) <==> 0 <= max
  {
    if 0 <= max {
      forall run | Possible(IDLE, run, max)
        ensures Invariant(After(IDLE, run, max), max)
      {
        RunKeepsInvariant(IDLE, run, max);
      }
    } else {
      NegativeLimit(max, "mx");
    }
  }

  /** A negative limit makes the first caller wait behind nobody. */
  lemma NegativeLimit(max: int, key: string)
    requires max < 0
    ensures !Accounted(max)
  {
    var run := [Enter(0, key)];
    var t := EnterStep(IDLE, 0, key, max);
    assert run[1..] == [];
    assert Possible(t, [], max) && After(t, [], max) == t;
    assert Possible(IDLE, run, max) && After(IDLE, run, max) == t;
    assert t.table[key].active == 0;
    assert !LockInvariant(t, key, max);
  }

  /** Who joins the line of `key` at this step, and who is handed a slot of it. */
  function Joining(s: State, e: Event, max: int, key: string): seq<nat> {
    if e.Enter? && e.key == key && LockOf(s, key).active >= max then [e.caller] else []
  }

  function Waking(s: State, e: Event, key: string): seq<nat> {
    if Departs(s, e, key) && LockOf(s, key).queue != [] then [LockOf(s, key).queue[0]] else []
  }

  /** Who joined the line of `key` along the run, in order. */
  ghost function Waited(s: State, run: seq<Event>, max: int, key: string): seq<nat>
    requires Possible(s, run, max)
    decreases |run|
  {
    if run == [] then [] else
      Joining(s, run[0], max, key) + Waited(Step(s, run[0], max), run[1..], max, key)
  }

  /** Who was handed a slot of `key` along the run, in order. */
  ghost function Woken(s: State, run: seq<Event>, max: int, key: string): seq<nat>
    requires Possible(s, run, max)
    decreases |run|
  {
    if run == [] then [] else
      Waking(s, run[0], key) + Woken(Step(s, run[0], max), run[1..], max, key)
  }

  predicate Departs(s: State, e: Event, key: string) {
    e.Leave? && e.caller in s.callers && s.callers[e.caller].key == key
  }

  ghost function Departures(s: State, run: seq<Event>, max: int, key: string): nat
    requires Possible(s, run, max)
    decreases |run|
  {
    if run == [] then 0 else
      (if Departs(s, run[0], key) then 1 else 0) + Departures(Step(s, run[0], max), run[1..], max, key)
  }

  lemma StepOnLine(s: State, e: Event, max: int, key: string)
    requires Enabled(s, e)
    ensures LockOf(s, key).queue + Joining(s, e, max, key)
         == Waking(s, e, key) + LockOf(Step(s, e, max), key).queue
  {
  }

  lemma Spliced(q: seq<nat>, joining: seq<nat>, waking: seq<nat>, q': seq<nat>, later: seq<nat>, woken: seq<nat>, rest: seq<nat>)
    requires q + joining == waking + q' && q' + later == woken + rest
    ensures q + (joining + later) == (waking + woken) + rest
  {
    calc {
      q + (joining + later);
      (q + joining) + later;
      waking + (q' + later);
      (waking + woken) + rest;
    }
  }

  /** Waiters wake in the order they came: whoever was woken, then whoever still waits, is exactly
      whoever waited. */
  lemma {:induction false} WokenInOrder(s: State, run: seq<Event>, max: int, key: string)
    requires Possible(s, run, max)
    ensures LockOf(s, key).queue + Waited(s, run, max, key)
         == Woken(s, run, max, key) + LockOf(After(s, run, max), key).queue
    decreases |run|
  {
    hide Step, LockOf, Joining, Waking;
    if run != [] {
      var t := Step(s, run[0], max);
      StepOnLine(s, run[0], max, key);
      WokenInOrder(t, run[1..], max, key);
      Spliced(LockOf(s, key).queue, Joining(s, run[0], max, key), Waking(s, run[0], key), LockOf(t, key).queue,
              Waited(t, run[1..], max, key), Woken(t, run[1..], max, key),
              LockOf(After(t, run[1..], max), key).queue);
    }
  }

  /** Each departure wakes at most one, and one of those waiting now while any is left. */
  lemma {:induction false} WokenCount(s: State, run: seq<Event>, max: int, key: string)
    requires Possible(s, run, max)
    ensures |Woken(s, run, max, key)| <= Departures(s, run, max, key)
    ensures |Woken(s, run, max, key)| >= Departures(s, run, max, key)
         || |Woken(s, run, max, key)| >= |LockOf(s, key).queue|
    decreases |run|
  {
    hide Step, LockOf;
    if run != [] {
      StepOnLine(s, run[0], max, key);
      WokenCount(Step(s, run[0], max), run[1..], max, key);
    }
  }

  /** A waiter with `i` others before it gets its slot at the (i+1)-th departure from its key, no
      sooner and no later, whoever arrives meanwhile. */
  lemma WakesAtItsTurn(s: State, run: seq<Event>, max: int, key: string, i: nat)
    requires Possible(s, run, max) && i < |LockOf(s, key).queue|
    ensures var n := Departures(s, run, max, key);
            var c := LockOf(s, key).queue[i];
            var q := LockOf(After(s, run, max), key).queue;
            && (n <= i ==> i - n < |q| && q[i - n] == c)
            && (n > i ==> i < |Woken(s, run, max, key)| && Woken(s, run, max, key)[i] == c)
  {
    hide Step, LockOf, After, Waited, Woken, Departures;
    WokenCount(s, run, max, key);
    WokenInOrder(s, run, max, key);
    assert (LockOf(s, key).queue + Waited(s, run, max, key))[i] == LockOf(s, key).queue[i];
  }

  /** While somebody waits, `max` callers run, and any of them may leave next. */
  lemma SomeoneRuns(s: State, key: string, max: int)
    requires Invariant(s, max) && LockOf(s, key).queue != []
    ensures |Running(s, key)| == max && forall c :: c in Running(s, key) ==> Enabled(s, Leave(c))
  {
    assert LockInvariant(s, key, max);
  }

  /** The runners of a line may leave one after the other, and the line follows. */
  lemma {:induction false} LeaveInTurn(s: State, key: string, max: int, n: nat) returns (later: seq<Event>)
    requires Invariant(s, max) && 1 <= max && n <= |LockOf(s, key).queue|
    ensures Possible(s, later, max) && Departures(s, later, max, key) == n
    decreases n
  {
    hide Invariant, LeaveStep, LockOf, Enabled, Running;
    if n == 0 {
      later := [];
    } else {
      SomeoneRuns(s, key, max);
      var c :| c in Running(s, key);
      NextLeaves(s, key, max, c);
      var rest := LeaveInTurn(LeaveStep(s, c), key, max, n - 1);
      later := [Leave(c)] + rest;
      assert later[1..] == rest;
    }
  }

  lemma NextLeaves(s: State, key: string, max: int, c: nat)
    requires Invariant(s, max) && c in Running(s, key) && LockOf(s, key).queue != []
    ensures Enabled(s, Leave(c)) && Departs(s, Leave(c), key) && Invariant(LeaveStep(s, c), max)
    ensures LockOf(LeaveStep(s, c), key).queue == LockOf(s, key).queue[1..]
  {
    SomeoneRuns(s, key, max);
    LeaveKeepsInvariant(s, c, max);
    hide Invariant;
  }

  /** In every reachable state every waiter has runners ahead of it that can leave and wake it. */
  ghost predicate NobodyStuck(max: int) {
    forall run, key, i: nat :: Possible(IDLE, run, max) && i < |LockOf(After(IDLE, run, max), key).queue| ==>
      CanWake(After(IDLE, run, max), max, key, i)
  }

  ghost predicate CanWake(s: State, max: int, key: string, i: nat)
    requires i < |LockOf(s, key).queue|
  {
    exists later :: Possible(s, later, max) && i < |Woken(s, later, max, key)|
                    && Woken(s, later, max, key)[i] == LockOf(s, key).queue[i]
  }

  lemma WaiterWakes(s: State, max: int, key: string, i: nat)
    requires Invariant(s, max) && 1 <= max && i < |LockOf(s, key).queue|
    ensures CanWake(s, max, key, i)
  {
    hide Invariant, Possible, LockOf, Woken, Departures, After;
    var later := LeaveInTurn(s, key, max, i + 1);
    WakesAtItsTurn(s, later, max, key, i);
  }

  /** Nobody runs and no slot is taken. */
  ghost predicate Stalled(s: State) {
    && (forall c :: c in s.callers ==> !s.callers[c].running)
    && (forall k :: k in s.table ==> s.table[k].active == 0)
  }

  lemma {:induction false} NoneWakes(s: State, run: seq<Event>, max: int, key: string)
    requires Stalled(s) && max <= 0 && Possible(s, run, max)
    ensures Woken(s, run, max, key) == []
    decreases |run|
  {
    if run != [] {
      assert run[0].Enter?;
      NoneWakes(Step(s, run[0], max), run[1..], max, key);
    }
  }

  /** No waiter is ever stuck if and only if there is at least one slot. */
  lemma NobodyStuckIff(max: int)
    ensures NobodyStuck(max) <==> 1 <= max
  {
    hide Invariant, CanWake, Possible, After, LockOf;
    if 1 <= max {
      IdleInvariant(max);
      forall run, key, i: nat | Possible(IDLE, run, max) && i < |LockOf(After(IDLE, run, max), key).queue|
        ensures CanWake(After(IDLE, run, max), max, key, i)
      {
        RunKeepsInvariant(IDLE, run, max);
        WaiterWakes(After(IDLE, run, max), max, key, i);
      }
    } else {
      FirstIsStuck(max);
    }
  }

  lemma IdleInvariant(max: int)
    ensures Invariant(IDLE, max)
  {
  }

  /** Without a slot the first caller waits for ever. */
  lemma FirstIsStuck(max: int)
    requires max <= 0
    ensures !NobodyStuck(max)
  {
    var key, run := "mx", [Enter(0, "mx")];
    var s := EnterStep(IDLE, 0, key, max);
    assert run[1..] == [];
    assert Possible(s, [], max) && After(s, [], max) == s;
    assert Possible(IDLE, run, max) && After(IDLE, run, max) == s;
    forall later | Possible(s, later, max)
      ensures Woken(s, later, max, key) == []
    {
      NoneWakes(s, later, max, key);
    }
    assert !CanWake(After(IDLE, run, max), max, key, 0);
  }

  lemma WaitersInFlight(s: State, key: string, max: int, caller: nat)
    requires Invariant(s, max) && caller in s.callers && s.callers[caller] == Caller(key, true)
    ensures key in s.table && s.table[key].active >= 1
    ensures forall c :: c in s.table[key].queue ==> c in s.callers && s.callers[c] == Caller(key, false)
  {
    assert Placed(s, caller) && LockInvariant(s, key, max);
    assert caller in Running(s, key);
  }

  /** A lock leaves the table only with the last caller that captured it. */
  lemma LastLeaves(s: State, caller: nat, max: int)
    requires Invariant(s, max) && Enabled(s, Leave(caller))
    ensures var key := s.callers[caller].key;
            key !in LeaveStep(s, caller).table ==> forall c :: c in s.callers && s.callers[c].key == key ==> c == caller
  {
    var t, key := LeaveStep(s, caller), s.callers[caller].key;
    LeaveKeepsInvariant(s, caller, max);
    assert LockInvariant(s, key, max);
    forall c | c in s.callers && s.callers[c].key == key && key !in t.table
      ensures c == caller
    {
      assert c != caller ==> c in t.callers && Placed(t, c);
    }
  }

  // ---------- The lock table itself ----------

  class MxLock {
    /** The key the lock was made for. */
    ghost const home: string
    var active: int
    var queue: seq<nat>

    constructor (ghost key: string)
      ensures active == 0 && queue == [] && home == key
    {
      active, queue, home := 0, [], key;
    }
  }

  /** Every call in flight captured the very lock the table holds for its key, which is no other
      key's: a lock deleted from the table is nobody's. */
  ghost predicate Aliased(locks: map<string, MxLock>, callers: map<nat, Caller>, captured: map<nat, MxLock>) {
    && (forall k :: k in locks ==> locks[k].home == k)
    && captured.Keys == callers.Keys
    && (forall c :: c in callers ==> callers[c].key in locks && captured[c] == locks[callers[c].key])
  }

  lemma EnterKeepsAliases(locks: map<string, MxLock>, callers: map<nat, Caller>, captured: map<nat, MxLock>,
                          caller: nat, key: string, lock: MxLock, running: bool)
    requires Aliased(locks, callers, captured) && lock.home == key
    requires key in locks ==> lock == locks[key]
    ensures Aliased(locks[key := lock], callers[caller := Caller(key, running)], captured[caller := lock])
  {
  }

  lemma LeaveKeepsAliases(locks: map<string, MxLock>, callers: map<nat, Caller>, captured: map<nat, MxLock>,
                          caller: nat, woken: seq<nat>, gone: bool)
    requires Aliased(locks, callers, captured) && caller in callers && |woken| <= 1
    requires forall c :: c in woken ==> c in callers && callers[c] == Caller(callers[caller].key, false) && c != caller
    requires gone ==> woken == [] && forall c :: c in callers && callers[c].key == callers[caller].key ==> c == caller
    ensures Aliased(if gone then locks - {callers[caller].key} else locks,
                    Woke(callers - {caller}, callers[caller].key, woken), captured - {caller})
  {
  }

  lemma HomeOf(locks: map<string, MxLock>, callers: map<nat, Caller>, captured: map<nat, MxLock>, key: string)
    requires Aliased(locks, callers, captured) && key in locks
    ensures locks[key].home == key
  {
  }

  lemma HomesApart(locks: map<string, MxLock>, callers: map<nat, Caller>, captured: map<nat, MxLock>, key: string)
    requires Aliased(locks, callers, captured)
    ensures forall k :: k in locks && k != key ==> locks[k].home != key
  {
  }

  lemma CapturedIsListed(locks: map<string, MxLock>, callers: map<nat, Caller>, captured: map<nat, MxLock>, caller: nat)
    requires Aliased(locks, callers, captured) && caller in callers
    ensures caller in captured && callers[caller].key in locks && captured[caller] == locks[callers[caller].key]
    ensures captured[caller].home == callers[caller].key
  {
  }

  function Woke(callers: map<nat, Caller>, key: string, woken: seq<nat>): map<nat, Caller> {
    if woken == [] then callers else callers[woken[0] := Caller(key, true)]
  }

  /** The module's lock table, and for each call in flight the lock it captured when it began.
      `model` is the state of the table and the calls, `owned` every lock the table ever held. */
  class LockTable {
    const max: int
    var locks: map<string, MxLock>
    var callers: map<nat, Caller>
    var captured: map<nat, MxLock>
    ghost var model: State
    ghost var owned: set<MxLock>

    constructor (max: int)
      ensures Valid() && model == IDLE && this.max == max && owned == {}
    {
      this.max := max;
      locks, callers, captured := map[], map[], map[];
      model, owned := IDLE, {};
    }

    /** `model` is what the locks and the calls in flight say. */
    ghost predicate Shown()
      reads this, owned
    {
      && callers == model.callers && locks.Keys == model.table.Keys
      && forall k :: k in locks ==> locks[k] in owned && Lock(locks[k].active, locks[k].queue) == model.table[k]
    }

    ghost predicate Valid()
      reads this, owned
    {
      Shown() && Aliased(locks, callers, captured) && Invariant(model, max)
    }

    /** Takes a slot, or queues the caller. */
    static method Join(lock: MxLock, caller: nat, max: int) returns (running: bool)
      modifies lock
      ensures Lock(lock.active, lock.queue) == Joined(old(Lock(lock.active, lock.queue)), caller, max)
      ensures running == (old(lock.active) < max)
    {
      running := lock.active < max;
      if running {
        lock.active := lock.active + 1;
      } else {
        lock.queue := lock.queue + [caller];
      }
    }

    method Enter(caller: nat, key: string) returns (running: bool)
      requires Valid() && caller !in callers && 0 <= max
      modifies this, owned
      ensures Valid() && model == EnterStep(old(model), caller, key, max)
      ensures running == callers[caller].running
      ensures fresh(owned - old(owned))
    {
      hide Invariant, Aliased, Joined, Running, Placed;
      EnterKeepsInvariant(model, caller, key, max);
      var lock: MxLock;
      if key in locks {
        lock := locks[key];
        HomeOf(locks, callers, captured, key);
      } else {
        lock := new MxLock(key);
      }
      running := Join(lock, caller, max);
      EnterKeepsAliases(locks, callers, captured, caller, key, lock, running);
      HomesApart(locks, callers, captured, key);
      locks, callers, captured, owned, model :=
        locks[key := lock], callers[caller := Caller(key, running)], captured[caller := lock], owned + {lock},
        EnterStep(model, caller, key, max);
      forall k | k in locks
        ensures locks[k] in owned && Lock(locks[k].active, locks[k].queue) == model.table[k]
      {
        if k != key {
          assert k in old(locks) && locks[k] == old(locks[k]) && locks[k] != lock;
        }
      }
      assert Shown();
    }

    /** What the `finally` block does to the captured lock; returns the waiter it wakes, if any. */
    static method HandOff(lock: MxLock) returns (woken: seq<nat>)
      modifies lock
      ensures Lock(lock.active, lock.queue) == Released(old(Lock(lock.active, lock.queue)))
      ensures woken == old(lock.queue)[..if old(lock.queue) == [] then 0 else 1]
    {
      if lock.queue != [] {
        woken := [lock.queue[0]];
        lock.queue := lock.queue[1..];
      } else {
        woken := [];
        lock.active := lock.active - 1;
      }
    }

    /** The `finally` block, on the lock the caller captured. */
    method Leave(caller: nat)
      requires Valid() && caller in callers && callers[caller].running
      modifies this, owned
      ensures Valid() && model == LeaveStep(old(model), caller)
      ensures owned == old(owned)
    {
      hide Invariant, Aliased, Running, Placed, LockInvariant, EnterStep;
      CapturedIsListed(locks, callers, captured, caller);
      LeaveKeepsInvariant(model, caller, max);
      WaitersInFlight(model, callers[caller].key, max, caller);
      LastLeaves(model, caller, max);
      var key, lock := callers[caller].key, captured[caller];
      HomesApart(locks, callers, captured, key);
      var woken := HandOff(lock);
      var gone := lock.active == 0 && lock.queue == [];
      LeaveKeepsAliases(locks, callers, captured, caller, woken, gone);
      callers, captured, model, locks :=
        Woke(callers - {caller}, key, woken), captured - {caller}, LeaveStep(model, caller),
        if gone then locks - {key} else locks;
      forall k | k in locks
        ensures locks[k] in owned && Lock(locks[k].active, locks[k].queue) == model.table[k]
      {
        if k != key {
          assert k in old(locks) && locks[k] == old(locks[k]) && locks[k] != lock;
        }
      }
      assert Shown();
    }
  }
}
