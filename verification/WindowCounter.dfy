/** Fixed-window counters in process memory (src/utils/shared-store.ts:174-282): a key's window starts
    with its first counted request and lasts `windowMs`. */
module WindowCounter {
  import opened Wrappers

  datatype Window = Window(count: int, expiresAt: int, marked: bool, id: nat)

  type Entries = map<string, Window>

  /** The counter and the last window id handed out. */
  datatype Counter = Counter(entries: Entries, last: nat)

  datatype WindowOptions = WindowOptions(max: int, windowMs: int, weight: int, refusedWeight: int)

  /** `retryAfterMs` is 0 unless limited; `windows` names the window each key counted in. */
  datatype Decision = Decision(limited: bool, count: int, retryAfterMs: int, windows: map<string, nat>)

  datatype WindowState = WindowState(count: int, resetInMs: int)

  const EMPTY := Counter(map[], 0)

  function Max(a: int, b: int): int {
    if a < b then b else a
  }

  // ---------- Steps ----------

  /** The key's window unless it is over. */
  function LiveWindow(entries: Entries, key: string, at: int): Option<Window> {
    if key in entries && entries[key].expiresAt > at then Some(entries[key]) else None
  }

  /** The private `live`: an ended window is dropped as it is read. */
  function Read(entries: Entries, key: string, at: int): Entries {
    if LiveWindow(entries, key, at).None? then entries - {key} else entries
  }

  function CountIn(w: Option<Window>): int {
    if w.Some? then w.value.count else 0
  }

  predicate IsOver(entries: Entries, key: string, o: WindowOptions, at: int) {
    CountIn(LiveWindow(entries, key, at)) + o.weight > o.max
  }

  function WaitFor(entries: Entries, key: string, o: WindowOptions, at: int): int {
    var w := LiveWindow(entries, key, at);
    if w.Some? then w.value.expiresAt - at else o.windowMs
  }

  /** The first pass of a take: which ended windows go, and whether and how long it must wait. */
  function Checked(entries: Entries, keys: seq<string>, o: WindowOptions, at: int): (Entries, bool, int)
    decreases |keys|
  {
    if keys == [] then (entries, false, 0) else
      var (e, limited, retry) := Checked(entries, keys[..|keys| - 1], o, at);
      var key := keys[|keys| - 1];
      if IsOver(e, key, o, at) then (Read(e, key, at), true, Max(retry, WaitFor(e, key, o, at)))
      else (Read(e, key, at), limited, retry)
  }

  /** One key of the second pass: its window after the count, if it has one. */
  function CountOne(c: Counter, key: string, add: int, windowMs: int, at: int): (Counter, Option<Window>) {
    var w := LiveWindow(c.entries, key, at);
    var e := Read(c.entries, key, at);
    if add <= 0 then (c.(entries := e), w)
    else if w.Some? then
      var counted := w.value.(count := w.value.count + add);
      (c.(entries := e[key := counted]), Some(counted))
    else
      var started := Window(add, at + windowMs, false, c.last + 1);
      (Counter(e[key := started], c.last + 1), Some(started))
  }

  function Counted(c: Counter, keys: seq<string>, add: int, windowMs: int, at: int): (Counter, int, map<string, nat>)
    decreases |keys|
  {
    if keys == [] then (c, 0, map[]) else
      var (before, top, windows) := Counted(c, keys[..|keys| - 1], add, windowMs, at);
      var key := keys[|keys| - 1];
      var (after, w) := CountOne(before, key, add, windowMs, at);
      (after, Max(top, CountIn(w)), if w.Some? then windows[key := w.value.id] else windows)
  }

  function TakeOn(c: Counter, keys: seq<string>, o: WindowOptions, at: int): (Counter, Decision) {
    var (e, limited, retry) := Checked(c.entries, keys, o, at);
    var (after, count, windows) := Counted(c.(entries := e), keys, if limited then o.refusedWeight else o.weight, o.windowMs, at);
    (after, Decision(limited, count, if limited then retry else 0, windows))
  }

  function PeekOn(c: Counter, key: string, at: int): (Counter, Option<WindowState>) {
    var w := LiveWindow(c.entries, key, at);
    (c.(entries := Read(c.entries, key, at)),
     if w.Some? then Some(WindowState(w.value.count, w.value.expiresAt - at)) else None)
  }

  function RefundOn(c: Counter, key: string, id: nat, at: int): Counter {
    var w := LiveWindow(c.entries, key, at);
    var e := Read(c.entries, key, at);
    if w.Some? && w.value.id == id then c.(entries := e[key := w.value.(count := Max(0, w.value.count - 1))])
    else c.(entries := e)
  }

  function MarkOn(c: Counter, key: string, at: int): (Counter, bool) {
    var w := LiveWindow(c.entries, key, at);
    var e := Read(c.entries, key, at);
    if w.Some? && !w.value.marked then (c.(entries := e[key := w.value.(marked := true)]), true)
    else (c.(entries := e), false)
  }

  function KeySet(keys: seq<string>): set<string> {
    set k | k in keys
  }

  function DeleteOn(c: Counter, keys: seq<string>): Counter {
    c.(entries := c.entries - KeySet(keys))
  }

  function PrunedEntries(entries: Entries, at: int): Entries {
    map k | k in entries && entries[k].expiresAt > at :: entries[k]
  }

  /** A take of one key, written out. */
  lemma TakeOneKey(c: Counter, key: string, o: WindowOptions, at: int)
    ensures var limited := IsOver(c.entries, key, o, at);
            var (c', w) := CountOne(c.(entries := Read(c.entries, key, at)), key, if limited then o.refusedWeight else o.weight, o.windowMs, at);
            var (t, d) := TakeOn(c, [key], o, at);
            && t == c' && d.limited == limited && d.count == Max(0, CountIn(w))
            && (limited ==> d.retryAfterMs == Max(0, WaitFor(c.entries, key, o, at)))
            && d.windows == if w.Some? then map[key := w.value.id] else map[]
  {
    var (e, limited, retry) := Checked(c.entries, [key], o, at);
    assert [key][..0] == [];
    assert Checked(c.entries, [], o, at) == (c.entries, false, 0);
    var read := c.(entries := e);
    var add := if limited then o.refusedWeight else o.weight;
    assert Counted(read, [], add, o.windowMs, at) == (read, 0, map[]);
  }

  /** The in-memory counter. */
  class MemoryWindowCounter {
    var entries: Entries
    var last: nat

    constructor ()
      ensures Value() == EMPTY
    {
      entries, last := map[], 0;
    }

    function Value(): Counter
      reads this
    {
      Counter(entries, last)
    }

    method Live(key: string, at: int) returns (w: Option<Window>)
      modifies this`entries
      ensures w == LiveWindow(old(entries), key, at) && entries == Read(old(entries), key, at)
    {
      w := LiveWindow(entries, key, at);
      if w.None? {
        entries := entries - {key};
      }
    }

    method Check(keys: seq<string>, o: WindowOptions, at: int) returns (limited: bool, retryAfterMs: int)
      modifies this`entries
      ensures (entries, limited, retryAfterMs) == Checked(old(entries), keys, o, at)
    {
      limited, retryAfterMs := false, 0;
      for i := 0 to |keys|
        invariant (entries, limited, retryAfterMs) == Checked(old(entries), keys[..i], o, at)
      {
        assert keys[..i + 1][..i] == keys[..i];
        var w := Live(keys[i], at);
        if CountIn(w) + o.weight > o.max {
          limited := true;
          retryAfterMs := Max(retryAfterMs, if w.Some? then w.value.expiresAt - at else o.windowMs);
        }
      }
      assert keys[..|keys|] == keys;
    }

    method Count(keys: seq<string>, add: int, windowMs: int, at: int) returns (count: int, windows: map<string, nat>)
      modifies this
      ensures (Value(), count, windows) == Counted(old(Value()), keys, add, windowMs, at)
    {
      count, windows := 0, map[];
      for i := 0 to |keys|
        invariant (Value(), count, windows) == Counted(old(Value()), keys[..i], add, windowMs, at)
      {
        assert keys[..i + 1][..i] == keys[..i];
        var key := keys[i];
        var w := Live(key, at);
        if add > 0 {
          if w.None? {
            last := last + 1;
            w := Some(Window(0, at + windowMs, false, last));
          }
          w := Some(w.value.(count := w.value.count + add));
          entries := entries[key := w.value];
        }
        if w.Some? {
          windows := windows[key := w.value.id];
        }
        count := Max(count, CountIn(w));
      }
      assert keys[..|keys|] == keys;
    }

    method Take(keys: seq<string>, o: WindowOptions, at: int) returns (d: Decision)
      modifies this
      ensures (Value(), d) == TakeOn(old(Value()), keys, o, at)
    {
      var limited, retryAfterMs := Check(keys, o, at);
      var count, windows := Count(keys, if limited then o.refusedWeight else o.weight, o.windowMs, at);
      d := Decision(limited, count, if limited then retryAfterMs else 0, windows);
    }

    method Peek(key: string, at: int) returns (s: Option<WindowState>)
      modifies this
      ensures (Value(), s) == PeekOn(old(Value()), key, at)
    {
      var w := Live(key, at);
      s := if w.Some? then Some(WindowState(w.value.count, w.value.expiresAt - at)) else None;
    }

    method Refund(key: string, id: nat, at: int)
      modifies this
      ensures Value() == RefundOn(old(Value()), key, id, at)
    {
      var w := Live(key, at);
      if w.Some? && w.value.id == id {
        entries := entries[key := w.value.(count := Max(0, w.value.count - 1))];
      }
    }

    method Delete(keys: seq<string>)
      modifies this
      ensures Value() == DeleteOn(old(Value()), keys)
    {
      for i := 0 to |keys|
        invariant entries == old(entries) - KeySet(keys[..i]) && last == old(last)
      {
        assert KeySet(keys[..i + 1]) == KeySet(keys[..i]) + {keys[i]};
        entries := entries - {keys[i]};
      }
      assert keys[..|keys|] == keys;
    }

    method MarkOnce(key: string, at: int) returns (first: bool)
      modifies this
      ensures (Value(), first) == MarkOn(old(Value()), key, at)
    {
      var w := Live(key, at);
      first := w.Some? && !w.value.marked;
      if first {
        entries := entries[key := w.value.(marked := true)];
      }
    }

    /** Drops every window that has ended; returns how many. */
    method Prune(at: int) returns (removed: nat)
      modifies this`entries
      ensures entries == PrunedEntries(old(entries), at) && removed == |old(entries)| - |entries|
    {
      removed := 0;
      var todo := entries.Keys;
      while todo != {}
        invariant todo <= entries.Keys <= old(entries).Keys
        invariant forall k :: k in entries ==> entries[k] == old(entries)[k]
        invariant forall k :: k in old(entries) && k !in todo ==> (k in entries <==> old(entries)[k].expiresAt > at)
        invariant |entries| + removed == |old(entries)|
        decreases todo
      {
        var key :| key in todo;
        todo := todo - {key};
        if entries[key].expiresAt <= at {
          assert entries.Keys == (entries - {key}).Keys + {key};
          entries := entries - {key};
          removed := removed + 1;
        }
      }
    }
  }
}
