/** Counting semaphores with leased slots, in process memory (src/utils/shared-slots.ts).
    A `Slots` value is one key's state; the class keeps one per key and every method
    of it is tied to the function of the same step on `Slots`. */
module SharedSlots {

  /** A waiter and when its place in line lapses. */
  datatype Place = Place(holder: string, until: int)

  /** One key's slots: lease end by holder (the order of a Map of leases is never observed),
      and the waiters in arrival order. */
  datatype Slots = Slots(holders: map<string, int>, queue: seq<Place>)

  datatype SlotOptions = SlotOptions(max: int, leaseMs: int, queueTtlMs: int)

  const NO_SLOTS := Slots(map[], [])

  // ---------- The line of waiters, a Map kept in insertion order ----------

  predicate Waits(q: seq<Place>, holder: string) {
    exists i :: 0 <= i < |q| && q[i].holder == holder
  }

  predicate DistinctPlaces(q: seq<Place>) {
    forall i, j :: 0 <= i < j < |q| ==> q[i].holder != q[j].holder
  }

  /** The index of `holder` in the line, or -1. */
  function IndexOf(q: seq<Place>, holder: string): (i: int)
    ensures -1 <= i < |q|
    ensures i == -1 <==> !Waits(q, holder)
    ensures i >= 0 ==> q[i].holder == holder
    ensures forall j :: 0 <= j < i ==> q[j].holder != holder
    decreases |q|
  {
    if q == [] then -1
    else if IndexOf(q[..|q| - 1], holder) >= 0 then IndexOf(q[..|q| - 1], holder)
    else if q[|q| - 1].holder == holder then |q| - 1
    else
      assert forall j :: 0 <= j < |q| - 1 ==> q[j] == q[..|q| - 1][j];
      -1
  }

  /** `Map.set`: a waiter keeps its place, a newcomer goes to the end. */
  function Put(q: seq<Place>, holder: string, until: int): seq<Place> {
    var i := IndexOf(q, holder);
    if i >= 0 then q[i := Place(holder, until)] else q + [Place(holder, until)]
  }

  /** `Map.delete`: the line names each waiter at most once. */
  function Remove(q: seq<Place>, holder: string): (r: seq<Place>)
    ensures |r| <= |q|
  {
    if q == [] then []
    else if q[|q| - 1].holder == holder then Remove(q[..|q| - 1], holder)
    else Remove(q[..|q| - 1], holder) + [q[|q| - 1]]
  }

  /** The places that have not lapsed at `at`, in order. */
  function LiveQueue(q: seq<Place>, at: int): (r: seq<Place>)
    ensures |r| <= |q|
  {
    if q == [] then []
    else if q[|q| - 1].until > at then LiveQueue(q[..|q| - 1], at) + [q[|q| - 1]]
    else LiveQueue(q[..|q| - 1], at)
  }

  /** The leases that have not lapsed at `at`. */
  function LiveHolders(h: map<string, int>, at: int): map<string, int> {
    map x | x in h && h[x] > at :: h[x]
  }

  // ---------- One step on one key ----------

  function Drop(s: Slots, at: int): Slots {
    Slots(LiveHolders(s.holders, at), LiveQueue(s.queue, at))
  }

  /** Whether a holder without a lease gets a slot: its place (or the end of the line)
      lies within the free slots. */
  predicate Admits(s: Slots, holder: string, max: int) {
    var free := max - |s.holders|;
    var index := IndexOf(s.queue, holder);
    free > 0 && (if index == -1 then |s.queue| else index) < free
  }

  function AcquireOn(s: Slots, holder: string, o: SlotOptions, at: int): (Slots, bool) {
    AcquireLive(Drop(s, at), holder, o, at)
  }

  /** The acquire once lapsed leases and places are gone. */
  function AcquireLive(d: Slots, holder: string, o: SlotOptions, at: int): (Slots, bool) {
    if holder in d.holders || Admits(d, holder, o.max) then
      (Slots(d.holders[holder := at + o.leaseMs], Remove(d.queue, holder)), true)
    else
      (Slots(d.holders, Put(d.queue, holder, at + o.queueTtlMs)), false)
  }

  function RenewOn(s: Slots, holder: string, leaseMs: int, at: int): (Slots, bool) {
    var d := Drop(s, at);
    if holder in d.holders then (Slots(d.holders[holder := at + leaseMs], d.queue), true) else (d, false)
  }

  function ReleaseOn(s: Slots, holder: string): Slots {
    Slots(s.holders - {holder}, Remove(s.queue, holder))
  }

  // ---------- The store: one `Slots` per key ----------

  type Entries = map<string, Slots>

  function SlotsOf(entries: Entries, key: string): Slots {
    if key in entries then entries[key] else NO_SLOTS
  }

  /** The entry of `key` set to `s`, or forgotten when nobody holds or waits. */
  function Tidied(entries: Entries, key: string, s: Slots): Entries {
    if s == NO_SLOTS then entries - {key} else entries[key := s]
  }

  /** What a sweep leaves: every key's live slots, without the empty keys. */
  function Pruned(entries: Entries, at: int): Entries {
    map k | k in entries && Drop(entries[k], at) != NO_SLOTS :: Drop(entries[k], at)
  }

  ghost function Leases(entries: Entries): set<(string, string)> {
    set key, holder | key in entries && holder in entries[key].holders :: (key, holder)
  }

  ghost function PlacesHeld(entries: Entries): set<(string, int)> {
    set key, i | key in entries && 0 <= i < |entries[key].queue| :: (key, i)
  }

  /** All leases and places, lapsed ones too. */
  ghost function Size(entries: Entries): nat {
    |Leases(entries)| + |PlacesHeld(entries)|
  }

  ghost function LeasesUnder(key: string, holders: set<string>): set<(string, string)> {
    set holder | holder in holders :: (key, holder)
  }

  lemma {:induction false} LeasesCounted(key: string, holders: set<string>)
    ensures |LeasesUnder(key, holders)| == |holders|
  {
    if holders != {} {
      var x :| x in holders;
      LeasesCounted(key, holders - {x});
      assert LeasesUnder(key, holders) == LeasesUnder(key, holders - {x}) + {(key, x)};
    }
  }

  ghost function PlacesUnder(key: string, count: nat): (places: set<(string, int)>)
    ensures |places| == count && forall p :: p in places <==> p.0 == key && 0 <= p.1 < count
  {
    if count == 0 then {} else PlacesUnder(key, count - 1) + {(key, count - 1)}
  }

  lemma LeasesWith(entries: Entries, key: string)
    requires key in entries
    ensures |Leases(entries)| == |Leases(entries - {key})| + |entries[key].holders|
  {
    var rest, holders := Leases(entries - {key}), entries[key].holders.Keys;
    var under := LeasesUnder(key, holders);
    forall p | p in Leases(entries)
      ensures p in rest + under
    {
      if p.0 != key {
        assert p.0 in entries - {key};
      }
    }
    assert Leases(entries) == rest + under && rest !! under;
    LeasesCounted(key, holders);
    assert |holders| == |entries[key].holders|;
  }

  lemma PlacesWith(entries: Entries, key: string)
    requires key in entries
    ensures |PlacesHeld(entries)| == |PlacesHeld(entries - {key})| + |entries[key].queue|
  {
    var rest, under := PlacesHeld(entries - {key}), PlacesUnder(key, |entries[key].queue|);
    hide PlacesUnder;
    forall p | p in PlacesHeld(entries)
      ensures p in rest + under
    {
      if p.0 != key {
        assert p.0 in entries - {key};
      }
    }
    assert PlacesHeld(entries) == rest + under && rest !! under;
  }

  lemma SizeWith(entries: Entries, key: string)
    requires key in entries
    ensures Size(entries) == Size(entries - {key}) + |entries[key].holders| + |entries[key].queue|
  {
    hide Leases, PlacesHeld;
    LeasesWith(entries, key);
    PlacesWith(entries, key);
  }

  /** Tidying changes the size by what the key's slots change. */
  lemma SizeTidied(entries: Entries, key: string, s: Slots)
    requires key in entries
    ensures Size(Tidied(entries, key, s))
         == Size(entries) - |entries[key].holders| - |entries[key].queue| + |s.holders| + |s.queue|
  {
    SizeWith(entries, key);
    hide Size;
    if s != NO_SLOTS {
      SizeWith(entries[key := s], key);
      assert entries[key := s] - {key} == entries - {key};
    }
  }

  lemma LiveQueueAppend(q: seq<Place>, p: Place, at: int)
    ensures LiveQueue(q + [p], at) == LiveQueue(q, at) + (if p.until > at then [p] else [])
  {
    assert (q + [p])[..|q|] == q;
  }

  /** The in-memory semaphore: `entries` holds the keys with a holder or a waiter. */
  class MemorySlotSemaphore {
    var entries: Entries

    constructor ()
      ensures entries == map[]
    {
      entries := map[];
    }

    /** Deletes the lapsed leases one by one, counting them. */
    static method DropLeases(all: map<string, int>, at: int) returns (live: map<string, int>, removed: nat)
      ensures live == LiveHolders(all, at)
      ensures removed == |all| - |live|
    {
      live, removed := all, 0;
      var todo := all.Keys;
      while todo != {}
        invariant todo <= live.Keys <= all.Keys
        invariant forall x :: x in live ==> live[x] == all[x]
        invariant forall x :: x in all && x !in todo ==> (x in live <==> all[x] > at)
        invariant |live| + removed == |all|
        decreases todo
      {
        var holder :| holder in todo;
        todo := todo - {holder};
        if live[holder] <= at {
          assert live.Keys == (live - {holder}).Keys + {holder};
          live := live - {holder};
          removed := removed + 1;
        }
      }
    }

    /** Deletes the lapsed places one by one, counting them. */
    static method DropPlaces(all: seq<Place>, at: int) returns (live: seq<Place>, removed: nat)
      ensures live == LiveQueue(all, at)
      ensures removed == |all| - |live|
    {
      live, removed := [], 0;
      var i := 0;
      assert LiveQueue(all[..i], at) == [];
      hide LiveQueue;
      while i < |all|
        invariant 0 <= i <= |all|
        invariant live == LiveQueue(all[..i], at)
        invariant removed == i - |live|
      {
        LiveQueueAppend(all[..i], all[i], at);
        assert all[..i] + [all[i]] == all[..i + 1];
        if all[i].until <= at {
          removed := removed + 1;
        } else {
          live := live + [all[i]];
        }
        i := i + 1;
      }
      assert all[..i] == all;
    }

    /** Drops lapsed leases and places; returns how many. */
    static method DropLapsed(s: Slots, at: int) returns (live: Slots, removed: nat)
      ensures live == Drop(s, at)
      ensures removed == |s.holders| - |live.holders| + |s.queue| - |live.queue|
    {
      var holders, leases := DropLeases(s.holders, at);
      var queue, places := DropPlaces(s.queue, at);
      live, removed := Slots(holders, queue), leases + places;
    }

    method Acquire(key: string, holder: string, options: SlotOptions, at: int) returns (granted: bool)
      modifies this
      ensures granted == AcquireOn(SlotsOf(old(entries), key), holder, options, at).1
      ensures entries == old(entries)[key := AcquireOn(SlotsOf(old(entries), key), holder, options, at).0]
    {
      if key !in entries {
        entries := entries[key := NO_SLOTS];
      }
      var slots, _ := DropLapsed(entries[key], at);
      granted := holder in slots.holders;
      if !granted {
        var free := options.max - |slots.holders|;
        if free > 0 {
          var index := IndexOf(slots.queue, holder);
          granted := (if index == -1 then |slots.queue| else index) < free;
        }
      }
      if granted {
        slots := Slots(slots.holders[holder := at + options.leaseMs], Remove(slots.queue, holder));
      } else {
        slots := slots.(queue := Put(slots.queue, holder, at + options.queueTtlMs));
      }
      entries := entries[key := slots];
    }

    method Renew(key: string, holder: string, leaseMs: int, at: int) returns (held: bool)
      modifies this
      ensures held == RenewOn(SlotsOf(old(entries), key), holder, leaseMs, at).1
      ensures entries == Tidied(old(entries), key, RenewOn(SlotsOf(old(entries), key), holder, leaseMs, at).0)
    {
      if key !in entries {
        return false;
      }
      var slots, _ := DropLapsed(entries[key], at);
      held := holder in slots.holders;
      if held {
        slots := slots.(holders := slots.holders[holder := at + leaseMs]);
      }
      Tidy(key, slots);
    }

    method Release(key: string, holder: string)
      modifies this
      ensures entries == Tidied(old(entries), key, ReleaseOn(SlotsOf(old(entries), key), holder))
    {
      if key in entries {
        Tidy(key, ReleaseOn(entries[key], holder));
      }
    }

    /** Forgets a key left without holders and waiters. */
    method Tidy(key: string, slots: Slots)
      modifies this
      ensures entries == Tidied(old(entries), key, slots)
    {
      if |slots.holders| == 0 && |slots.queue| == 0 {
        entries := entries - {key};
      } else {
        entries := entries[key := slots];
      }
    }

    /** The periodic sweep; returns how many leases and places it dropped. */
    method Prune(at: int) returns (removed: nat)
      modifies this
      ensures entries == Pruned(old(entries), at)
      ensures removed == Size(old(entries)) - Size(entries)
    {
      hide LiveQueue, LiveHolders, Size;
      var todo := entries.Keys;
      removed := 0;
      while todo != {}
        invariant todo <= old(entries).Keys
        invariant entries == map k | k in old(entries) && (k in todo || Drop(old(entries)[k], at) != NO_SLOTS) ::
                               if k in todo then old(entries)[k] else Drop(old(entries)[k], at)
        invariant removed == Size(old(entries)) - Size(entries)
        decreases todo
      {
        var key :| key in todo;
        SizeTidied(entries, key, Drop(entries[key], at));
        var slots, dropped := DropLapsed(entries[key], at);
        Tidy(key, slots);
        removed := removed + dropped;
        todo := todo - {key};
      }
    }
  }
}
