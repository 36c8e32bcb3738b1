/** Entries readable once, in process memory (src/utils/shared-store.ts:283-361). The JS `Map` is a
    sequence of items in insertion order; setting a key that is there keeps its place. */
module OneTimeStore {
  import opened Wrappers

  datatype Entry = Entry(guard: string, value: string, expiresAt: int)

  datatype Item = Item(key: string, entry: Entry)

  type Entries = seq<Item>

  datatype Taken = Missing | Mismatch(guard: string) | Taken(value: string)

  /** `Full` is the rejection `ONE_TIME_FULL`. */
  datatype Claimed = Granted | Held | Full

  function Find(entries: Entries, key: string): Option<Entry> {
    if entries == [] then None
    else if entries[0].key == key then Some(entries[0].entry)
    else Find(entries[1..], key)
  }

  function LiveEntry(entries: Entries, key: string, at: int): Option<Entry> {
    var e := Find(entries, key);
    if e.Some? && e.value.expiresAt > at then e else None
  }

  function Without(entries: Entries, key: string): Entries {
    if entries == [] then []
    else if entries[0].key == key then entries[1..]
    else [entries[0]] + Without(entries[1..], key)
  }

  /** `Map.set`. */
  function With(entries: Entries, key: string, entry: Entry): Entries {
    if entries == [] then [Item(key, entry)]
    else if entries[0].key == key then [Item(key, entry)] + entries[1..]
    else [entries[0]] + With(entries[1..], key, entry)
  }

  /** The entries not expired, in their order. */
  function Unexpired(entries: Entries, at: int): Entries {
    if entries == [] then []
    else (if entries[0].entry.expiresAt > at then [entries[0]] else []) + Unexpired(entries[1..], at)
  }

  /** The private `store`: expired entries go, and at the cap the oldest one. */
  function StoreOn(entries: Entries, maxEntries: int, key: string, entry: Entry, at: int): Entries {
    var live := Unexpired(entries, at);
    With(if |live| >= maxEntries && live != [] then live[1..] else live, key, entry)
  }

  function TakeOn(entries: Entries, key: string, guard: string, at: int): (Entries, Taken) {
    match Find(entries, key)
    case None => (entries, Missing)
    case Some(e) =>
      if e.expiresAt <= at then (Without(entries, key), Missing)
      else if e.guard != guard then (entries, Mismatch(e.guard))
      else (Without(entries, key), Taken(e.value))
  }

  function ClaimOn(entries: Entries, maxEntries: int, key: string, ttlMs: int, at: int): (Entries, Claimed) {
    if LiveEntry(entries, key, at).Some? then (entries, Held)
    else
      var kept := if |entries| >= maxEntries then Unexpired(entries, at) else entries;
      if |kept| >= maxEntries then (kept, Full)
      else (StoreOn(kept, maxEntries, key, Entry("", "", at + ttlMs), at), Granted)
  }

  /** No key twice: what makes the sequence a map. */
  ghost predicate Distinct(entries: Entries) {
    forall i, j :: 0 <= i < j < |entries| ==> entries[i].key != entries[j].key
  }

  lemma {:induction false} UnexpiredStep(entries: Entries, i: nat, at: int)
    requires i < |entries|
    ensures Unexpired(entries[..i + 1], at)
         == Unexpired(entries[..i], at) + (if entries[i].entry.expiresAt > at then [entries[i]] else [])
  {
    if i == 0 {
      assert entries[..1] == [entries[0]];
    } else {
      UnexpiredStep(entries[1..], i - 1, at);
      assert entries[..i + 1][1..] == entries[1..][..i];
      assert entries[..i][1..] == entries[1..][..i - 1];
    }
  }

  /** The in-memory store, capped at `maxEntries`. */
  class MemoryOneTimeStore {
    const maxEntries: int
    var entries: Entries

    constructor (maxEntries: int)
      ensures entries == [] && this.maxEntries == maxEntries
    {
      this.maxEntries := maxEntries;
      entries := [];
    }

    method DropExpired(at: int)
      modifies this
      ensures entries == Unexpired(old(entries), at)
    {
      var items := entries;
      var kept: Entries := [];
      for i := 0 to |items|
        invariant kept == Unexpired(items[..i], at)
      {
        UnexpiredStep(items, i, at);
        if items[i].entry.expiresAt > at {
          kept := kept + [items[i]];
        }
      }
      assert items[..|items|] == items;
      entries := kept;
    }

    method Store(key: string, guard: string, value: string, ttlMs: int, at: int)
      modifies this
      ensures entries == StoreOn(old(entries), maxEntries, key, Entry(guard, value, at + ttlMs), at)
    {
      DropExpired(at);
      if |entries| >= maxEntries {
        if entries != [] {
          entries := entries[1..];
        }
      }
      entries := With(entries, key, Entry(guard, value, at + ttlMs));
    }

    method Put(key: string, guard: string, value: string, ttlMs: int, at: int)
      modifies this
      ensures entries == StoreOn(old(entries), maxEntries, key, Entry(guard, value, at + ttlMs), at)
    {
      Store(key, guard, value, ttlMs, at);
    }

    method Claim(key: string, ttlMs: int, at: int) returns (r: Claimed)
      modifies this
      ensures (entries, r) == ClaimOn(old(entries), maxEntries, key, ttlMs, at)
    {
      var entry := Find(entries, key);
      if entry.Some? && entry.value.expiresAt > at {
        return Held;
      }
      if |entries| >= maxEntries {
        DropExpired(at);
        if |entries| >= maxEntries {
          return Full;
        }
      }
      Store(key, "", "", ttlMs, at);
      return Granted;
    }

    method Take(key: string, guard: string, at: int) returns (r: Taken)
      modifies this
      ensures (entries, r) == TakeOn(old(entries), key, guard, at)
    {
      var entry := Find(entries, key);
      if entry.None? {
        return Missing;
      }
      if entry.value.expiresAt <= at {
        entries := Without(entries, key);
        return Missing;
      }
      if entry.value.guard != guard {
        return Mismatch(entry.value.guard);
      }
      entries := Without(entries, key);
      return Taken(entry.value.value);
    }
  }
}
