/** When the entry evicted at the cap is the one written longest ago (src/utils/shared-store.ts:295-320). */
module OneTimeOrder {
  import opened Wrappers
  import opened OneTimeStore
  import opened OneTimeRuns

  /** When a key was last written or taken from, along a run; -1 for never. */
  function Rank(run: seq<Event>, maxEntries: int, key: string): int {
    var m := LastTouch(run, maxEntries, key);
    if m.Some? then m.value else -1
  }

  /** Each entry was written before the next. */
  ghost predicate Sorted(entries: Entries, run: seq<Event>, maxEntries: int) {
    forall i, j :: 0 <= i < j < |entries| ==> Rank(run, maxEntries, entries[i].key) < Rank(run, maxEntries, entries[j].key)
  }

  /** The entries stand oldest first, by their last write. */
  ghost predicate OldestFirst(run: seq<Event>, maxEntries: int) {
    Sorted(After(run, maxEntries), run, maxEntries)
  }

  /** What is left of the entries when a put or a granted claim writes its own. */
  function KeptAt(entries: Entries, maxEntries: int, at: int): Entries {
    var live := Unexpired(entries, at);
    if |live| >= maxEntries && live != [] then live[1..] else live
  }

  /** A put of a key that stays in place before another entry. */
  predicate Rewrites(entries: Entries, maxEntries: int, e: Event) {
    var kept := KeptAt(entries, maxEntries, e.at);
    e.op.Put? && Find(kept, e.op.key).Some? && kept != [] && kept[|kept| - 1].key != e.op.key
  }

  // ---------- Parts of a sorted list ----------

  /** Every item of `part` is one of `whole`, in the same order. */
  ghost predicate PartOf(part: Entries, whole: Entries)
    decreases |whole|
  {
    if whole == [] then part == []
    else PartOf(part, whole[1..]) || (part != [] && part[0] == whole[0] && PartOf(part[1..], whole[1..]))
  }

  lemma {:induction false} PartIsIn(part: Entries, whole: Entries)
    requires PartOf(part, whole)
    ensures forall x :: x in part ==> x in whole
    decreases |whole|
  {
    if whole != [] {
      if PartOf(part, whole[1..]) {
        PartIsIn(part, whole[1..]);
      } else {
        PartIsIn(part[1..], whole[1..]);
        assert part == [part[0]] + part[1..];
      }
    }
  }

  lemma {:induction false} PartSorted(part: Entries, whole: Entries, run: seq<Event>, maxEntries: int)
    requires PartOf(part, whole) && Sorted(whole, run, maxEntries)
    ensures Sorted(part, run, maxEntries)
    decreases |whole|
  {
    hide Rank;
    if whole != [] {
      assert Sorted(whole[1..], run, maxEntries);
      if PartOf(part, whole[1..]) {
        PartSorted(part, whole[1..], run, maxEntries);
      } else {
        PartSorted(part[1..], whole[1..], run, maxEntries);
        PartIsIn(part[1..], whole[1..]);
        forall j | 0 < j < |part|
          ensures Rank(run, maxEntries, part[0].key) < Rank(run, maxEntries, part[j].key)
        {
          assert part[j] == part[1..][j - 1] && part[j] in part[1..];
          var k :| 0 <= k < |whole[1..]| && whole[1..][k] == part[j];
          assert whole[k + 1] == part[j];
        }
        assert forall i :: 0 < i < |part| ==> part[i] == part[1..][i - 1];
      }
    }
  }

  lemma {:induction false} WholeIsPart(whole: Entries)
    ensures PartOf(whole, whole)
  {
    if whole != [] {
      WholeIsPart(whole[1..]);
    }
  }

  lemma {:induction false} UnexpiredIsPart(entries: Entries, at: int)
    ensures PartOf(Unexpired(entries, at), entries)
  {
    if entries != [] {
      UnexpiredIsPart(entries[1..], at);
      var rest := Unexpired(entries[1..], at);
      assert [] + rest == rest;
      assert ([entries[0]] + rest)[1..] == rest;
    }
  }

  lemma {:induction false} WithoutIsPart(entries: Entries, key: string)
    ensures PartOf(Without(entries, key), entries)
  {
    if entries != [] {
      WholeIsPart(entries[1..]);
      WithoutIsPart(entries[1..], key);
      var rest := Without(entries[1..], key);
      assert ([entries[0]] + rest)[1..] == rest;
    }
  }

  lemma {:induction false} PartOfPart(a: Entries, b: Entries, c: Entries)
    requires PartOf(a, b) && PartOf(b, c)
    ensures PartOf(a, c)
    decreases |c|
  {
    if c != [] {
      if PartOf(b, c[1..]) {
        PartOfPart(a, b, c[1..]);
      } else if PartOf(a, b[1..]) {
        PartOfPart(a, b[1..], c[1..]);
      } else {
        PartOfPart(a[1..], b[1..], c[1..]);
      }
    }
  }

  lemma KeptIsPart(entries: Entries, maxEntries: int, at: int)
    ensures PartOf(KeptAt(entries, maxEntries, at), entries)
  {
    var live := Unexpired(entries, at);
    UnexpiredIsPart(entries, at);
    if live != [] {
      WholeIsPart(live[1..]);
      PartOfPart(live[1..], live, entries);
    }
  }

  // ---------- Writing ----------

  lemma {:induction false} WithIndex(entries: Entries, key: string, entry: Entry) returns (i: nat)
    requires Find(entries, key).Some?
    ensures i < |entries| && entries[i].key == key && With(entries, key, entry) == entries[i := Item(key, entry)]
  {
    if entries[0].key == key {
      i := 0;
    } else {
      var k := WithIndex(entries[1..], key, entry);
      i := k + 1;
    }
  }

  lemma {:induction false} WithAppends(entries: Entries, key: string, entry: Entry)
    requires Find(entries, key).None?
    ensures With(entries, key, entry) == entries + [Item(key, entry)]
  {
    if entries != [] {
      WithAppends(entries[1..], key, entry);
    }
  }

  /** Written last, a key stands in order exactly when it is new or already last. */
  lemma WriteSorts(kept: Entries, key: string, entry: Entry, run: seq<Event>, maxEntries: int)
    requires Distinct(kept) && (forall x :: x in kept && x.key != key ==> Rank(run, maxEntries, x.key) < Rank(run, maxEntries, key))
    requires forall i, j :: 0 <= i < j < |kept| && kept[i].key != key && kept[j].key != key ==>
               Rank(run, maxEntries, kept[i].key) < Rank(run, maxEntries, kept[j].key)
    ensures Sorted(With(kept, key, entry), run, maxEntries)
       <==> Find(kept, key).None? || kept[|kept| - 1].key == key
  {
    hide Rank;
    FindIsThere(kept, key);
    if Find(kept, key).None? {
      WithAppends(kept, key, entry);
    } else {
      var i := WithIndex(kept, key, entry);
      var after := kept[i := Item(key, entry)];
      if i == |kept| - 1 {
        assert Sorted(after, run, maxEntries);
      } else {
        var last := |kept| - 1;
        assert kept[last].key != key;
        assert after[last] == kept[last] && kept[last] in kept;
        assert Rank(run, maxEntries, after[last].key) < Rank(run, maxEntries, after[i].key);
      }
    }
  }

  // ---------- One step ----------

  lemma RankNext(run: seq<Event>, maxEntries: int, e: Event, key: string)
    ensures var r := Step(After(run, maxEntries), maxEntries, e).1;
            Rank(run + [e], maxEntries, key)
            == if Written(e, r, key).Some? || TakesFrom(e, r, key) then |run| else Rank(run, maxEntries, key)
    ensures Rank(run, maxEntries, key) < |run|
    ensures After(run + [e], maxEntries) == Step(After(run, maxEntries), maxEntries, e).0
  {
    hide Step, Written, TakesFrom;
    assert (run + [e])[..|run|] == run;
    TouchBelow(run, maxEntries, key);
  }

  lemma {:induction false} TouchBelow(run: seq<Event>, maxEntries: int, key: string)
    ensures LastTouch(run, maxEntries, key).Some? ==> LastTouch(run, maxEntries, key).value < |run|
    decreases |run|
  {
    hide Step, Written, TakesFrom;
    if run != [] {
      TouchBelow(run[..|run| - 1], maxEntries, key);
    }
  }

  /** Entries an event does not touch stand as they stood. */
  lemma UntouchedSorted(part: Entries, run: seq<Event>, maxEntries: int, e: Event)
    requires PartOf(part, After(run, maxEntries)) && OldestFirst(run, maxEntries)
    requires var r := Step(After(run, maxEntries), maxEntries, e).1;
             forall x :: x in part ==> Written(e, r, x.key).None? && !TakesFrom(e, r, x.key)
    ensures Sorted(part, run + [e], maxEntries)
  {
    hide Step, Written, TakesFrom, Rank, PartOf;
    PartSorted(part, After(run, maxEntries), run, maxEntries);
    forall i, j | 0 <= i < j < |part|
      ensures Rank(run + [e], maxEntries, part[i].key) < Rank(run + [e], maxEntries, part[j].key)
    {
      RankNext(run, maxEntries, e, part[i].key);
      RankNext(run, maxEntries, e, part[j].key);
    }
  }

  lemma TakeSorts(run: seq<Event>, maxEntries: int, e: Event)
    requires OldestFirst(run, maxEntries) && e.op.Take?
    ensures OldestFirst(run + [e], maxEntries)
  {
    hide Rank, PartOf, Sorted;
    var entries := After(run, maxEntries);
    RunKeeps(run, maxEntries);
    RankNext(run, maxEntries, e, e.op.key);
    var after := Step(entries, maxEntries, e).0;
    WholeIsPart(entries);
    WithoutIsPart(entries, e.op.key);
    FindWithout(entries, e.op.key, e.op.key);
    FindIsThere(Without(entries, e.op.key), e.op.key);
    hide Without, Find;
    UntouchedSorted(after, run, maxEntries, e);
  }

  /** What a write leaves in order: `kept` is a part of the entries, none of it the key written last. */
  lemma WriteRanks(kept: Entries, run: seq<Event>, maxEntries: int, e: Event, entry: Entry)
    requires OldestFirst(run, maxEntries) && PartOf(kept, After(run, maxEntries)) && Distinct(kept)
    requires Written(e, Step(After(run, maxEntries), maxEntries, e).1, e.op.key) == Some(entry)
    ensures Sorted(With(kept, e.op.key, entry), run + [e], maxEntries)
       <==> Find(kept, e.op.key).None? || kept[|kept| - 1].key == e.op.key
  {
    hide Step, Rank, PartOf, Find, With, After;
    PartSorted(kept, After(run, maxEntries), run, maxEntries);
    RankNext(run, maxEntries, e, e.op.key);
    forall x | x in kept && x.key != e.op.key
      ensures Rank(run + [e], maxEntries, x.key) == Rank(run, maxEntries, x.key) < |run|
    {
      RankNext(run, maxEntries, e, x.key);
    }
    WriteSorts(kept, e.op.key, entry, run + [e], maxEntries);
  }

  lemma PutSorts(run: seq<Event>, maxEntries: int, e: Event)
    requires OldestFirst(run, maxEntries) && e.op.Put?
    ensures OldestFirst(run + [e], maxEntries) <==> !Rewrites(After(run, maxEntries), maxEntries, e)
  {
    hide Rank, PartOf, Sorted, Find, With, Unexpired;
    var entries := After(run, maxEntries);
    var kept := KeptAt(entries, maxEntries, e.at);
    var entry := Entry(e.op.guard, e.op.value, e.at + e.op.ttlMs);
    KeptIsPart(entries, maxEntries, e.at);
    KeptDistinct(run, maxEntries, e.at);
    WriteRanks(kept, run, maxEntries, e, entry);
    RankNext(run, maxEntries, e, e.op.key);
    FindIsThere(kept, e.op.key);
  }

  lemma KeptDistinct(run: seq<Event>, maxEntries: int, at: int)
    ensures Distinct(KeptAt(After(run, maxEntries), maxEntries, at))
  {
    RunKeeps(run, maxEntries);
    var entries := After(run, maxEntries);
    FindUnexpired(entries, at, "");
    hide Unexpired, After;
  }

  lemma ClaimSorts(run: seq<Event>, maxEntries: int, e: Event)
    requires OldestFirst(run, maxEntries) && e.op.Claim?
    ensures OldestFirst(run + [e], maxEntries)
  {
    hide Rank, PartOf, Sorted, Find, With, Unexpired;
    var entries := After(run, maxEntries);
    var key := e.op.key;
    RunKeeps(run, maxEntries);
    RankNext(run, maxEntries, e, key);
    WholeIsPart(entries);
    UnexpiredIsPart(entries, e.at);
    var live := Unexpired(entries, e.at);
    FindUnexpired(entries, e.at, key);
    var kept := if |entries| >= maxEntries then live else entries;
    if LiveEntry(entries, key, e.at).Some? {
      UntouchedSorted(entries, run, maxEntries, e);
    } else if |kept| >= maxEntries {
      UntouchedSorted(kept, run, maxEntries, e);
    } else {
      UnexpiredIsPart(kept, e.at);
      var left := Unexpired(kept, e.at);
      PartOfPart(left, kept, entries);
      FindUnexpired(kept, e.at, key);
      WriteRanks(left, run, maxEntries, e, Entry("", "", e.at + e.op.ttlMs));
    }
  }

  /** From entries in order, an event leaves them in order exactly when it does not put a key again that
      stays in place before another entry. */
  lemma StepSortsIff(run: seq<Event>, maxEntries: int, e: Event)
    requires OldestFirst(run, maxEntries)
    ensures OldestFirst(run + [e], maxEntries) <==> !Rewrites(After(run, maxEntries), maxEntries, e)
  {
    hide OldestFirst, After;
    match e.op {
      case Put(_, _, _, _) => PutSorts(run, maxEntries, e);
      case Take(_, _) => TakeSorts(run, maxEntries, e);
      case Claim(_, _) => ClaimSorts(run, maxEntries, e);
    }
  }

  // ---------- Whole runs ----------

  /** Along a run the entries stand oldest first after every event exactly when no event puts a key again
      that is live and not the newest. */
  lemma {:induction false} OldestFirstIff(run: seq<Event>, maxEntries: int)
    ensures (forall n :: 0 <= n <= |run| ==> OldestFirst(run[..n], maxEntries))
       <==> (forall n :: 0 <= n < |run| ==> !Rewrites(After(run[..n], maxEntries), maxEntries, run[n]))
    decreases |run|
  {
    hide OldestFirst, Rewrites, After;
    if run == [] {
      NothingSorted(maxEntries);
      assert run[..0] == [];
    } else {
      var last := |run| - 1;
      var init := run[..last];
      OldestFirstIff(init, maxEntries);
      assert forall n :: 0 <= n <= last ==> init[..n] == run[..n];
      assert run[..|run|] == run && run == init + [run[last]];
      if OldestFirst(init, maxEntries) {
        StepSortsIff(init, maxEntries, run[last]);
      }
      if forall n :: 0 <= n < |run| ==> !Rewrites(After(run[..n], maxEntries), maxEntries, run[n]) {
        forall n | 0 <= n < last
          ensures !Rewrites(After(init[..n], maxEntries), maxEntries, init[n])
        {
          assert init[..n] == run[..n] && init[n] == run[n];
        }
        assert OldestFirst(init[..last], maxEntries) && init[..last] == init;
        forall n | 0 <= n <= |run|
          ensures OldestFirst(run[..n], maxEntries)
        {
          assert n <= last ==> init[..n] == run[..n];
        }
      }
      if forall n :: 0 <= n <= |run| ==> OldestFirst(run[..n], maxEntries) {
        assert OldestFirst(run[..last], maxEntries) && OldestFirst(run[..|run|], maxEntries);
        forall n | 0 <= n <= last
          ensures OldestFirst(init[..n], maxEntries)
        {
          assert init[..n] == run[..n];
        }
        forall n | 0 <= n < |run|
          ensures !Rewrites(After(run[..n], maxEntries), maxEntries, run[n])
        {
          assert n < last ==> init[..n] == run[..n] && init[n] == run[n];
        }
      }
    }
  }

  lemma NothingSorted(maxEntries: int)
    ensures OldestFirst([], maxEntries)
  {
  }

  function PutAt(key: string, ttlMs: int): Event {
    Event(0, Put(key, "", "", ttlMs))
  }

  function ItemOf(key: string, ttlMs: int): Item {
    Item(key, Entry("", "", ttlMs))
  }

  lemma AfterPut(run: seq<Event>, maxEntries: int, key: string, ttlMs: int)
    ensures After(run + [PutAt(key, ttlMs)], maxEntries)
         == StoreOn(After(run, maxEntries), maxEntries, key, Entry("", "", ttlMs), 0)
  {
    hide StoreOn;
    assert (run + [PutAt(key, ttlMs)])[..|run|] == run;
  }

  lemma {:induction false} AllUnexpired(entries: Entries, at: int)
    requires forall x :: x in entries ==> x.entry.expiresAt > at
    ensures Unexpired(entries, at) == entries
  {
    if entries != [] {
      AllUnexpired(entries[1..], at);
    }
  }

  /** A put among live entries, with room for three. */
  lemma PutAmong(run: seq<Event>, key: string, ttlMs: int)
    requires ttlMs >= 1 && forall x :: x in After(run, 3) ==> x.entry.expiresAt > 0
    ensures var entries := After(run, 3);
            After(run + [PutAt(key, ttlMs)], 3)
            == With(if |entries| >= 3 then entries[1..] else entries, key, Entry("", "", ttlMs))
  {
    AfterPut(run, 3, key, ttlMs);
    AllUnexpired(After(run, 3), 0);
    hide After, With, Unexpired;
  }

  lemma WithOne(a: Item, key: string, entry: Entry)
    requires a.key != key
    ensures With([], key, entry) == [Item(key, entry)] && With([a], key, entry) == [a, Item(key, entry)]
  {
    WithAppends([], key, entry);
    WithAppends([a], key, entry);
    assert [a] + [Item(key, entry)] == [a, Item(key, entry)] && [] + [Item(key, entry)] == [Item(key, entry)];
  }

  lemma WithTwo(a: Item, b: Item, key: string, entry: Entry)
    requires a.key != b.key
    ensures key == a.key ==> With([a, b], key, entry) == [Item(key, entry), b]
    ensures key != a.key && key != b.key ==> With([a, b], key, entry) == [a, b, Item(key, entry)]
  {
    assert [a, b][1..] == [b];
    if key == a.key {
      assert [Item(key, entry)] + [b] == [Item(key, entry), b];
    } else if key != b.key {
      WithOne(b, key, entry);
      assert [a] + [b, Item(key, entry)] == [a, b, Item(key, entry)];
    }
  }

  /** Three entries at most: a key put, then a second, then the first again. It keeps its place, so with
      two more keys it is evicted, and the second stays though it was written before. */
  lemma NewerEvicted(first: string, second: string, third: string, fourth: string, ttlMs: int)
    requires first != second && first != third && second != third && second != fourth && third != fourth && ttlMs >= 1
    ensures var run := [PutAt(first, ttlMs), PutAt(second, ttlMs), PutAt(first, ttlMs)];
            && After(run, 3) == [ItemOf(first, ttlMs), ItemOf(second, ttlMs)]
            && After(run + [PutAt(third, ttlMs)] + [PutAt(fourth, ttlMs)], 3)
               == [ItemOf(second, ttlMs), ItemOf(third, ttlMs), ItemOf(fourth, ttlMs)]
  {
    hide With, After;
    var a, b, c, d := ItemOf(first, ttlMs), ItemOf(second, ttlMs), ItemOf(third, ttlMs), ItemOf(fourth, ttlMs);
    var p, q, r, s := PutAt(first, ttlMs), PutAt(second, ttlMs), PutAt(third, ttlMs), PutAt(fourth, ttlMs);
    NothingYet();
    WithOne(a, second, b.entry);
    WithOne(b, first, a.entry);
    WithTwo(a, b, first, a.entry);
    WithTwo(a, b, third, c.entry);
    WithTwo(b, c, fourth, d.entry);
    PutAmong([], first, ttlMs);
    assert [] + [p] == [p];
    PutAmong([p], second, ttlMs);
    assert [p] + [q] == [p, q];
    PutAmong([p, q], first, ttlMs);
    assert [p, q] + [p] == [p, q, p];
    PutAmong([p, q, p], third, ttlMs);
    assert [a, b, c][1..] == [b, c];
    PutAmong([p, q, p] + [r], fourth, ttlMs);
  }

  lemma NothingYet()
    ensures After([], 3) == []
  {
  }
}
