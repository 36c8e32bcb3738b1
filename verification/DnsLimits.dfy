/** Why the reader needs its limits, and what they refuse (src/utils/dns-wire.ts:65-71, 174-206, 358-392):
    backward pointers can loop, and a CNAME chain of 17 links is refused even where it closes a loop. */
module DnsLimits {
  import opened Wrappers
  import opened AsciiText
  import opened DnsBytes
  import opened DnsName
  import opened DnsResponse
  import opened DnsExact

  // ---------- Backward pointers ----------

  /** Where a reading goes on, following pointers backwards only and without any limit. */
  function Onward(m: Message, at: nat): Option<nat> {
    match ElementAt(m, at)
    case Label(text) => Some(at + 1 + |text|)
    case Pointer(target) => if DNS_HEADER_BYTES <= target < at then Some(target) else None
    case _ => None
  }

  /** The place after `n` elements. */
  function Place(m: Message, start: nat, n: nat): Option<nat> {
    if n == 0 then Some(start)
    else
      var before := Place(m, start, n - 1);
      if before.None? then None else Onward(m, before.value)
  }

  ghost predicate Endless(m: Message, start: nat) {
    forall n: nat :: Place(m, start, n).Some?
  }

  /** The reading comes back to a place it has been at. */
  ghost predicate Revisits(m: Message, start: nat) {
    exists i: nat, j: nat :: i < j && Place(m, start, i).Some? && Place(m, start, i) == Place(m, start, j)
  }

  lemma {:induction false} Repeats(m: Message, start: nat, i: nat, j: nat, k: nat)
    requires Place(m, start, i) == Place(m, start, j)
    ensures Place(m, start, i + k) == Place(m, start, j + k)
  {
    hide Onward;
    if k > 0 {
      Repeats(m, start, i, j, k - 1);
    }
  }

  lemma {:induction false} PlacedBefore(m: Message, start: nat, n: nat, k: nat)
    requires Place(m, start, n).Some? && k <= n
    ensures Place(m, start, k).Some?
    decreases n
  {
    hide Onward;
    if k < n {
      PlacedBefore(m, start, n - 1, k);
    }
  }

  lemma {:induction false} PlacedAfter(m: Message, start: nat, i: nat, j: nat, n: nat)
    requires i < j && Place(m, start, i).Some? && Place(m, start, i) == Place(m, start, j)
    ensures Place(m, start, n).Some?
    decreases n
  {
    hide Place;
    if n <= j {
      PlacedBefore(m, start, j, n);
    } else {
      PlacedAfter(m, start, i, j, n - (j - i));
      Repeats(m, start, i, j, n - j);
    }
  }

  lemma OnwardIsInside(m: Message, start: nat, k: nat)
    requires Place(m, start, k).Some? && Place(m, start, k + 1).Some?
    ensures Place(m, start, k).value < |m|
  {
  }

  /** Numbers below `bound`, all different, are at most `bound`. */
  lemma {:induction false} AtMost(numbers: set<nat>, bound: nat)
    requires forall x :: x in numbers ==> x < bound
    ensures |numbers| <= bound
  {
    if bound == 0 {
      assert numbers == {};
    } else {
      AtMost(numbers - {bound - 1}, bound - 1);
    }
  }

  ghost function Elements(numbers: seq<nat>): set<nat> {
    set x | x in numbers
  }

  lemma {:induction false} DistinctCount(numbers: seq<nat>)
    requires forall i, j :: 0 <= i < j < |numbers| ==> numbers[i] != numbers[j]
    ensures |Elements(numbers)| == |numbers|
  {
    if numbers != [] {
      var last, init := numbers[|numbers| - 1], numbers[..|numbers| - 1];
      DistinctCount(init);
      assert numbers == init + [last];
      assert Elements(numbers) == Elements(init) + {last};
    }
  }

  lemma DistinctBelow(numbers: seq<nat>, bound: nat)
    requires forall i, j :: 0 <= i < j < |numbers| ==> numbers[i] != numbers[j]
    requires forall i :: 0 <= i < |numbers| ==> numbers[i] < bound
    ensures |numbers| <= bound
  {
    DistinctCount(numbers);
    AtMost(Elements(numbers), bound);
  }

  /** The first `n` places. */
  ghost function Places(m: Message, start: nat, n: nat): (places: seq<nat>)
    requires Endless(m, start)
    ensures |places| == n && forall k :: 0 <= k < n ==> Place(m, start, k) == Some(places[k])
  {
    if n == 0 then [] else Places(m, start, n - 1) + [Place(m, start, n - 1).value]
  }

  /** Followed backwards only, a reading goes on for ever exactly when it comes back to a place. */
  lemma EndlessIffRevisits(m: Message, start: nat)
    ensures Endless(m, start) <==> Revisits(m, start)
  {
    hide Onward;
    if Endless(m, start) && !Revisits(m, start) {
      var places := Places(m, start, |m| + 1);
      forall k | 0 <= k < |places|
        ensures places[k] < |m|
      {
        OnwardIsInside(m, start, k);
      }
      DistinctBelow(places, |m|);
    }
    if Revisits(m, start) {
      var i: nat, j: nat :| i < j && Place(m, start, i).Some? && Place(m, start, i) == Place(m, start, j);
      forall n: nat
        ensures Place(m, start, n).Some?
      {
        PlacedAfter(m, start, i, j, n);
      }
    }
  }

  /** A label and a pointer back to it, past the header. */
  function LoopMessage(header: Message): Message {
    header + [1, 'a' as int, 0xc0, DNS_HEADER_BYTES]
  }

  /** Its one pointer points backwards and past the header, and yet its reading never ends: it is not a
      name, and only a limit ends the reading. */
  lemma BackwardPointerLoops(header: Message)
    requires |header| == DNS_HEADER_BYTES
    ensures var m := LoopMessage(header);
            && ElementAt(m, DNS_HEADER_BYTES) == Label("a") && ElementAt(m, 14) == Pointer(DNS_HEADER_BYTES)
            && Endless(m, DNS_HEADER_BYTES)
            && (forall path :: IsPath(m, path) ==> path[0] != DNS_HEADER_BYTES)
            && NameAt(m, DNS_HEADER_BYTES).None?
  {
    var m := LoopMessage(header);
    LoopElements(header);
    hide ElementAt;
    assert Place(m, 12, 0) == Some(12);
    assert Place(m, 12, 1) == Some(14);
    assert Place(m, 12, 2) == Some(12);
    EndlessIffRevisits(m, DNS_HEADER_BYTES);
    forall path | IsPath(m, path)
      ensures path[0] != DNS_HEADER_BYTES
    {
      NoPathThere(header, path);
    }
    ReadsTheExpansion(m, DNS_HEADER_BYTES);
  }

  lemma LoopElements(header: Message)
    requires |header| == DNS_HEADER_BYTES
    ensures ElementAt(LoopMessage(header), 12) == Label("a") && ElementAt(LoopMessage(header), 14) == Pointer(12)
  {
    var m := LoopMessage(header);
    assert m[12] == 1 && m[13] == 'a' as int && m[14] == 0xc0 && m[15] == 12;
    assert m[13..14] == ['a' as int];
    assert AsciiLower(Latin1(['a' as int])) == "a";
  }

  lemma {:induction false} NoPathThere(header: Message, path: seq<nat>)
    requires |header| == DNS_HEADER_BYTES && IsPath(LoopMessage(header), path)
    ensures path[0] != 12 && path[0] != 14
    decreases |path|
  {
    LoopElements(header);
    hide ElementAt;
    if path[0] == 12 || path[0] == 14 {
      NoPathThere(header, path[1..]);
    }
  }

  /** Reading with the 255-byte limit alone: it ends too, as pointers only descend between two labels. */
  function WalkByBytes(m: Message, at: nat, wire: nat): Option<Name>
    requires wire <= MAX_NAME_WIRE_BYTES
    decreases MAX_NAME_WIRE_BYTES - wire, at
  {
    match ElementAt(m, at)
    case Bad => None
    case Pointer(target) =>
      if target >= at || target < DNS_HEADER_BYTES then None
      else
        var rest := WalkByBytes(m, target, wire);
        if rest.Some? then Some(Name(rest.value.labels, at + 2)) else None
    case Root => if wire + 1 > MAX_NAME_WIRE_BYTES then None else Some(Name([], at + 1))
    case Label(text) =>
      if wire + |text| + 1 > MAX_NAME_WIRE_BYTES then None
      else
        var rest := WalkByBytes(m, at + 1 + |text|, wire + |text| + 1);
        if rest.Some? then Some(Name([text] + rest.value.labels, rest.value.next)) else None
  }

  /** The jump limit only refuses: what it lets through reads the same without it. */
  lemma {:induction false} JumpLimitOnlyRefuses(m: Message, at: nat, jumps: nat, wire: nat)
    requires jumps <= MAX_POINTER_JUMPS && wire <= MAX_NAME_WIRE_BYTES && Walk(m, at, jumps, wire).Some?
    ensures WalkByBytes(m, at, wire) == Walk(m, at, jumps, wire)
    decreases MAX_POINTER_JUMPS - jumps, MAX_NAME_WIRE_BYTES - wire
  {
    hide ElementAt;
    match ElementAt(m, at) {
      case Root =>
      case Pointer(target) => JumpLimitOnlyRefuses(m, target, jumps + 1, wire);
      case Label(text) => JumpLimitOnlyRefuses(m, at + 1 + |text|, jumps, wire + |text| + 1);
    }
  }

  lemma LabelInside(m: Message, at: nat)
    requires ElementAt(m, at).Label?
    ensures at + 1 + |ElementAt(m, at).text| <= |m|
  {
  }

  /** Reading with the limit of 32 jumps alone: it ends as well, as labels only lead on to the end of the
      message between two jumps. */
  function WalkByJumps(m: Message, at: nat, jumps: nat): Option<Name>
    requires jumps <= MAX_POINTER_JUMPS
    decreases MAX_POINTER_JUMPS - jumps, if at <= |m| then |m| - at else 0
  {
    match ElementAt(m, at)
    case Bad => None
    case Pointer(target) =>
      if target >= at || target < DNS_HEADER_BYTES || jumps + 1 > MAX_POINTER_JUMPS then None
      else
        var rest := WalkByJumps(m, target, jumps + 1);
        if rest.Some? then Some(Name(rest.value.labels, at + 2)) else None
    case Root => Some(Name([], at + 1))
    case Label(text) =>
      LabelInside(m, at);
      var rest := WalkByJumps(m, at + 1 + |text|, jumps);
      if rest.Some? then Some(Name([text] + rest.value.labels, rest.value.next)) else None
  }

  /** The byte limit only refuses, too. */
  lemma {:induction false} ByteLimitOnlyRefuses(m: Message, at: nat, jumps: nat, wire: nat)
    requires jumps <= MAX_POINTER_JUMPS && wire <= MAX_NAME_WIRE_BYTES && Walk(m, at, jumps, wire).Some?
    ensures WalkByJumps(m, at, jumps) == Walk(m, at, jumps, wire)
    decreases MAX_POINTER_JUMPS - jumps, MAX_NAME_WIRE_BYTES - wire
  {
    hide ElementAt;
    match ElementAt(m, at) {
      case Root =>
      case Pointer(target) => ByteLimitOnlyRefuses(m, target, jumps + 1, wire);
      case Label(text) => ByteLimitOnlyRefuses(m, at + 1 + |text|, jumps, wire + |text| + 1);
    }
  }

  // ---------- Rings of CNAMEs ----------

  function NextIn(i: nat, size: nat): nat {
    if i + 1 == size then 0 else i + 1
  }

  /** Each name leads to the next, and the last to the first. */
  ghost predicate IsRing(m: Message, answers: seq<Record>, names: seq<Labels>) {
    && names != [] && AllDistinct(names)
    && forall i :: 0 <= i < |names| ==> Link(m, answers, names[i], names[NextIn(i, |names|)])
  }

  lemma OneTarget(m: Message, answers: seq<Record>, owner: Labels, a: Labels, b: Labels)
    requires CnamesWellFormed(m, answers) && Link(m, answers, owner, a) && Link(m, answers, owner, b)
    ensures a == b
  {
    hide IsCname, CnameTarget;
  }

  /** A chain from the first name follows the ring, and is back at it after a round. */
  lemma {:induction false} RoundTheRing(m: Message, answers: seq<Record>, names: seq<Labels>, chain: seq<Labels>, i: nat)
    requires CnamesWellFormed(m, answers) && IsRing(m, answers, names)
    requires IsChain(m, answers, chain) && chain[0] == names[0] && i < |chain| && i <= |names|
    ensures chain[i] == if i == |names| then names[0] else names[i]
  {
    hide Link, CnamesWellFormed, AllDistinct;
    if i > 0 {
      RoundTheRing(m, answers, names, chain, i - 1);
      assert Link(m, answers, names[i - 1], names[NextIn(i - 1, |names|)]);
      assert Link(m, answers, chain[i - 1], chain[i - 1 + 1]);
      OneTarget(m, answers, names[i - 1], chain[i], names[NextIn(i - 1, |names|)]);
    }
  }

  /** The chain of 18 names a longer ring gives. */
  lemma RingTooLong(m: Message, answers: seq<Record>, names: seq<Labels>)
    requires IsRing(m, answers, names) && |names| > MAX_CNAME_LINKS
    ensures TooLong(m, answers, names[0])
  {
    hide Link;
    var chain := if |names| == MAX_CNAME_LINKS + 1 then names + [names[0]] else names[..MAX_CNAME_LINKS + 2];
    forall i | 0 <= i < |chain| - 1
      ensures Link(m, answers, chain[i], chain[i + 1])
    {
      assert Link(m, answers, names[i], names[NextIn(i, |names|)]);
    }
    assert IsChain(m, answers, chain);
    assert chain[..MAX_CNAME_LINKS + 1] == names[..MAX_CNAME_LINKS + 1];
  }

  /** A ring of CNAMEs is followed round exactly when it has at most 16 names; one more, and the answer is
      malformed though the ring closes. */
  lemma RingIff(m: Message, answers: seq<Record>, names: seq<Labels>)
    requires CnamesWellFormed(m, answers) && IsRing(m, answers, names)
    ensures ChainOwnersOf(m, answers, names[0]).Some? <==> |names| <= 16
  {
    hide Link, CnamesWellFormed, IsChain, ChainOwnersOf, OnChain, TooLong;
    OwnersAreTheChain(m, answers, names[0]);
    if |names| > MAX_CNAME_LINKS {
      RingTooLong(m, answers, names);
    } else if TooLong(m, answers, names[0]) {
      ShortRingFits(m, answers, names);
    }
  }

  lemma ShortRingFits(m: Message, answers: seq<Record>, names: seq<Labels>)
    requires CnamesWellFormed(m, answers) && IsRing(m, answers, names) && |names| <= MAX_CNAME_LINKS
    ensures !TooLong(m, answers, names[0])
  {
    hide Link, CnamesWellFormed;
    if TooLong(m, answers, names[0]) {
      var chain :| IsChain(m, answers, chain) && chain[0] == names[0]
                   && |chain| == MAX_CNAME_LINKS + 2 && AllDistinct(chain[..MAX_CNAME_LINKS + 1]);
      RoundTheRing(m, answers, names, chain, |names|);
    }
  }
}
