/** Names in a message, compression included (src/utils/dns-wire.ts:174-206; RFC 1035 section 4.1.4). */
module DnsName {
  import opened Wrappers
  import opened AsciiText
  import opened DnsBytes

  /** Labels, and where the bytes after the name start. */
  datatype Name = Name(labels: Labels, next: nat)

  // ---------- What the bytes at one place say ----------

  /** `Bad`: past the end, an unknown label type, or a label or pointer cut short. */
  datatype Element = Root | Label(text: string) | Pointer(target: nat) | Bad

  function ElementAt(m: Message, at: nat): Element {
    if at >= |m| then Bad
    else
      var length: int := m[at];
      if length >= 0xc0 then
        if at + 1 >= |m| then Bad else Pointer((length - 0xc0) * 256 + m[at + 1])
      else if length >= 0x40 then Bad
      else if length == 0 then Root
      else if at + 1 + length > |m| then Bad
      else Label(AsciiLower(Latin1(m[at + 1..at + 1 + length])))
  }

  // ---------- The expansion of a name, section 4.1.4 ----------

  /** The places a name is read at, in order: each label is followed by what comes after it, each pointer
      by its target, and the last is the root. */
  ghost predicate IsPath(m: Message, path: seq<nat>)
    decreases |path|
  {
    && path != []
    && match ElementAt(m, path[0]) {
         case Bad => false
         case Root => |path| == 1
         case Label(text) => |path| > 1 && path[1] == path[0] + 1 + |text| && IsPath(m, path[1..])
         case Pointer(target) => |path| > 1 && path[1] == target && IsPath(m, path[1..])
       }
  }

  function LabelsAlong(m: Message, path: seq<nat>): Labels {
    if path == [] then []
    else (if ElementAt(m, path[0]).Label? then [ElementAt(m, path[0]).text] else []) + LabelsAlong(m, path[1..])
  }

  function JumpsAlong(m: Message, path: seq<nat>): nat {
    if path == [] then 0 else (if ElementAt(m, path[0]).Pointer? then 1 else 0) + JumpsAlong(m, path[1..])
  }

  /** Every pointer points backwards, past the header of 12 bytes. */
  ghost predicate PointsBack(m: Message, path: seq<nat>) {
    forall i :: 0 <= i < |path| && ElementAt(m, path[i]).Pointer? ==>
      12 <= ElementAt(m, path[i]).target < path[i]
  }

  /** Where the bytes after a name start: after its first pointer, or its root. */
  function NextAlong(m: Message, path: seq<nat>): nat {
    if path == [] then 0
    else if |path| > 1 && ElementAt(m, path[0]).Label? then NextAlong(m, path[1..])
    else path[0] + (if ElementAt(m, path[0]).Pointer? then 2 else 1)
  }

  /** A reading of the name at `start` within the budgets of 32 pointers and 255 bytes. */
  ghost predicate Reading(m: Message, start: nat, path: seq<nat>) {
    && IsPath(m, path) && path[0] == start && PointsBack(m, path)
    && JumpsAlong(m, path) <= 32
    && WireLength(LabelsAlong(m, path)) <= 255
  }

  // ---------- The reader ----------

  /** What is left of a name at `at` after `jumps` pointers and `wire` bytes. */
  function Walk(m: Message, at: nat, jumps: nat, wire: nat): (r: Option<Name>)
    requires jumps <= MAX_POINTER_JUMPS && wire <= MAX_NAME_WIRE_BYTES
    ensures r.Some? ==> at < r.value.next <= |m|
    decreases MAX_POINTER_JUMPS - jumps, MAX_NAME_WIRE_BYTES - wire
  {
    match ElementAt(m, at)
    case Bad => None
    case Pointer(target) =>
      if target >= at || target < DNS_HEADER_BYTES || jumps + 1 > MAX_POINTER_JUMPS then None
      else
        var rest := Walk(m, target, jumps + 1, wire);
        if rest.Some? then Some(Name(rest.value.labels, at + 2)) else None
    case Root => if wire + 1 > MAX_NAME_WIRE_BYTES then None else Some(Name([], at + 1))
    case Label(text) =>
      if wire + |text| + 1 > MAX_NAME_WIRE_BYTES then None
      else
        var rest := Walk(m, at + 1 + |text|, jumps, wire + |text| + 1);
        if rest.Some? then Some(Name([text] + rest.value.labels, rest.value.next)) else None
  }

  function NameAt(m: Message, start: nat): (r: Option<Name>)
    ensures r.Some? ==> start < r.value.next <= |m|
  {
    Walk(m, start, 0, 0)
  }

  /** The whole name, given what was read before, where the first pointer ended, and the rest. */
  function Resumed(labels: Labels, next: int, rest: Option<Name>): Option<Name> {
    if rest.None? then None
    else Some(Name(labels + rest.value.labels, if next < 0 then rest.value.next else next))
  }

  lemma WalkNowhere(m: Message, at: nat, jumps: nat, wire: nat)
    requires jumps <= MAX_POINTER_JUMPS && wire <= MAX_NAME_WIRE_BYTES
    requires ElementAt(m, at).Bad? || (ElementAt(m, at).Root? && wire == MAX_NAME_WIRE_BYTES)
             || (ElementAt(m, at).Label? && wire + |ElementAt(m, at).text| + 1 > MAX_NAME_WIRE_BYTES)
             || (ElementAt(m, at).Pointer?
                 && (jumps == MAX_POINTER_JUMPS || !(DNS_HEADER_BYTES <= ElementAt(m, at).target < at)))
    ensures Walk(m, at, jumps, wire).None?
  {
  }

  lemma WalkOn(m: Message, at: nat, jumps: nat, wire: nat, labels: Labels, next: int)
    requires jumps <= MAX_POINTER_JUMPS && wire <= MAX_NAME_WIRE_BYTES && (next < 0 <==> jumps == 0)
    ensures match ElementAt(m, at) {
              case Bad => true
              case Root =>
                wire + 1 <= MAX_NAME_WIRE_BYTES ==>
                  Resumed(labels, next, Walk(m, at, jumps, wire)) == Some(Name(labels, if next < 0 then at + 1 else next))
              case Label(text) =>
                wire + |text| + 1 <= MAX_NAME_WIRE_BYTES ==>
                  Resumed(labels, next, Walk(m, at, jumps, wire))
                  == Resumed(labels + [text], next, Walk(m, at + 1 + |text|, jumps, wire + |text| + 1))
              case Pointer(target) =>
                jumps + 1 <= MAX_POINTER_JUMPS && DNS_HEADER_BYTES <= target < at ==>
                  Resumed(labels, next, Walk(m, at, jumps, wire))
                  == Resumed(labels, if next < 0 then at + 2 else next, Walk(m, target, jumps + 1, wire))
            }
  {
    hide ElementAt;
    match ElementAt(m, at) {
      case Root => assert labels + [] == labels;
      case Label(text) =>
        if wire + |text| + 1 <= MAX_NAME_WIRE_BYTES {
          var rest := Walk(m, at + 1 + |text|, jumps, wire + |text| + 1);
          assert rest.Some? ==> labels + ([text] + rest.value.labels) == labels + [text] + rest.value.labels;
        }
      case _ =>
    }
  }

  /** `readName`: `None` for a malformed name. */
  method ReadName(m: Message, start: nat) returns (r: Option<Name>)
    ensures r == NameAt(m, start)
  {
    hide Walk;
    var labels: Labels := [];
    var at: nat := start;
    var next := -1;
    var wireBytes: nat := 0;
    var jumps: nat := 0;
    ghost var whole := NameAt(m, start);
    assert whole.Some? ==> [] + whole.value.labels == whole.value.labels;
    while true
      invariant jumps <= MAX_POINTER_JUMPS && wireBytes <= MAX_NAME_WIRE_BYTES && (next < 0 <==> jumps == 0)
      invariant whole == Resumed(labels, next, Walk(m, at, jumps, wireBytes))
      decreases MAX_POINTER_JUMPS - jumps, MAX_NAME_WIRE_BYTES - wireBytes
    {
      WalkOn(m, at, jumps, wireBytes, labels, next);
      if at >= |m| {
        WalkNowhere(m, at, jumps, wireBytes);
        return None;
      }
      var length: int := m[at];
      if length >= 0xc0 {
        if at + 1 >= |m| {
          WalkNowhere(m, at, jumps, wireBytes);
          return None;
        }
        var target := (length - 0xc0) * 256 + m[at + 1];
        if target >= at || target < DNS_HEADER_BYTES || jumps == MAX_POINTER_JUMPS {
          WalkNowhere(m, at, jumps, wireBytes);
          return None;
        }
        jumps := jumps + 1;
        if next < 0 {
          next := at + 2;
        }
        at := target;
        continue;
      }
      if length >= 0x40 || wireBytes + length + 1 > MAX_NAME_WIRE_BYTES {
        WalkNowhere(m, at, jumps, wireBytes);
        return None;
      }
      wireBytes := wireBytes + length + 1;
      if length == 0 {
        return Some(Name(labels, if next < 0 then at + 1 else next));
      }
      var end := at + 1 + length;
      if end > |m| {
        WalkNowhere(m, at, jumps, wireBytes - length - 1);
        return None;
      }
      labels := labels + [AsciiLower(Latin1(m[at + 1..end]))];
      at := end;
    }
  }

  // ---------- The reader against the expansion ----------

  lemma PathGrows(m: Message, at: nat, rest: seq<nat>)
    requires IsPath(m, rest) && PointsBack(m, rest)
    requires match ElementAt(m, at) {
               case Label(text) => rest[0] == at + 1 + |text|
               case Pointer(target) => rest[0] == target && DNS_HEADER_BYTES <= target < at
               case _ => false
             }
    ensures IsPath(m, [at] + rest) && PointsBack(m, [at] + rest)
    ensures JumpsAlong(m, [at] + rest) == JumpsAlong(m, rest) + (if ElementAt(m, at).Pointer? then 1 else 0)
    ensures LabelsAlong(m, [at] + rest) == (if ElementAt(m, at).Label? then [ElementAt(m, at).text] else []) + LabelsAlong(m, rest)
  {
    hide ElementAt;
    var path := [at] + rest;
    assert path[1..] == rest;
    assert forall i :: 1 <= i < |path| ==> path[i] == rest[i - 1];
  }

  lemma {:induction false} WalkFollows(m: Message, at: nat, jumps: nat, wire: nat) returns (path: seq<nat>)
    requires jumps <= MAX_POINTER_JUMPS && wire <= MAX_NAME_WIRE_BYTES && Walk(m, at, jumps, wire).Some?
    ensures IsPath(m, path) && path[0] == at && PointsBack(m, path)
    ensures jumps + JumpsAlong(m, path) <= MAX_POINTER_JUMPS
    ensures wire + WireLength(LabelsAlong(m, path)) <= MAX_NAME_WIRE_BYTES
    decreases MAX_POINTER_JUMPS - jumps, MAX_NAME_WIRE_BYTES - wire
  {
    hide ElementAt, IsPath, PointsBack, JumpsAlong, LabelsAlong;
    match ElementAt(m, at) {
      case Root =>
        path := [at];
        RootPath(m, at);
      case Pointer(target) =>
        var rest := WalkFollows(m, target, jumps + 1, wire);
        path := [at] + rest;
        PathGrows(m, at, rest);
        assert [] + LabelsAlong(m, rest) == LabelsAlong(m, rest);
      case Label(text) =>
        var rest := WalkFollows(m, at + 1 + |text|, jumps, wire + |text| + 1);
        path := [at] + rest;
        PathGrows(m, at, rest);
        assert ([text] + LabelsAlong(m, rest))[1..] == LabelsAlong(m, rest);
    }
  }

  lemma RootPath(m: Message, at: nat)
    requires ElementAt(m, at).Root?
    ensures IsPath(m, [at]) && PointsBack(m, [at]) && JumpsAlong(m, [at]) == 0 && LabelsAlong(m, [at]) == []
  {
    assert [at][1..] == [];
  }

  lemma PathShrinks(m: Message, path: seq<nat>)
    requires IsPath(m, path) && PointsBack(m, path)
    ensures var e, rest := ElementAt(m, path[0]), path[1..];
            && !e.Bad?
            && (e.Root? ==> LabelsAlong(m, path) == [] && NextAlong(m, path) == path[0] + 1)
            && (!e.Root? ==> IsPath(m, rest) && PointsBack(m, rest))
            && (e.Label? ==> rest[0] == path[0] + 1 + |e.text| && LabelsAlong(m, path) == [e.text] + LabelsAlong(m, rest)
                             && JumpsAlong(m, path) == JumpsAlong(m, rest) && NextAlong(m, path) == NextAlong(m, rest))
            && (e.Pointer? ==> rest[0] == e.target && DNS_HEADER_BYTES <= e.target < path[0]
                               && LabelsAlong(m, path) == LabelsAlong(m, rest)
                               && JumpsAlong(m, path) == JumpsAlong(m, rest) + 1 && NextAlong(m, path) == path[0] + 2)
  {
    hide ElementAt;
    assert forall i :: 0 <= i < |path| - 1 ==> path[1..][i] == path[i + 1];
    if ElementAt(m, path[0]).Root? {
      assert path[1..] == [];
    }
  }

  lemma {:induction false} PathWalks(m: Message, path: seq<nat>, jumps: nat, wire: nat)
    requires IsPath(m, path) && PointsBack(m, path)
    requires jumps + JumpsAlong(m, path) <= MAX_POINTER_JUMPS
    requires wire + WireLength(LabelsAlong(m, path)) <= MAX_NAME_WIRE_BYTES
    ensures Walk(m, path[0], jumps, wire) == Some(Name(LabelsAlong(m, path), NextAlong(m, path)))
    decreases |path|
  {
    hide ElementAt, PointsBack, IsPath, LabelsAlong, JumpsAlong, NextAlong, WireLength;
    PathShrinks(m, path);
    PathLength(m, path);
    var rest := path[1..];
    match ElementAt(m, path[0]) {
      case Root =>
      case Pointer(target) => PathWalks(m, rest, jumps + 1, wire);
      case Label(text) =>
        PathWalks(m, rest, jumps, wire + |text| + 1);
    }
  }

  lemma PathLength(m: Message, path: seq<nat>)
    requires IsPath(m, path)
    ensures path != []
    ensures WireLength(LabelsAlong(m, path))
         == match ElementAt(m, path[0]) {
              case Label(text) => |text| + 1 + WireLength(LabelsAlong(m, path[1..]))
              case Root => 1
              case _ => WireLength(LabelsAlong(m, path[1..]))
            }
  {
    hide ElementAt;
    var rest := path[1..];
    match ElementAt(m, path[0]) {
      case Root => assert rest == [] && LabelsAlong(m, path) == [];
      case Label(text) => assert ([text] + LabelsAlong(m, rest))[1..] == LabelsAlong(m, rest);
      case Pointer(_) => assert LabelsAlong(m, path) == LabelsAlong(m, rest);
      case Bad =>
    }
  }

  /** A name is read exactly when the message holds an expansion of it within the budgets, and what is
      read is that expansion's labels and the place after it. */
  lemma ReadsTheExpansion(m: Message, start: nat)
    ensures NameAt(m, start).Some? <==> exists path :: Reading(m, start, path)
    ensures forall path :: Reading(m, start, path) ==>
              NameAt(m, start) == Some(Name(LabelsAlong(m, path), NextAlong(m, path)))
  {
    if NameAt(m, start).Some? {
      var path := WalkFollows(m, start, 0, 0);
      assert Reading(m, start, path);
    }
    forall path | Reading(m, start, path)
      ensures NameAt(m, start) == Some(Name(LabelsAlong(m, path), NextAlong(m, path)))
    {
      PathWalks(m, path, 0, 0);
    }
  }

  /** Labels read fit the wire, and each holds 1 to 63 lowercased characters of a byte each. */
  lemma {:induction false} WalkLabels(m: Message, at: nat, jumps: nat, wire: nat)
    requires jumps <= MAX_POINTER_JUMPS && wire <= MAX_NAME_WIRE_BYTES && Walk(m, at, jumps, wire).Some?
    ensures forall l :: l in Walk(m, at, jumps, wire).value.labels ==> PlainLabel(l)
    ensures wire + WireLength(Walk(m, at, jumps, wire).value.labels) <= MAX_NAME_WIRE_BYTES
    decreases MAX_POINTER_JUMPS - jumps, MAX_NAME_WIRE_BYTES - wire
  {
    match ElementAt(m, at) {
      case Root =>
      case Pointer(target) => WalkLabels(m, target, jumps + 1, wire);
      case Label(text) =>
        LabelIsPlain(m, at);
        WalkLabels(m, at + 1 + |text|, jumps, wire + |text| + 1);
        var rest := Walk(m, at + 1 + |text|, jumps, wire + |text| + 1).value.labels;
        assert ([text] + rest)[1..] == rest;
    }
  }

  lemma LabelIsPlain(m: Message, at: nat)
    requires ElementAt(m, at).Label?
    ensures PlainLabel(ElementAt(m, at).text)
  {
    var length: int := m[at];
    var bytes := m[at + 1..at + 1 + length];
    forall i | 0 <= i < |bytes|
      ensures (LowerChar(bytes[i] as char) as int) < 256
           && LowerChar(LowerChar(bytes[i] as char)) == LowerChar(bytes[i] as char)
    {
    }
  }

  /** A name read fits a query, and the reading goes on after its start and inside the message. */
  lemma {:induction false} NamesReadFit(m: Message, start: nat)
    requires NameAt(m, start).Some?
    ensures Encodable(NameAt(m, start).value.labels) && start < NameAt(m, start).value.next <= |m|
  {
    WalkLabels(m, start, 0, 0);
  }

  // ---------- Written names are read back ----------

  function EncodedLabels(labels: Labels): Message
  {
    if labels == [] then [] else [|labels[0]| % 256] + CharBytes(labels[0]) + EncodedLabels(labels[1..])
  }

  function EncodedName(labels: Labels): Message
  {
    EncodedLabels(labels) + [0]
  }

  lemma {:induction false} EncodedLength(labels: Labels)
    ensures |EncodedName(labels)| == WireLength(labels)
  {
    if labels != [] {
      EncodedLength(labels[1..]);
    }
  }

  ghost predicate LiesAt(m: Message, at: nat, bytes: Message) {
    at + |bytes| <= |m| && m[at..at + |bytes|] == bytes
  }

  /** A name written without compression is read back, whatever surrounds it. */
  lemma {:induction false} WrittenNameReads(m: Message, at: nat, labels: Labels, jumps: nat, wire: nat)
    requires forall l :: l in labels ==> PlainLabel(l)
    requires LiesAt(m, at, EncodedName(labels))
    requires jumps <= MAX_POINTER_JUMPS && wire + WireLength(labels) <= MAX_NAME_WIRE_BYTES
    ensures Walk(m, at, jumps, wire) == Some(Name(labels, at + WireLength(labels)))
    decreases |labels|
  {
    hide EncodedLabels, ElementAt, LiesAt, EncodedName, PlainLabel;
    if labels == [] {
      WrittenRoot(m, at);
    } else {
      var l, rest := labels[0], labels[1..];
      WrittenFirst(m, at, labels);
      WrittenNameReads(m, at + 1 + |l|, rest, jumps, wire + |l| + 1);
      assert [l] + rest == labels;
    }
  }

  lemma WrittenFirst(m: Message, at: nat, labels: Labels)
    requires labels != [] && PlainLabel(labels[0]) && LiesAt(m, at, EncodedName(labels))
    ensures ElementAt(m, at) == Label(labels[0]) && LiesAt(m, at + 1 + |labels[0]|, EncodedName(labels[1..]))
  {
    hide ElementAt, LiesAt, EncodedName, CharBytes;
    EncodedFirst(labels);
    WrittenLabel(m, at, labels[0], EncodedName(labels[1..]));
  }

  lemma EncodedFirst(labels: Labels)
    requires labels != [] && PlainLabel(labels[0])
    ensures EncodedName(labels) == [|labels[0]|] + CharBytes(labels[0]) + EncodedName(labels[1..])
  {
    hide CharBytes;
  }

  lemma WrittenRoot(m: Message, at: nat)
    requires LiesAt(m, at, EncodedName([]))
    ensures ElementAt(m, at).Root?
  {
    assert EncodedName([]) == [0];
    assert m[at] == m[at..at + 1][0] == 0;
  }

  lemma WrittenLabel(m: Message, at: nat, l: string, rest: Message)
    requires PlainLabel(l) && LiesAt(m, at, [|l|] + CharBytes(l) + rest)
    ensures ElementAt(m, at) == Label(l) && LiesAt(m, at + 1 + |l|, rest)
  {
    var bytes := [|l|] + CharBytes(l) + rest;
    assert m[at] == m[at..at + |bytes|][0] == |l|;
    assert m[at + 1..at + 1 + |l|] == bytes[1..1 + |l|] == CharBytes(l);
    assert m[at + 1 + |l|..at + |bytes|] == bytes[1 + |l|..] == rest;
    Latin1RoundTrip(l);
  }
}
