/** What `parseTxtResponse` accepts, read off the message instead of off the parser: it answers records
    exactly when the message is a whole and well-formed answer to the question (RFC 1035 section 4.1). */
module DnsExact {
  import opened Wrappers
  import opened DnsBytes
  import opened DnsName
  import opened DnsResponse

  // ---------- Records one after the other ----------

  /** Where record `i` starts: after the one before. */
  function StartOf(start: nat, records: seq<Record>, i: nat): nat
    requires i <= |records|
  {
    if i == 0 then start else records[i - 1].rdataEnd
  }

  ghost predicate Layout(m: Message, start: nat, records: seq<Record>) {
    forall i :: 0 <= i < |records| ==> RecordAt(m, StartOf(start, records, i)) == Some(records[i])
  }

  lemma {:induction false} RecordsLieInARow(m: Message, start: nat, count: nat, records: seq<Record>)
    ensures RecordsFrom(m, start, count) == Some(records) <==> |records| == count && Layout(m, start, records)
    decreases count
  {
    hide RecordAt, Layout;
    if count == 0 {
      NoRecords(m, start);
    } else if records != [] {
      var rest := records[1..];
      RecordsLieInARow(m, records[0].rdataEnd, count - 1, rest);
      LayoutFirst(m, start, records);
      assert records == [records[0]] + rest;
      var first := RecordAt(m, start);
      if first.Some? && RecordsFrom(m, first.value.rdataEnd, count - 1).Some? {
        var others := RecordsFrom(m, first.value.rdataEnd, count - 1).value;
        assert ([first.value] + others)[0] == first.value && ([first.value] + others)[1..] == others;
      }
    }
  }

  lemma NoRecords(m: Message, start: nat)
    ensures Layout(m, start, [])
  {
  }

  lemma LayoutFirst(m: Message, start: nat, records: seq<Record>)
    requires records != []
    ensures Layout(m, start, records)
       <==> RecordAt(m, start) == Some(records[0]) && Layout(m, records[0].rdataEnd, records[1..])
  {
    hide RecordAt;
    var rest, next := records[1..], records[0].rdataEnd;
    assert forall i :: 0 <= i < |rest| ==> StartOf(next, rest, i) == StartOf(start, records, i + 1) && rest[i] == records[i + 1];
    if Layout(m, next, rest) && RecordAt(m, start) == Some(records[0]) {
      forall i | 0 <= i < |records|
        ensures RecordAt(m, StartOf(start, records, i)) == Some(records[i])
      {
        assert i > 0 ==> StartOf(next, rest, i - 1) == StartOf(start, records, i) && rest[i - 1] == records[i];
      }
    }
    if Layout(m, start, records) {
      assert StartOf(start, records, 0) == start;
    }
  }

  // ---------- Character-strings ----------

  /** The wire form of a run of character-strings (RFC 1035 section 3.3). */
  function EncodedStrings(strings: seq<string>): Message {
    if strings == [] then [] else [|strings[0]| % 256] + CharBytes(strings[0]) + EncodedStrings(strings[1..])
  }

  predicate CharacterStrings(strings: seq<string>) {
    forall s :: s in strings ==> |s| < 256 && IsLatin1(s)
  }

  lemma Latin1Bytes(bytes: Message)
    ensures CharBytes(Latin1(bytes)) == bytes && IsLatin1(Latin1(bytes))
  {
  }

  /** The strings read are the ones whose wire form is exactly the RDATA. */
  lemma {:induction false} StringsFillExactly(m: Message, at: nat, end: nat, strings: seq<string>)
    requires at <= end <= |m|
    ensures StringsAt(m, at, end) == Some(strings)
       <==> CharacterStrings(strings) && m[at..end] == EncodedStrings(strings)
    decreases end - at
  {
    hide EncodedStrings, CharacterStrings, CharBytes, Latin1;
    EncodedFirst(strings);
    if at == end {
      assert m[at..end] == [];
    } else if strings != [] {
      var length: int := m[at];
      assert m[at..end][0] == m[at];
      if at + 1 + length <= end {
        StringsFillExactly(m, at + 1 + length, end, strings[1..]);
        OneString(m, at, end, strings);
        assert strings == [strings[0]] + strings[1..];
      }
      if StringsAt(m, at, end).Some? {
        var rest := StringsAt(m, at + 1 + length, end).value;
        var text := Latin1(m[at + 1..at + 1 + length]);
        assert ([text] + rest)[0] == text && ([text] + rest)[1..] == rest;
      }
    }
  }

  lemma EncodedFirst(strings: seq<string>)
    ensures strings == [] ==> EncodedStrings(strings) == [] && CharacterStrings(strings)
    ensures strings != [] ==>
              CharacterStrings(strings) == (|strings[0]| < 256 && IsLatin1(strings[0]) && CharacterStrings(strings[1..]))
    ensures strings != [] && |strings[0]| < 256 ==>
              && EncodedStrings(strings) == [|strings[0]|] + CharBytes(strings[0]) + EncodedStrings(strings[1..])
              && |EncodedStrings(strings)| >= 1 + |strings[0]| && EncodedStrings(strings)[0] == |strings[0]|
  {
    hide IsLatin1, CharacterStrings, CharBytes, EncodedStrings;
    if strings == [] {
      NoStrings(strings);
    } else {
      CharacterFirst(strings);
      if |strings[0]| < 256 {
        WireFirst(strings);
      }
    }
  }

  lemma NoStrings(strings: seq<string>)
    requires strings == []
    ensures EncodedStrings(strings) == [] && CharacterStrings(strings)
  {
  }

  lemma WireFirst(strings: seq<string>)
    requires strings != [] && |strings[0]| < 256
    ensures EncodedStrings(strings) == [|strings[0]|] + CharBytes(strings[0]) + EncodedStrings(strings[1..])
  {
    hide CharBytes;
    assert |strings[0]| % 256 == |strings[0]|;
  }

  lemma CharacterFirst(strings: seq<string>)
    requires strings != []
    ensures CharacterStrings(strings) == (|strings[0]| < 256 && IsLatin1(strings[0]) && CharacterStrings(strings[1..]))
  {
    hide IsLatin1;
    assert strings[0] in strings;
    assert forall s :: s in strings <==> s == strings[0] || s in strings[1..];
  }

  lemma OneString(m: Message, at: nat, end: nat, strings: seq<string>)
    requires at < end <= |m| && strings != [] && at + 1 + m[at] <= end
    ensures var l, s := m[at], strings[0];
            CharacterStrings(strings) && m[at..end] == EncodedStrings(strings)
            <==> s == Latin1(m[at + 1..at + 1 + l]) && CharacterStrings(strings[1..])
                 && m[at + 1 + l..end] == EncodedStrings(strings[1..])
  {
    hide EncodedStrings, CharacterStrings, CharBytes, Latin1;
    var l, s, rest := m[at], strings[0], strings[1..];
    var bytes := m[at + 1..at + 1 + l];
    EncodedFirst(strings);
    Latin1Bytes(bytes);
    var whole, tail := m[at..end], m[at + 1 + l..end];
    assert whole == [m[at]] + bytes + tail;
    if CharacterStrings(strings) && whole == EncodedStrings(strings) {
      assert whole[0] == |s|;
      assert whole[1..1 + l] == bytes && whole[1..1 + l] == CharBytes(s);
      assert whole[1 + l..] == tail && whole[1 + l..] == EncodedStrings(rest);
      Latin1RoundTrip(s);
    }
  }

  // ---------- The CNAME chain ----------

  /** An IN CNAME answer leads from `owner` to `target`. */
  ghost predicate Link(m: Message, answers: seq<Record>, owner: Labels, target: Labels) {
    exists r :: r in answers && IsCname(r) && r.owner == owner && CnameTarget(m, r) == Some(target)
  }

  /** Every IN CNAME answer holds one name, and no owner has two targets. */
  ghost predicate CnamesWellFormed(m: Message, answers: seq<Record>) {
    && (forall r :: r in answers && IsCname(r) ==> CnameTarget(m, r).Some?)
    && (forall r, s :: r in answers && s in answers && IsCname(r) && IsCname(s) && r.owner == s.owner ==>
          CnameTarget(m, r) == CnameTarget(m, s))
  }

  ghost predicate MapsLinks(m: Message, answers: seq<Record>, targets: map<Labels, Labels>) {
    && (forall r :: r in answers && IsCname(r) ==> r.owner in targets && CnameTarget(m, r) == Some(targets[r.owner]))
    && (forall o :: o in targets ==> Link(m, answers, o, targets[o]))
  }

  lemma {:induction false} TargetsAreLinks(m: Message, answers: seq<Record>)
    ensures Targets(m, answers).Some? <==> CnamesWellFormed(m, answers)
    ensures Targets(m, answers).Some? ==> MapsLinks(m, answers, Targets(m, answers).value)
    decreases |answers|
  {
    hide IsCname, CnameTarget;
    if answers != [] {
      var before, r := answers[..|answers| - 1], answers[|answers| - 1];
      TargetsAreLinks(m, before);
      assert forall s :: s in answers <==> s in before || s == r;
      if Targets(m, before).Some? {
        OneMoreLink(m, before, r, answers);
      }
    }
  }

  lemma OneMoreLink(m: Message, before: seq<Record>, r: Record, answers: seq<Record>)
    requires Targets(m, before).Some? && MapsLinks(m, before, Targets(m, before).value) && CnamesWellFormed(m, before)
    requires answers == before + [r]
    ensures Targets(m, answers).Some? <==> CnamesWellFormed(m, answers)
    ensures Targets(m, answers).Some? ==> MapsLinks(m, answers, Targets(m, answers).value)
  {
    hide IsCname, CnameTarget;
    var known := Targets(m, before).value;
    assert answers[..|answers| - 1] == before;
    assert forall s :: s in answers <==> s in before || s == r;
    if IsCname(r) && CnameTarget(m, r).Some? && r.owner in known {
      assert Link(m, before, r.owner, known[r.owner]);
    }
    if Targets(m, answers).Some? {
      MapGrows(m, before, r, answers);
    }
  }

  lemma TargetsLast(m: Message, answers: seq<Record>)
    requires answers != [] && Targets(m, answers).Some?
    ensures var before, r := answers[..|answers| - 1], answers[|answers| - 1];
            && Targets(m, before).Some?
            && (!IsCname(r) ==> Targets(m, answers) == Targets(m, before))
    ensures var before, r := answers[..|answers| - 1], answers[|answers| - 1];
            IsCname(r) ==>
              && CnameTarget(m, r).Some?
              && Targets(m, answers).value == Targets(m, before).value[r.owner := CnameTarget(m, r).value]
              && (r.owner in Targets(m, before).value ==> Targets(m, before).value[r.owner] == CnameTarget(m, r).value)
  {
    hide IsCname, CnameTarget;
  }

  lemma MapGrows(m: Message, before: seq<Record>, r: Record, answers: seq<Record>)
    requires Targets(m, before).Some? && MapsLinks(m, before, Targets(m, before).value)
    requires answers == before + [r] && Targets(m, answers).Some?
    ensures MapsLinks(m, answers, Targets(m, answers).value)
  {
    hide IsCname, CnameTarget, Targets;
    assert answers[..|answers| - 1] == before;
    TargetsLast(m, answers);
    assert forall s :: s in answers <==> s in before || s == r;
    var known, targets := Targets(m, before).value, Targets(m, answers).value;
    forall o | o in targets
      ensures Link(m, answers, o, targets[o])
    {
      if o in known {
        assert Link(m, before, o, known[o]);
      } else {
        assert r in answers && IsCname(r) && r.owner == o && CnameTarget(m, r) == Some(targets[o]);
      }
    }
  }

  /** Names each of which an answer leads to the next. */
  ghost predicate IsChain(m: Message, answers: seq<Record>, names: seq<Labels>) {
    names != [] && forall i :: 0 <= i < |names| - 1 ==> Link(m, answers, names[i], names[i + 1])
  }

  ghost predicate OnChain(m: Message, answers: seq<Record>, asked: Labels, name: Labels) {
    exists names :: IsChain(m, answers, names) && names[0] == asked && names[|names| - 1] == name
  }

  predicate AllDistinct(names: seq<Labels>) {
    forall i, j :: 0 <= i < j < |names| ==> names[i] != names[j]
  }

  /** 17 different names in a row and one more link: one link too many, even where it closes a loop. */
  ghost predicate TooLong(m: Message, answers: seq<Record>, asked: Labels) {
    exists names :: IsChain(m, answers, names) && names[0] == asked
                    && |names| == 18 && AllDistinct(names[..17])
  }

  /** A set that holds every name it leads to. */
  ghost predicate Closed(targets: map<Labels, Labels>, names: set<Labels>) {
    forall n :: n in names && n in targets ==> targets[n] in names
  }

  lemma LinkIsTarget(m: Message, answers: seq<Record>, targets: map<Labels, Labels>, owner: Labels, target: Labels)
    requires MapsLinks(m, answers, targets)
    ensures Link(m, answers, owner, target) <==> owner in targets && targets[owner] == target
  {
    hide IsCname, CnameTarget;
  }

  lemma {:induction false} ChainStaysIn(m: Message, answers: seq<Record>, targets: map<Labels, Labels>,
                                        names: seq<Labels>, owners: set<Labels>)
    requires MapsLinks(m, answers, targets) && IsChain(m, answers, names) && names[0] in owners && Closed(targets, owners)
    ensures names[|names| - 1] in owners
    decreases |names|
  {
    hide MapsLinks, Link;
    if |names| > 1 {
      var init := names[..|names| - 1];
      assert IsChain(m, answers, init) by {
        forall i | 0 <= i < |init| - 1
          ensures Link(m, answers, init[i], init[i + 1])
        {
          assert Link(m, answers, names[i], names[i + 1]);
        }
      }
      ChainStaysIn(m, answers, targets, init, owners);
      LinkIsTarget(m, answers, targets, names[|names| - 2], names[|names| - 1]);
    }
  }

  ghost function NamesIn(names: seq<Labels>): set<Labels> {
    set n | n in names
  }

  /** The walk so far: `links` links, all names different, the last one current. */
  ghost predicate Walked(m: Message, answers: seq<Record>, asked: Labels, names: seq<Labels>, links: nat) {
    IsChain(m, answers, names) && |names| == links + 1 && names[0] == asked && AllDistinct(names)
  }

  /** Every name walked but the last leads to one of them. */
  ghost predicate Led(targets: map<Labels, Labels>, names: seq<Labels>) {
    forall i :: 0 <= i < |names| - 1 ==> names[i] in targets && targets[names[i]] in NamesIn(names)
  }

  /** Where the walk ends: with every name on the chain, or past 16 links. */
  lemma {:induction false} WalkEnds(m: Message, answers: seq<Record>, targets: map<Labels, Labels>, asked: Labels,
                                    names: seq<Labels>, links: nat)
    requires MapsLinks(m, answers, targets) && Walked(m, answers, asked, names, links) && Led(targets, names)
    requires links <= MAX_CNAME_LINKS
    ensures var r := Owners(targets, names[links], NamesIn(names), links);
            && (r.Some? ==> asked in r.value && Closed(targets, r.value)
                            && forall n :: n in r.value ==> OnChain(m, answers, asked, n))
            && (r.None? ==> TooLong(m, answers, asked))
    decreases MAX_CNAME_LINKS - links
  {
    hide MapsLinks, Link, OnChain, TooLong, Walked, Led, Closed, NamesIn;
    WalkedLength(m, answers, asked, names, links);
    var current := names[links];
    if current in targets && (links == MAX_CNAME_LINKS || targets[current] !in NamesIn(names)) {
      var next := targets[current];
      LinkIsTarget(m, answers, targets, current, next);
      if links == MAX_CNAME_LINKS {
        OneTooMany(m, answers, asked, names, next);
      } else {
        WalkGrows(m, answers, targets, asked, names, links, next);
        WalkEnds(m, answers, targets, asked, names + [next], links + 1);
      }
    } else {
      WalkStops(m, answers, targets, asked, names, links);
    }
  }

  lemma WalkedLength(m: Message, answers: seq<Record>, asked: Labels, names: seq<Labels>, links: nat)
    requires Walked(m, answers, asked, names, links)
    ensures |names| == links + 1
  {
  }

  lemma WalkGrows(m: Message, answers: seq<Record>, targets: map<Labels, Labels>, asked: Labels,
                  names: seq<Labels>, links: nat, next: Labels)
    requires Walked(m, answers, asked, names, links) && Led(targets, names) && Link(m, answers, names[links], next)
    requires names[links] in targets && targets[names[links]] == next && next !in NamesIn(names)
    ensures Walked(m, answers, asked, names + [next], links + 1) && Led(targets, names + [next])
    ensures NamesIn(names + [next]) == NamesIn(names) + {next}
  {
    hide Link, IsChain;
    ChainGrows(m, answers, names, next);
  }

  lemma WalkStops(m: Message, answers: seq<Record>, targets: map<Labels, Labels>, asked: Labels, names: seq<Labels>, links: nat)
    requires Walked(m, answers, asked, names, links) && Led(targets, names)
    requires names[links] in targets ==> targets[names[links]] in NamesIn(names)
    ensures asked in NamesIn(names) && Closed(targets, NamesIn(names))
    ensures forall n :: n in NamesIn(names) ==> OnChain(m, answers, asked, n)
  {
    hide Link;
    PrefixesOnChain(m, answers, asked, names);
    hide OnChain, IsChain;
  }

  lemma OneTooMany(m: Message, answers: seq<Record>, asked: Labels, names: seq<Labels>, next: Labels)
    requires Walked(m, answers, asked, names, MAX_CNAME_LINKS) && Link(m, answers, names[MAX_CNAME_LINKS], next)
    ensures TooLong(m, answers, asked)
  {
    hide Link, IsChain;
    ChainGrows(m, answers, names, next);
    assert (names + [next])[..MAX_CNAME_LINKS + 1] == names;
  }

  lemma ChainGrows(m: Message, answers: seq<Record>, names: seq<Labels>, next: Labels)
    requires IsChain(m, answers, names) && Link(m, answers, names[|names| - 1], next)
    ensures IsChain(m, answers, names + [next])
    ensures AllDistinct(names) && next !in NamesIn(names) ==> AllDistinct(names + [next])
  {
    hide Link;
  }

  lemma PrefixesOnChain(m: Message, answers: seq<Record>, asked: Labels, names: seq<Labels>)
    requires IsChain(m, answers, names) && names[0] == asked
    ensures forall n :: n in NamesIn(names) ==> OnChain(m, answers, asked, n)
  {
    hide Link;
    forall n | n in NamesIn(names)
      ensures OnChain(m, answers, asked, n)
    {
      var i :| 0 <= i < |names| && names[i] == n;
      assert IsChain(m, answers, names[..i + 1]);
    }
  }

  /** A chain that is too long is walked to its 17th name. */
  lemma {:induction false} TooLongFails(m: Message, answers: seq<Record>, targets: map<Labels, Labels>,
                                        names: seq<Labels>, links: nat)
    requires MapsLinks(m, answers, targets) && IsChain(m, answers, names) && |names| == MAX_CNAME_LINKS + 2
    requires AllDistinct(names[..MAX_CNAME_LINKS + 1]) && links <= MAX_CNAME_LINKS
    ensures Owners(targets, names[links], NamesIn(names[..links + 1]), links).None?
    decreases MAX_CNAME_LINKS - links
  {
    hide MapsLinks, Link;
    LinkIsTarget(m, answers, targets, names[links], names[links + 1]);
    if links < MAX_CNAME_LINKS {
      var first := names[..MAX_CNAME_LINKS + 1];
      assert forall i :: 0 <= i < links + 1 ==> names[i] == first[i] && first[i] != first[links + 1] == names[links + 1];
      assert NamesIn(names[..links + 2]) == NamesIn(names[..links + 1]) + {names[links + 1]};
      TooLongFails(m, answers, targets, names, links + 1);
    }
  }

  /** The owners are exactly the names on the CNAME chain from the name asked; there are none when a CNAME
      is malformed or the chain is too long. */
  lemma {:induction false} OwnersAreTheChain(m: Message, answers: seq<Record>, asked: Labels)
    ensures var r := ChainOwnersOf(m, answers, asked);
            && (r.Some? <==> CnamesWellFormed(m, answers) && !TooLong(m, answers, asked))
            && (r.Some? ==> forall n :: n in r.value <==> OnChain(m, answers, asked, n))
  {
    hide MapsLinks, Link, CnamesWellFormed, IsChain, Targets, Owners;
    TargetsAreLinks(m, answers);
    if Targets(m, answers).Some? {
      var targets := Targets(m, answers).value;
      StartOfChain(m, answers, asked);
      WalkEnds(m, answers, targets, asked, [asked], 0);
      assert NamesIn([asked]) == {asked};
      var r := ChainOwnersOf(m, answers, asked);
      if TooLong(m, answers, asked) {
        TooLongHasNone(m, answers, targets, asked);
      }
      if r.Some? {
        forall n | OnChain(m, answers, asked, n)
          ensures n in r.value
        {
          OnChainStaysIn(m, answers, targets, asked, n, r.value);
        }
      }
    }
  }

  lemma StartOfChain(m: Message, answers: seq<Record>, asked: Labels)
    ensures Walked(m, answers, asked, [asked], 0)
  {
  }

  lemma TooLongHasNone(m: Message, answers: seq<Record>, targets: map<Labels, Labels>, asked: Labels)
    requires MapsLinks(m, answers, targets) && TooLong(m, answers, asked)
    ensures Owners(targets, asked, {asked}, 0).None?
  {
    hide MapsLinks, Link, Owners;
    var names :| IsChain(m, answers, names) && names[0] == asked
                 && |names| == MAX_CNAME_LINKS + 2 && AllDistinct(names[..MAX_CNAME_LINKS + 1]);
    TooLongFails(m, answers, targets, names, 0);
    assert names[..1] == [asked];
    assert NamesIn([asked]) == {asked};
  }

  lemma OnChainStaysIn(m: Message, answers: seq<Record>, targets: map<Labels, Labels>, asked: Labels, n: Labels, owners: set<Labels>)
    requires MapsLinks(m, answers, targets) && OnChain(m, answers, asked, n) && asked in owners && Closed(targets, owners)
    ensures n in owners
  {
    hide MapsLinks, Link;
    var names :| IsChain(m, answers, names) && names[0] == asked && names[|names| - 1] == n;
    ChainStaysIn(m, answers, targets, names, owners);
  }
}
