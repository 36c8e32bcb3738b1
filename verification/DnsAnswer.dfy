/** The parse of a response is exact, and a query echoed as a response is parsed as its own answer
    (src/utils/dns-wire.ts:94-156, 259-366). */
module DnsAnswer {
  import opened Wrappers
  import opened DnsBytes
  import opened DnsName
  import opened DnsQuery
  import opened DnsResponse
  import opened DnsExact

  // ---------- OPT records ----------

  predicate AtMostOneOpt(records: seq<Record>) {
    forall i, j :: 0 <= i < j < |records| ==> records[i].rtype != 41 || records[j].rtype != 41
  }

  /** At most one OPT record (type 41), owned by the root, with no upper bits of an RCODE. */
  predicate OptsSilent(records: seq<Record>) {
    && AtMostOneOpt(records)
    && forall r :: r in records && r.rtype == 41 ==> r.owner == [] && r.ttl < 0x100_0000
  }

  lemma {:induction false} OptsAreTheOpts(records: seq<Record>)
    ensures forall r :: r in Opts(records) <==> r in records && r.rtype == TYPE_OPT
    decreases |records|
  {
    if records != [] {
      var init, last := records[..|records| - 1], records[|records| - 1];
      OptsAreTheOpts(init);
      assert forall r :: r in records <==> r in init || r == last;
    }
  }

  lemma {:induction false} OptsCounted(records: seq<Record>)
    ensures |Opts(records)| <= 1 <==> AtMostOneOpt(records)
    decreases |records|
  {
    if records != [] {
      var init, last := records[..|records| - 1], records[|records| - 1];
      OptsCounted(init);
      OptsAreTheOpts(init);
      assert forall i :: 0 <= i < |init| ==> init[i] == records[i];
      if last.rtype == TYPE_OPT {
        if Opts(init) == [] {
          assert forall i :: 0 <= i < |init| ==> init[i] in init && init[i] !in Opts(init);
        } else {
          assert Opts(init)[0] in init;
          var i :| 0 <= i < |init| && init[i] == Opts(init)[0];
          assert records[i].rtype == TYPE_OPT;
        }
      }
    }
  }

  lemma SilentOpts(records: seq<Record>, header: nat)
    ensures OptsAllowed(Opts(records)) && RcodeError(FullRcode(header, Opts(records))).None?
       <==> header == 0 && OptsSilent(records)
  {
    hide Opts;
    OptsAreTheOpts(records);
    OptsCounted(records);
    var opts := Opts(records);
    if |opts| == 1 {
      assert opts[0] in opts;
      assert forall o :: o in opts ==> o == opts[0];
    }
  }

  // ---------- TXT answers ----------

  /** The RDATA is this run of character-strings, at least one. */
  ghost predicate Holds(m: Message, r: Record, strings: seq<string>)
    requires r.rdataStart <= r.rdataEnd <= |m|
  {
    strings != [] && CharacterStrings(strings) && m[r.rdataStart..r.rdataEnd] == EncodedStrings(strings)
  }

  ghost predicate InBounds(m: Message, answers: seq<Record>) {
    forall r :: r in answers ==> r.rdataStart <= r.rdataEnd <= |m|
  }

  lemma HoldsExactly(m: Message, r: Record, strings: seq<string>)
    requires r.rdataStart <= r.rdataEnd <= |m|
    ensures TxtAt(m, r.rdataStart, r.rdataEnd) == Some(strings) <==> Holds(m, r, strings)
  {
    StringsFillExactly(m, r.rdataStart, r.rdataEnd, strings);
    StringsFillExactly(m, r.rdataStart, r.rdataEnd, []);
    hide StringsAt, EncodedStrings, CharacterStrings;
  }

  ghost predicate TxtsWellFormed(m: Message, answers: seq<Record>)
    requires InBounds(m, answers)
  {
    forall r :: r in answers && r.rtype == 16 ==> exists strings :: Holds(m, r, strings)
  }

  predicate Increasing(places: seq<nat>) {
    forall i, j :: 0 <= i < j < |places| ==> places[i] < places[j]
  }

  /** The places, in order, of the TXT answers (type 16) of class IN (1) owned by one of `owners`. */
  ghost predicate Places(answers: seq<Record>, owners: set<Labels>, places: seq<nat>) {
    && Increasing(places)
    && forall i: nat :: i in places
         <==> i < |answers| && answers[i].rtype == 16 && answers[i].rclass == 1 && answers[i].owner in owners
  }

  /** Each record holds the strings of the answer at its place. */
  ghost predicate Quotes(m: Message, answers: seq<Record>, places: seq<nat>, records: seq<seq<string>>)
    requires InBounds(m, answers)
  {
    && |records| == |places|
    && forall k :: 0 <= k < |places| ==> places[k] < |answers| && Holds(m, answers[places[k]], records[k])
  }

  lemma WithoutLast(a: seq<nat>)
    requires Increasing(a) && a != []
    ensures var x, init := a[|a| - 1], a[..|a| - 1];
            && a == init + [x] && Increasing(init) && x in a && x !in init
            && (forall i :: i in a ==> i <= x)
            && (forall i :: i in init <==> i in a && i != x)
  {
    var x, init := a[|a| - 1], a[..|a| - 1];
    assert a == init + [x];
    forall i | i in init
      ensures i < x
    {
      var k :| 0 <= k < |init| && init[k] == i;
      assert a[k] < a[|a| - 1];
    }
  }

  lemma {:induction false} SamePlaces(a: seq<nat>, b: seq<nat>)
    requires Increasing(a) && Increasing(b) && forall i: nat :: i in a <==> i in b
    ensures a == b
    decreases |a|
  {
    hide Increasing;
    assert b != [] ==> b[0] in a;
    if a != [] {
      assert a[0] in b;
      WithoutLast(a);
      WithoutLast(b);
      assert a[|a| - 1] == b[|b| - 1];
      SamePlaces(a[..|a| - 1], b[..|b| - 1]);
    }
  }

  predicate IsOurs(r: Record, owners: set<Labels>) {
    r.rtype == 16 && r.rclass == 1 && r.owner in owners
  }

  lemma {:induction false} TxtRecordsQuote(m: Message, answers: seq<Record>, owners: set<Labels>) returns (places: seq<nat>)
    requires InBounds(m, answers)
    ensures TxtRecords(m, answers, owners).Some? <==> TxtsWellFormed(m, answers)
    ensures Places(answers, owners, places)
    ensures TxtRecords(m, answers, owners).Some? ==> Quotes(m, answers, places, TxtRecords(m, answers, owners).value)
    decreases |answers|
  {
    hide TxtAt, Holds, Places, Quotes, TxtsWellFormed, IsOurs;
    if answers == [] {
      places := [];
      NoAnswers(m, owners);
      assert answers == [];
    } else {
      var init, r := answers[..|answers| - 1], answers[|answers| - 1];
      assert answers == init + [r];
      LastTxt(m, init, r);
      places := TxtRecordsQuote(m, init, owners);
      TxtRecordsLast(m, answers, owners);
      if TxtRecords(m, answers, owners).Some? {
        QuotesGrow(m, init, r, owners, places, TxtRecords(m, init, owners).value);
      }
      PlacesGrow(init, r, owners, places);
      if IsOurs(r, owners) {
        places := places + [|init|];
      }
    }
  }

  lemma NoAnswers(m: Message, owners: set<Labels>)
    ensures InBounds(m, []) && Places([], owners, []) && Quotes(m, [], [], []) && TxtsWellFormed(m, [])
  {
  }

  lemma TxtRecordsLast(m: Message, answers: seq<Record>, owners: set<Labels>)
    requires InBounds(m, answers) && answers != []
    ensures var init, r := answers[..|answers| - 1], answers[|answers| - 1];
            && InBounds(m, init) && r.rdataStart <= r.rdataEnd <= |m|
            && var before, strings := TxtRecords(m, init, owners), TxtAt(m, r.rdataStart, r.rdataEnd);
               && (TxtRecords(m, answers, owners).Some? <==> before.Some? && (r.rtype == TYPE_TXT ==> strings.Some?))
               && (TxtRecords(m, answers, owners).Some? ==>
                     TxtRecords(m, answers, owners).value
                     == if IsOurs(r, owners) then before.value + [strings.value] else before.value)
  {
    hide TxtAt;
  }

  lemma PlacesGrow(init: seq<Record>, r: Record, owners: set<Labels>, places: seq<nat>)
    requires Places(init, owners, places)
    ensures Places(init + [r], owners, if IsOurs(r, owners) then places + [|init|] else places)
  {
    var more := places + [|init|];
    assert forall i: nat :: i in more <==> i in places || i == |init|;
    assert (init + [r])[|init|] == r;
    assert forall i: nat :: i < |init| ==> (init + [r])[i] == init[i];
    forall k | 0 <= k < |places|
      ensures places[k] < |init|
    {
      assert places[k] in places;
    }
  }

  lemma QuotesGrow(m: Message, init: seq<Record>, r: Record, owners: set<Labels>, places: seq<nat>, records: seq<seq<string>>)
    requires InBounds(m, init) && InBounds(m, init + [r]) && r.rdataStart <= r.rdataEnd <= |m|
    requires Quotes(m, init, places, records)
    requires r.rtype == TYPE_TXT ==> TxtAt(m, r.rdataStart, r.rdataEnd).Some?
    ensures Quotes(m, init + [r], places, records)
    ensures IsOurs(r, owners) ==>
              Quotes(m, init + [r], places + [|init|], records + [TxtAt(m, r.rdataStart, r.rdataEnd).value])
  {
    hide TxtAt, Holds;
    forall k | 0 <= k < |places|
      ensures places[k] < |init| && Holds(m, (init + [r])[places[k]], records[k])
    {
      assert (init + [r])[places[k]] == init[places[k]];
    }
    if IsOurs(r, owners) {
      var strings := TxtAt(m, r.rdataStart, r.rdataEnd).value;
      HoldsExactly(m, r, strings);
      forall k | 0 <= k < |places| + 1
        ensures (places + [|init|])[k] < |init| + 1
                && Holds(m, (init + [r])[(places + [|init|])[k]], (records + [strings])[k])
      {
        if k == |places| {
          assert (init + [r])[|init|] == r;
        }
      }
    }
  }

  lemma LastTxt(m: Message, init: seq<Record>, r: Record)
    requires InBounds(m, init + [r])
    ensures InBounds(m, init) && r.rdataStart <= r.rdataEnd <= |m|
    ensures TxtsWellFormed(m, init + [r])
       <==> TxtsWellFormed(m, init) && (r.rtype == TYPE_TXT ==> TxtAt(m, r.rdataStart, r.rdataEnd).Some?)
  {
    hide TxtAt, Holds;
    assert r in init + [r];
    assert forall s :: s in init ==> s in init + [r];
    if TxtAt(m, r.rdataStart, r.rdataEnd).Some? {
      HoldsExactly(m, r, TxtAt(m, r.rdataStart, r.rdataEnd).value);
    }
    if strings :| Holds(m, r, strings) {
      HoldsExactly(m, r, strings);
    }
  }

  lemma QuotesAgree(m: Message, answers: seq<Record>, places: seq<nat>, a: seq<seq<string>>, b: seq<seq<string>>)
    requires InBounds(m, answers) && Quotes(m, answers, places, a) && Quotes(m, answers, places, b)
    ensures a == b
  {
    hide Holds;
    forall k | 0 <= k < |a|
      ensures a[k] == b[k]
    {
      HoldsExactly(m, answers[places[k]], a[k]);
      HoldsExactly(m, answers[places[k]], b[k]);
    }
  }

  /** The records are the TXT answers in class IN owned by `owners`, in answer order. */
  lemma TxtRecordsExactly(m: Message, answers: seq<Record>, owners: set<Labels>, records: seq<seq<string>>)
    requires InBounds(m, answers)
    ensures TxtRecords(m, answers, owners) == Some(records)
       <==> TxtsWellFormed(m, answers) && exists places :: Places(answers, owners, places) && Quotes(m, answers, places, records)
  {
    hide TxtsWellFormed, Places, Quotes, TxtRecords;
    var found := TxtRecordsQuote(m, answers, owners);
    if places :| Places(answers, owners, places) && Quotes(m, answers, places, records) {
      OnePlacing(answers, owners, places, found);
      if TxtRecords(m, answers, owners).Some? {
        QuotesAgree(m, answers, found, records, TxtRecords(m, answers, owners).value);
      }
    }
  }

  lemma OnePlacing(answers: seq<Record>, owners: set<Labels>, a: seq<nat>, b: seq<nat>)
    requires Places(answers, owners, a) && Places(answers, owners, b)
    ensures a == b
  {
    SamePlaces(a, b);
  }

  // ---------- The whole response ----------

  /** A response to query `id` with this many questions: QR set and opcode 0 (section 4.1.1 of RFC 1035, bit by
      bit: byte 2 holds QR, four bits of opcode, AA, TC and RD; byte 3 holds RA, three bits of zero and RCODE). */
  predicate ReplyHeader(m: Message, id: int, questions: nat) {
    && |m| >= 12
    && U16(m, 0) == id && m[2] >= 128 && m[2] % 128 < 8 && U16(m, 4) == questions
  }

  predicate TruncatedBit(m: Message)
    requires |m| >= 12
  {
    m[2] % 4 >= 2
  }

  function ReplyCode(m: Message): nat
    requires |m| >= 12
  {
    m[3] % 16
  }

  /** The header of an answer to query `id`: one question, TC clear, RCODE 0. */
  predicate AnswerHeader(m: Message, id: int) {
    ReplyHeader(m, id, 1) && !TruncatedBit(m) && ReplyCode(m) == 0
  }

  lemma HeaderBits(m: Message, id: int)
    requires |m| >= DNS_HEADER_BYTES
    ensures var flags := U16(m, 2);
            && (forall questions: nat :: ReplyHeader(m, id, questions)
                  <==> U16(m, 0) == id && IsResponse(flags) && Opcode(flags) == 0 && U16(m, 4) == questions)
            && IsTruncated(flags) == TruncatedBit(m) && flags % 16 == ReplyCode(m)
  {
  }

  /** The question at byte 12 asks for these labels, type 16 (TXT) and class 1 (IN). */
  predicate AsksFor(m: Message, labels: Labels, end: nat) {
    var name := NameAt(m, 12);
    name.Some? && name.value.labels == labels && end == name.value.next + 4 <= |m| && m[end - 4..end] == [0, 16, 0, 1]
  }

  lemma QuestionIff(m: Message, labels: Labels, end: nat)
    ensures OurQuestion(m, labels) == Some(end) <==> AsksFor(m, labels, end)
  {
    hide NameAt;
    var name := NameAt(m, 12);
    if name.Some? && name.value.next + 4 <= |m| {
      var n := name.value.next;
      assert m[n..n + 4] == [m[n], m[n + 1], m[n + 2], m[n + 3]];
      FourBytes(m[n], m[n + 1], m[n + 2], m[n + 3]);
    }
  }

  lemma FourBytes(a: byte, b: byte, c: byte, d: byte)
    ensures [a, b, c, d] == [0, 16, 0, 1] <==> (a as int) * 256 + b == 16 && (c as int) * 256 + d == 1
  {
    assert [a, b, c, d] == [0, 16, 0, 1] ==> a == [0, 16, 0, 1][0] && b == [0, 16, 0, 1][1] && c == [0, 16, 0, 1][2] && d == [0, 16, 0, 1][3];
  }

  /** Every section laid out record by record after the question, no RCODE bits or second OPT record, the
      CNAMEs in order, and every TXT answer well formed. */
  ghost predicate WholeSections(m: Message, start: nat, labels: Labels, all: seq<Record>) {
    && |m| >= DNS_HEADER_BYTES
    && |all| == U16(m, 6) + U16(m, 8) + U16(m, 10) && Layout(m, start, all)
    && OptsSilent(all[U16(m, 6) + U16(m, 8)..])
    && CnamesWellFormed(m, all[..U16(m, 6)]) && !TooLong(m, all[..U16(m, 6)], labels)
    && InBounds(m, all[..U16(m, 6)]) && TxtsWellFormed(m, all[..U16(m, 6)])
  }

  /** The places, in order, of the TXT answers of class IN owned by a name on the chain from `asked`. */
  ghost predicate ChainPlaces(m: Message, answers: seq<Record>, asked: Labels, places: seq<nat>) {
    && Increasing(places)
    && forall i: nat :: i in places
         <==> i < |answers| && answers[i].rtype == 16 && answers[i].rclass == 1
              && OnChain(m, answers, asked, answers[i].owner)
  }

  /** `records` are the strings of exactly our TXT answers, in answer order. */
  ghost predicate Delivers(m: Message, answers: seq<Record>, labels: Labels, records: seq<seq<string>>)
    requires InBounds(m, answers)
  {
    exists places :: ChainPlaces(m, answers, labels, places) && Quotes(m, answers, places, records)
  }

  ghost predicate AnswersWith(m: Message, q: TxtQuestion, records: seq<seq<string>>) {
    && AnswerHeader(m, q.id)
    && exists start, all :: AsksFor(m, q.labels, start) && WholeSections(m, start, q.labels, all)
                            && Delivers(m, all[..U16(m, 6)], q.labels, records)
  }

  lemma AnswersExactly(m: Message, answers: seq<Record>, labels: Labels, records: seq<seq<string>>)
    requires InBounds(m, answers)
    ensures AnswersOutcome(m, answers, labels) == (if records == [] then Error(ENODATA) else Records(records))
       <==> && CnamesWellFormed(m, answers) && !TooLong(m, answers, labels)
            && TxtsWellFormed(m, answers) && Delivers(m, answers, labels, records)
  {
    hide ChainOwnersOf, CnamesWellFormed, TooLong, TxtsWellFormed, Delivers, TxtRecords, OnChain;
    OwnersAreTheChain(m, answers, labels);
    if ChainOwnersOf(m, answers, labels).Some? {
      var owners := ChainOwnersOf(m, answers, labels).value;
      TxtRecordsExactly(m, answers, owners, records);
      DeliversByOwners(m, answers, labels, owners, records);
      if TxtRecords(m, answers, owners).Some? && TxtRecords(m, answers, owners).value == [] {
        assert TxtRecords(m, answers, owners) == Some([]);
      }
    }
  }

  lemma DeliversByOwners(m: Message, answers: seq<Record>, labels: Labels, owners: set<Labels>, records: seq<seq<string>>)
    requires InBounds(m, answers) && forall n :: n in owners <==> OnChain(m, answers, labels, n)
    ensures Delivers(m, answers, labels, records)
       <==> exists places :: Places(answers, owners, places) && Quotes(m, answers, places, records)
  {
    hide OnChain, Quotes, Increasing;
    if places :| Places(answers, owners, places) && Quotes(m, answers, places, records) {
      assert ChainPlaces(m, answers, labels, places);
    }
    if places :| ChainPlaces(m, answers, labels, places) && Quotes(m, answers, places, records) {
      assert Places(answers, owners, places);
    }
  }

  lemma {:induction false} SectionsExactly(m: Message, start: nat, header: nat, labels: Labels, records: seq<seq<string>>)
    requires DNS_HEADER_BYTES <= |m|
    ensures SectionsOutcome(m, start, header, labels) == (if records == [] then Error(ENODATA) else Records(records))
       <==> header == 0
            && exists all :: WholeSections(m, start, labels, all) && Delivers(m, all[..U16(m, 6)], labels, records)
  {
    hide RecordsFrom, Layout, AnswersOutcome, CnamesWellFormed, TooLong, TxtsWellFormed, Delivers, OptsAllowed,
         OptsSilent, Opts, FullRcode;
    var others := U16(m, 6) + U16(m, 8);
    var total := others + U16(m, 10);
    var read := RecordsFrom(m, start, total);
    if all :| WholeSections(m, start, labels, all) && Delivers(m, all[..U16(m, 6)], labels, records) {
      RecordsLieInARow(m, start, total, all);
    }
    if read.Some? {
      RecordsInBounds(m, start, total);
      RecordsLieInARow(m, start, total, read.value);
      SilentOpts(read.value[others..], header);
      AnswersExactly(m, read.value[..U16(m, 6)], labels, records);
    }
  }

  /** Records are answered exactly when the header, the question and every section of the message make it a
      whole answer, and they are the strings of the TXT answers in class IN owned by a name on the CNAME
      chain, in answer order; with no such answer the outcome is ENODATA, and nothing else gives that. */
  lemma {:induction false} RecordsExactly(m: Message, q: TxtQuestion, records: seq<seq<string>>)
    ensures Parse(m, q) == (if records == [] then Error(ENODATA) else Records(records)) <==> AnswersWith(m, q, records)
  {
    hide SectionsOutcome, OurQuestion, AsksFor, ReplyHeader, TruncatedBit, ReplyCode, IsResponse, Opcode, IsTruncated, WholeSections, Delivers;
    if |m| >= DNS_HEADER_BYTES {
      HeaderBits(m, q.id);
      forall end: nat
        ensures OurQuestion(m, q.labels) == Some(end) <==> AsksFor(m, q.labels, end)
      {
        QuestionIff(m, q.labels, end);
      }
      if OurQuestion(m, q.labels).Some? {
        SectionsExactly(m, OurQuestion(m, q.labels).value, U16(m, 2) % 16, q.labels, records);
      }
    } else {
      NoHeader(m, q.id);
    }
  }

  lemma NoHeader(m: Message, id: int)
    requires |m| < DNS_HEADER_BYTES
    ensures forall questions: nat :: !ReplyHeader(m, id, questions)
  {
  }
}
