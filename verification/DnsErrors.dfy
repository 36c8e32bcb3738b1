/** Which message makes the parse answer which error (src/utils/dns-wire.ts:73-83, 264-346), with the numbers of
    RFC 1035 section 4.1.1 and RFC 6891 section 6.1.3 written out. */
module DnsErrors {
  import opened Wrappers
  import opened DnsBytes
  import opened DnsName
  import opened DnsQuery
  import opened DnsResponse
  import opened DnsExact
  import opened DnsAnswer

  // ---------- What the message says ----------

  /** The answer, authority and additional records, laid out in a row from `start`. */
  ghost predicate AllRecords(m: Message, start: nat, all: seq<Record>) {
    |m| >= 12 && |all| == U16(m, 6) + U16(m, 8) + U16(m, 10) && Layout(m, start, all)
  }

  function Additional(m: Message, all: seq<Record>): seq<Record>
    requires |m| >= 12 && |all| == U16(m, 6) + U16(m, 8) + U16(m, 10)
  {
    all[U16(m, 6) + U16(m, 8)..]
  }

  /** At most one OPT record (type 41), owned by the root. */
  predicate OneRootOpt(additional: seq<Record>) {
    AtMostOneOpt(additional) && forall r :: r in additional && r.rtype == 41 ==> r.owner == []
  }

  /** The byte of an OPT record that holds the upper bits of the RCODE: the first of its TTL. */
  function UpperByte(m: Message, r: Record): int {
    if 6 <= r.rdataStart < |m| + 6 then m[r.rdataStart - 6] else 0
  }

  /** `number` is the RCODE of the header with the upper bits of the OPT record, if there is one. */
  ghost predicate HasCode(m: Message, additional: seq<Record>, number: int)
    requires |m| >= 12
  {
    && (forall r :: r in additional && r.rtype == 41 ==> number == 16 * UpperByte(m, r) + ReplyCode(m))
    && ((forall r :: r in additional ==> r.rtype != 41) ==> number == ReplyCode(m))
  }

  /** A reply to our question that is not cut short. */
  predicate OursWhole(m: Message, q: TxtQuestion, start: nat) {
    ReplyHeader(m, q.id, 1) && AsksFor(m, q.labels, start) && !TruncatedBit(m)
  }

  /** A reply to our question with every section in a row, at most one root OPT, and this RCODE. */
  ghost predicate RepliesWith(m: Message, q: TxtQuestion, number: int) {
    exists start, all :: OursWhole(m, q, start) && AllRecords(m, start, all)
                         && OneRootOpt(Additional(m, all)) && HasCode(m, Additional(m, all), number)
  }

  /** A reply to our ID without a question, with this RCODE in its header. */
  predicate RepliesBarely(m: Message, q: TxtQuestion, number: int) {
    ReplyHeader(m, q.id, 0) && ReplyCode(m) == number
  }

  // ---------- Codes ----------

  /** The OPT record's TTL is read where the bytes say. */
  lemma UpperBits(m: Message, at: nat)
    requires RecordAt(m, at).Some?
    ensures RecordAt(m, at).value.ttl / 0x100_0000 == UpperByte(m, RecordAt(m, at).value)
  {
    hide NameAt;
    var r := RecordAt(m, at).value;
    var a := r.rdataStart - 6;
    assert r.ttl == U32(m, a);
    TopByte(m[a], m[a + 1], m[a + 2], m[a + 3]);
  }

  lemma TopByte(a: byte, b: byte, c: byte, d: byte)
    ensures (((a as int) * 256 + b) * 0x1_0000 + ((c as int) * 256 + d)) / 0x100_0000 == a
  {
  }

  lemma OptsUpper(m: Message, start: nat, all: seq<Record>, r: Record)
    requires AllRecords(m, start, all) && r in all
    ensures r.ttl / 0x100_0000 == UpperByte(m, r)
  {
    hide RecordAt;
    var i :| 0 <= i < |all| && all[i] == r;
    UpperBits(m, StartOf(start, all, i));
  }

  lemma OptsIff(records: seq<Record>)
    ensures OptsAllowed(Opts(records)) <==> OneRootOpt(records)
    ensures |Opts(records)| == 1 ==> Opts(records)[0] in records && Opts(records)[0].rtype == 41
                                     && forall r :: r in records && r.rtype == 41 ==> r == Opts(records)[0]
    ensures |Opts(records)| == 0 ==> forall r :: r in records ==> r.rtype != 41
  {
    hide Opts;
    OptsAreTheOpts(records);
    OptsCounted(records);
    var opts := Opts(records);
    if |opts| == 1 {
      assert opts[0] in opts;
      assert forall o :: o in opts ==> o == opts[0];
    }
  }

  /** The one RCODE the sections give. */
  lemma OneCode(m: Message, start: nat, all: seq<Record>, number: int)
    requires AllRecords(m, start, all) && OneRootOpt(Additional(m, all))
    ensures HasCode(m, Additional(m, all), number) <==> number == FullRcode(ReplyCode(m), Opts(Additional(m, all)))
  {
    hide Opts, AtMostOneOpt, Layout;
    var additional := Additional(m, all);
    OptsIff(additional);
    assert forall r :: r in additional ==> r in all;
    var opts := Opts(additional);
    if |opts| == 1 {
      OptsUpper(m, start, all, opts[0]);
    }
  }

  /** The sections lie in a row with at most one root OPT, and give this RCODE. */
  ghost predicate SectionsCode(m: Message, start: nat, number: int) {
    exists all :: AllRecords(m, start, all) && OneRootOpt(Additional(m, all)) && HasCode(m, Additional(m, all), number)
  }

  /** What the sections make of the reply: an RCODE of 0 leaves it to the answers, another is the error, and
      without an RCODE the reply is malformed. */
  lemma SectionsRead(m: Message, start: nat, labels: Labels) returns (number: Option<int>)
    requires |m| >= 12
    ensures forall n :: SectionsCode(m, start, n) <==> number == Some(n)
    ensures number.None? ==> SectionsOutcome(m, start, ReplyCode(m), labels) == MALFORMED
    ensures number.Some? ==> number.value >= 0
    ensures number.Some? && number.value != 0 ==>
              SectionsOutcome(m, start, ReplyCode(m), labels) == Error(RcodeError(number.value).value)
    ensures number == Some(0) ==>
              var o := SectionsOutcome(m, start, ReplyCode(m), labels);
              o.Records? || o == Error(ENODATA) || o == MALFORMED
  {
    hide AllRecords, OneRootOpt, HasCode, RecordsFrom, AnswersOutcome, ReplyCode, Opts, OptsAllowed, FullRcode;
    var total := U16(m, 6) + U16(m, 8) + U16(m, 10);
    var read := RecordsFrom(m, start, total);
    forall all
      ensures AllRecords(m, start, all) <==> read == Some(all)
    {
      ReadIsAll(m, start, all);
    }
    if read.None? {
      number := None;
    } else {
      RecordsInBounds(m, start, total);
      OptsIff(Additional(m, read.value));
      if OneRootOpt(Additional(m, read.value)) {
        var n := FullRcode(ReplyCode(m), Opts(Additional(m, read.value)));
        forall k
          ensures HasCode(m, Additional(m, read.value), k) <==> k == n
        {
          OneCode(m, start, read.value, k);
        }
        number := Some(n);
        AnswersKinds(m, read.value[..U16(m, 6)], labels);
        RcodeZero(n);
      } else {
        number := None;
      }
    }
  }

  lemma RcodeZero(n: nat)
    ensures RcodeError(n).None? <==> n == 0
  {
  }

  lemma ReadIsAll(m: Message, start: nat, all: seq<Record>)
    requires |m| >= 12
    ensures AllRecords(m, start, all) <==> RecordsFrom(m, start, U16(m, 6) + U16(m, 8) + U16(m, 10)) == Some(all)
  {
    hide RecordsFrom, Layout;
    RecordsLieInARow(m, start, U16(m, 6) + U16(m, 8) + U16(m, 10), all);
  }

  lemma AnswersKinds(m: Message, answers: seq<Record>, labels: Labels)
    requires InBounds(m, answers)
    ensures var o := AnswersOutcome(m, answers, labels); o.Records? || o == Error(ENODATA) || o == MALFORMED
  {
    hide ChainOwnersOf, TxtRecords;
  }

  // ---------- The outcome ----------

  /** What the header and the question make of a message. */
  lemma ParseSplits(m: Message, q: TxtQuestion)
    requires |m| >= 12
    ensures var code := ReplyCode(m);
            && (ReplyHeader(m, q.id, 0) && code in {1, 2, 4, 5} ==> Parse(m, q) == Error(RcodeError(code).value))
            && (ReplyHeader(m, q.id, 0) && code !in {1, 2, 4, 5} ==> Parse(m, q) == Mismatch)
            && (!ReplyHeader(m, q.id, 0) && !ReplyHeader(m, q.id, 1) ==> Parse(m, q) == Mismatch)
            && (ReplyHeader(m, q.id, 1) ==>
                  match OurQuestion(m, q.labels)
                  case None => Parse(m, q) == Mismatch
                  case Some(start) =>
                    Parse(m, q) == if TruncatedBit(m) then Truncated else SectionsOutcome(m, start, code, q.labels))
  {
    HeaderBits(m, q.id);
    hide OurQuestion, SectionsOutcome, ReplyHeader, ReplyCode, TruncatedBit, IsResponse, Opcode, IsTruncated, RcodeError;
  }

  lemma QuestionIs(m: Message, labels: Labels)
    ensures forall start: nat :: AsksFor(m, labels, start) <==> OurQuestion(m, labels) == Some(start)
  {
    hide AsksFor, OurQuestion;
    forall start: nat
      ensures AsksFor(m, labels, start) <==> OurQuestion(m, labels) == Some(start)
    {
      QuestionIff(m, labels, start);
    }
  }

  lemma OneHeader(m: Message, id: int)
    ensures !(ReplyHeader(m, id, 0) && ReplyHeader(m, id, 1))
    ensures |m| < 12 ==> forall n: nat :: !ReplyHeader(m, id, n)
  {
  }

  /** Each RCODE in the message against the error answered, question or not. */
  lemma CodesAnswered(m: Message, q: TxtQuestion, number: int, code: DnsTxtErrorCode)
    requires 1 <= number <= 5 && RcodeError(number) == Some(code)
    requires forall n: nat :: n != number && n != 0 ==> RcodeError(n) != Some(code)
    requires code != ENODATA && code != EBADRESP
    ensures Parse(m, q) == Error(code) <==> RepliesWith(m, q, number) || (number != 3 && RepliesBarely(m, q, number))
  {
    hide RcodeError, ReplyHeader, ReplyCode, TruncatedBit, AsksFor, OurQuestion, SectionsOutcome, Parse, AllRecords, OneRootOpt, HasCode;
    OneHeader(m, q.id);
    if |m| < 12 {
      ShortIsMismatch(m, q);
    } else {
      ParseSplits(m, q);
      QuestionIs(m, q.labels);
      CodesNamed();
      match OurQuestion(m, q.labels) {
        case None =>
        case Some(start) =>
          var n := SectionsRead(m, start, q.labels);
          RepliesBySections(m, q, start, number);
      }
    }
  }

  lemma CodesNamed()
    ensures forall n: nat :: RcodeError(n).None? <==> n == 0
  {
  }

  lemma ShortIsMismatch(m: Message, q: TxtQuestion)
    requires |m| < 12
    ensures Parse(m, q) == Mismatch
  {
  }

  lemma RepliesBySections(m: Message, q: TxtQuestion, start: nat, number: int)
    requires |m| >= 12 && OurQuestion(m, q.labels) == Some(start)
    ensures RepliesWith(m, q, number)
       <==> ReplyHeader(m, q.id, 1) && !TruncatedBit(m) && SectionsCode(m, start, number)
  {
    hide ReplyHeader, TruncatedBit, AsksFor, OurQuestion, Layout, OneRootOpt, HasCode;
    QuestionIs(m, q.labels);
    if ReplyHeader(m, q.id, 1) && !TruncatedBit(m) && SectionsCode(m, start, number) {
      var all :| AllRecords(m, start, all) && OneRootOpt(Additional(m, all)) && HasCode(m, Additional(m, all), number);
      assert OursWhole(m, q, start);
    }
  }

  /** The errors a server gives: 1 EFORMERR, 2 ESERVFAIL, 3 ENOTFOUND, 4 ENOTIMP, 5 EREFUSED, each answered
      exactly when the reply to our question carries that RCODE, in its header and OPT record together, or,
      but for 3, a reply without a question carries it in its header. */
  lemma ErrorsExactly(m: Message, q: TxtQuestion)
    ensures Parse(m, q) == Error(EFORMERR) <==> RepliesWith(m, q, 1) || RepliesBarely(m, q, 1)
    ensures Parse(m, q) == Error(ESERVFAIL) <==> RepliesWith(m, q, 2) || RepliesBarely(m, q, 2)
    ensures Parse(m, q) == Error(ENOTFOUND) <==> RepliesWith(m, q, 3)
    ensures Parse(m, q) == Error(ENOTIMP) <==> RepliesWith(m, q, 4) || RepliesBarely(m, q, 4)
    ensures Parse(m, q) == Error(EREFUSED) <==> RepliesWith(m, q, 5) || RepliesBarely(m, q, 5)
  {
    hide Parse, RepliesWith, RepliesBarely;
    CodesAnswered(m, q, 1, EFORMERR);
    CodesAnswered(m, q, 2, ESERVFAIL);
    CodesAnswered(m, q, 3, ENOTFOUND);
    CodesAnswered(m, q, 4, ENOTIMP);
    CodesAnswered(m, q, 5, EREFUSED);
  }

  /** Not ours: no reply to our ID and question, and no bare failure of our ID. Cut short: ours, with TC set. */
  lemma OthersExactly(m: Message, q: TxtQuestion)
    ensures Parse(m, q) == Mismatch
       <==> && !(exists n :: n in {1, 2, 4, 5} && RepliesBarely(m, q, n))
            && !(ReplyHeader(m, q.id, 1) && exists start :: AsksFor(m, q.labels, start))
    ensures Parse(m, q) == Truncated
       <==> ReplyHeader(m, q.id, 1) && TruncatedBit(m) && exists start :: AsksFor(m, q.labels, start)
  {
    hide RcodeError, ReplyHeader, ReplyCode, TruncatedBit, AsksFor, OurQuestion, SectionsOutcome, Parse;
    OneHeader(m, q.id);
    if |m| < 12 {
      ShortIsMismatch(m, q);
    } else {
      ParseSplits(m, q);
      QuestionIs(m, q.labels);
      if OurQuestion(m, q.labels).Some? {
        var start := OurQuestion(m, q.labels).value;
        SectionsKinds(m, start, ReplyCode(m), q.labels);
        assert AsksFor(m, q.labels, start);
      }
      if ReplyCode(m) in {1, 2, 4, 5} {
        assert ReplyHeader(m, q.id, 0) ==> RepliesBarely(m, q, ReplyCode(m));
      }
    }
  }

  lemma SectionsKinds(m: Message, start: nat, header: nat, labels: Labels)
    requires |m| >= 12
    ensures var o := SectionsOutcome(m, start, header, labels); o.Records? || o.Error?
  {
    hide RecordsFrom, Opts, RcodeError, ChainOwnersOf, TxtRecords;
  }

  /** A reply that is ours and whole, but neither an answer nor one of the five failures, is EBADRESP, and
      nothing else is. */
  lemma BadExactly(m: Message, q: TxtQuestion)
    ensures Parse(m, q) == Error(EBADRESP)
       <==> && (exists start :: OursWhole(m, q, start))
            && (forall n :: 1 <= n <= 5 ==> !RepliesWith(m, q, n))
            && (forall records :: !AnswersWith(m, q, records))
  {
    hide RcodeError, ReplyHeader, ReplyCode, TruncatedBit, AsksFor, Parse, RepliesWith, AnswersWith, RepliesBarely;
    ErrorsExactly(m, q);
    OthersExactly(m, q);
    RecordsExactly(m, q, []);
    forall records
      ensures AnswersWith(m, q, records) <==> Parse(m, q) == (if records == [] then Error(ENODATA) else Records(records))
    {
      RecordsExactly(m, q, records);
    }
    BarelyIsError(m, q);
    NoEmptyRecords(m, q);
    forall n | 1 <= n <= 5 && RepliesWith(m, q, n)
      ensures RepliesWith(m, q, 1) || RepliesWith(m, q, 2) || RepliesWith(m, q, 3) || RepliesWith(m, q, 4) || RepliesWith(m, q, 5)
    {
      assert n == 1 || n == 2 || n == 3 || n == 4 || n == 5;
    }
    forall n | n in {1, 2, 4, 5} && RepliesBarely(m, q, n)
      ensures RepliesBarely(m, q, 1) || RepliesBarely(m, q, 2) || RepliesBarely(m, q, 4) || RepliesBarely(m, q, 5)
    {
      assert n == 1 || n == 2 || n == 4 || n == 5;
    }
    BadIsOurs(m, q);
    hide OursWhole;
    match Parse(m, q) {
      case Mismatch =>
      case Truncated =>
      case Records(records) => assert AnswersWith(m, q, records);
      case Error(code) =>
        if code == EBADRESP {
          assert !RepliesBarely(m, q, 1) && !RepliesBarely(m, q, 2) && !RepliesBarely(m, q, 4) && !RepliesBarely(m, q, 5);
        } else if code == ENODATA {
          assert AnswersWith(m, q, []);
        } else {
          assert Parse(m, q) != Error(EBADRESP);
        }
    }
  }

  lemma BadIsOurs(m: Message, q: TxtQuestion)
    ensures (exists start :: OursWhole(m, q, start))
       <==> Parse(m, q) != Mismatch && Parse(m, q) != Truncated && !(exists n :: n in {1, 2, 4, 5} && RepliesBarely(m, q, n))
  {
    hide ReplyHeader, ReplyCode, TruncatedBit, AsksFor, Parse, RepliesBarely;
    OthersExactly(m, q);
    BarelyIsError(m, q);
    OneHeader(m, q.id);
    if ReplyHeader(m, q.id, 1) && !TruncatedBit(m) {
      if start :| AsksFor(m, q.labels, start) {
        assert OursWhole(m, q, start);
      }
    }
  }

  lemma BarelyIsError(m: Message, q: TxtQuestion)
    ensures forall n :: RepliesBarely(m, q, n) ==> !ReplyHeader(m, q.id, 1)
  {
    OneHeader(m, q.id);
    hide ReplyHeader, ReplyCode;
  }

  lemma NoEmptyRecords(m: Message, q: TxtQuestion)
    ensures Parse(m, q) != Records([])
  {
    hide OurQuestion, RecordsFrom, RcodeError, ChainOwnersOf, TxtRecords, Opts;
  }
}
