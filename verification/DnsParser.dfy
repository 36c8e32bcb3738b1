/** The loops of `parseTxtResponse` and `readSections` (src/utils/dns-wire.ts:259-366), against the parse. */
module DnsParser {
  import opened Wrappers
  import opened DnsBytes
  import opened DnsName
  import opened DnsQuery
  import opened DnsResponse

  function Continued(before: seq<Record>, rest: Option<seq<Record>>): Option<seq<Record>> {
    if rest.None? then None else Some(before + rest.value)
  }

  lemma ReadOne(m: Message, before: seq<Record>, at: nat, count: nat)
    requires count > 0
    ensures var r := RecordAt(m, at);
            Continued(before, RecordsFrom(m, at, count))
            == if r.None? then None else Continued(before + [r.value], RecordsFrom(m, r.value.rdataEnd, count - 1))
  {
    hide RecordAt;
    var r := RecordAt(m, at);
    if r.Some? && RecordsFrom(m, r.value.rdataEnd, count - 1).Some? {
      var rest := RecordsFrom(m, r.value.rdataEnd, count - 1).value;
      assert before + ([r.value] + rest) == before + [r.value] + rest;
    }
  }

  lemma {:induction false} OptsPrefix(records: seq<Record>, i: nat)
    requires i <= |records|
    ensures Opts(records[..i]) <= Opts(records)
    decreases |records| - i
  {
    if i == |records| {
      assert records[..i] == records;
    } else {
      assert records[..i + 1][..i] == records[..i];
      OptsPrefix(records, i + 1);
    }
  }

  lemma {:induction false} DisallowedStays(records: seq<Record>, i: nat)
    requires i <= |records| && !OptsAllowed(Opts(records[..i]))
    ensures !OptsAllowed(Opts(records))
  {
    OptsPrefix(records, i);
    var some, all := Opts(records[..i]), Opts(records);
    if |some| <= 1 {
      var o :| o in some && o.owner != [];
      assert o in all;
    }
  }

  /** A bad OPT record among the records read makes the sections malformed, whatever follows. */
  lemma {:induction false} BadOptSpoils(m: Message, start: nat, headerRcode: nat, labels: Labels, read: seq<Record>, rest: Option<seq<Record>>)
    requires DNS_HEADER_BYTES <= |m|
    requires RecordsFrom(m, start, U16(m, 6) + U16(m, 8) + U16(m, 10)) == Continued(read, rest)
    requires U16(m, 6) + U16(m, 8) <= |read| && !OptsAllowed(Opts(read[U16(m, 6) + U16(m, 8)..]))
    ensures SectionsOutcome(m, start, headerRcode, labels) == MALFORMED
  {
    hide RecordsFrom, Opts, OptsAllowed, AnswersOutcome;
    var others := U16(m, 6) + U16(m, 8);
    if rest.Some? {
      var all := read + rest.value;
      assert all[others..][..|read| - others] == read[others..];
      DisallowedStays(all[others..], |read| - others);
    }
  }

  /** The OPT records among those read so far: how many, and the RCODE with their bits. */
  ghost predicate OptsRead(read: seq<Record>, others: nat, header: nat, optRecords: nat, rcode: nat) {
    if |read| <= others then optRecords == 0 && rcode == header
    else
      var opts := Opts(read[others..]);
      OptsAllowed(opts) && optRecords == |opts| && rcode == FullRcode(header, opts)
  }

  lemma OptsReadOne(read: seq<Record>, r: Record, others: nat, header: nat, optRecords: nat, rcode: nat)
    requires OptsRead(read, others, header, optRecords, rcode)
    ensures |read| < others || r.rtype != TYPE_OPT ==> OptsRead(read + [r], others, header, optRecords, rcode)
    ensures |read| >= others && r.rtype == TYPE_OPT && optRecords == 0 && r.owner == [] ==>
              OptsRead(read + [r], others, header, 1, rcode + r.ttl / 0x100_0000 * 16)
    ensures |read| >= others && r.rtype == TYPE_OPT && (optRecords >= 1 || r.owner != []) ==>
              !OptsAllowed(Opts((read + [r])[others..]))
  {
    if |read| >= others {
      assert (read + [r])[others..] == read[others..] + [r];
      assert (read[others..] + [r])[..|read| - others] == read[others..];
      if |read| == others {
        assert read[others..] == [];
      }
      if r.rtype == TYPE_OPT && (optRecords >= 1 || r.owner != []) {
        BadOpt(read[others..], r);
      }
    }
  }

  /** All records read, and no bad OPT among them. */
  lemma AllRead(m: Message, start: nat, header: nat, labels: Labels, read: seq<Record>, optRecords: nat, rcode: nat)
    requires DNS_HEADER_BYTES <= |m|
    requires RecordsFrom(m, start, U16(m, 6) + U16(m, 8) + U16(m, 10)) == Some(read)
    requires OptsRead(read, U16(m, 6) + U16(m, 8), header, optRecords, rcode)
    ensures U16(m, 6) <= |read| && forall r :: r in read[..U16(m, 6)] ==> r.rdataStart <= r.rdataEnd <= |m|
    ensures SectionsOutcome(m, start, header, labels)
         == if RcodeError(rcode).Some? then Error(RcodeError(rcode).value) else AnswersOutcome(m, read[..U16(m, 6)], labels)
  {
    hide RecordsFrom, AnswersOutcome, RcodeError;
    RecordsInBounds(m, start, U16(m, 6) + U16(m, 8) + U16(m, 10));
    if |read| == U16(m, 6) + U16(m, 8) {
      assert read[U16(m, 6) + U16(m, 8)..] == [];
    }
  }

  /** The first part of `readSections`: the answer records and the RCODE. */
  method ReadRecords(m: Message, start: nat, headerRcode: nat, ghost labels: Labels)
      returns (answers: seq<Record>, rcode: nat, malformed: bool)
    requires DNS_HEADER_BYTES <= |m|
    ensures malformed ==> SectionsOutcome(m, start, headerRcode, labels) == MALFORMED
    ensures !malformed ==>
              && (forall r :: r in answers ==> r.rdataStart <= r.rdataEnd <= |m|)
              && SectionsOutcome(m, start, headerRcode, labels)
                 == if RcodeError(rcode).Some? then Error(RcodeError(rcode).value) else AnswersOutcome(m, answers, labels)
  {
    hide RecordAt, AnswersOutcome, RecordsFrom, SectionsOutcome, OptsRead, OptsAllowed, Opts, RcodeError;
    var answerCount := U16(m, 6);
    var others := answerCount + U16(m, 8);
    var total := others + U16(m, 10);
    var at: nat := start;
    var optRecords: nat := 0;
    ghost var read: seq<Record> := [];
    answers, rcode, malformed := [], headerRcode, false;
    ReadNone(m, start, total, others, headerRcode);
    for i := 0 to total
      invariant |read| == i
      invariant RecordsFrom(m, start, total) == Continued(read, RecordsFrom(m, at, total - i))
      invariant answers == if i < answerCount then read else read[..answerCount]
      invariant OptsRead(read, others, headerRcode, optRecords, rcode)
    {
      ReadOne(m, read, at, total - i);
      var record := ReadRecord(m, at);
      if record.None? {
        NoneRead(m, start, headerRcode, labels);
        return [], 0, true;
      }
      OptsReadOne(read, record.value, others, headerRcode, optRecords, rcode);
      read := read + [record.value];
      at := record.value.rdataEnd;
      if i < answerCount {
        answers := answers + [record.value];
      } else if i >= others && record.value.rtype == TYPE_OPT {
        optRecords := optRecords + 1;
        if optRecords > 1 || record.value.owner != [] {
          BadOptSpoils(m, start, headerRcode, labels, read, RecordsFrom(m, at, total - i - 1));
          return [], 0, true;
        }
        rcode := rcode + record.value.ttl / 0x100_0000 * 16;
      }
    }
    EndRead(m, at, read);
    AllRead(m, start, headerRcode, labels, read, optRecords, rcode);
  }

  lemma ReadNone(m: Message, start: nat, total: nat, others: nat, header: nat)
    ensures RecordsFrom(m, start, total) == Continued([], RecordsFrom(m, start, total))
    ensures OptsRead([], others, header, 0, header)
  {
    hide RecordsFrom;
    var rest := RecordsFrom(m, start, total);
    assert rest.Some? ==> [] + rest.value == rest.value;
  }

  lemma NoneRead(m: Message, start: nat, header: nat, labels: Labels)
    requires DNS_HEADER_BYTES <= |m| && RecordsFrom(m, start, U16(m, 6) + U16(m, 8) + U16(m, 10)).None?
    ensures SectionsOutcome(m, start, header, labels) == MALFORMED
  {
  }

  lemma EndRead(m: Message, at: nat, read: seq<Record>)
    ensures Continued(read, RecordsFrom(m, at, 0)) == Some(read)
  {
    assert read + [] == read;
  }

  lemma BadOpt(before: seq<Record>, r: Record)
    requires r.rtype == TYPE_OPT && (|Opts(before)| >= 1 || r.owner != [])
    ensures !OptsAllowed(Opts(before + [r]))
  {
    assert (before + [r])[..|before|] == before;
    assert r in Opts(before + [r]);
  }

  lemma {:induction false} BadTxtStays(m: Message, answers: seq<Record>, owners: set<Labels>, i: nat)
    requires forall r :: r in answers ==> r.rdataStart <= r.rdataEnd <= |m|
    requires i <= |answers| && TxtRecords(m, answers[..i], owners).None?
    ensures TxtRecords(m, answers, owners).None?
    decreases |answers| - i
  {
    if i == |answers| {
      assert answers[..i] == answers;
    } else {
      assert answers[..i + 1][..i] == answers[..i];
      BadTxtStays(m, answers, owners, i + 1);
    }
  }

  /** `readSections`; `MALFORMED` when it throws. */
  method ReadSections(m: Message, start: nat, headerRcode: nat, labels: Labels) returns (o: Outcome)
    requires DNS_HEADER_BYTES <= |m|
    ensures o == SectionsOutcome(m, start, headerRcode, labels)
  {
    hide SectionsOutcome;
    var answers, rcode, malformed := ReadRecords(m, start, headerRcode, labels);
    if malformed {
      return MALFORMED;
    }
    var rcodeError := RcodeError(rcode);
    if rcodeError.Some? {
      return Error(rcodeError.value);
    }
    var owners := ChainOwners(m, answers, labels);
    if owners.None? {
      return MALFORMED;
    }
    var records: seq<seq<string>> := [];
    for i := 0 to |answers|
      invariant TxtRecords(m, answers[..i], owners.value) == Some(records)
    {
      assert answers[..i + 1][..i] == answers[..i];
      var record := answers[i];
      if record.rtype == TYPE_TXT {
        var strings := TxtStrings(m, record.rdataStart, record.rdataEnd);
        if strings.None? {
          BadTxtStays(m, answers, owners.value, i + 1);
          return MALFORMED;
        }
        if record.rclass == CLASS_IN && record.owner in owners.value {
          records := records + [strings.value];
        }
      }
    }
    assert answers[..|answers|] == answers;
    return if |records| > 0 then Records(records) else Error(ENODATA);
  }

  /** `parseTxtResponse`. */
  method ParseTxtResponse(m: Message, q: TxtQuestion) returns (o: Outcome)
    ensures o == Parse(m, q)
  {
    if |m| < DNS_HEADER_BYTES {
      return Mismatch;
    }
    var flags := U16(m, 2);
    if U16(m, 0) != q.id || !IsResponse(flags) || Opcode(flags) != 0 {
      return Mismatch;
    }
    var questionCount := U16(m, 4);
    if questionCount == 0 && flags % 16 in {1, 2, 4, 5} {
      return Error(RcodeError(flags % 16).value);
    }
    if questionCount != 1 {
      return Mismatch;
    }
    var asked := ReadName(m, DNS_HEADER_BYTES);
    if asked.None? || asked.value.next + 4 > |m| {
      return Mismatch;
    }
    var rtype, qclass := U16(m, asked.value.next), U16(m, asked.value.next + 2);
    if asked.value.labels != q.labels || rtype != TYPE_TXT || qclass != CLASS_IN {
      return Mismatch;
    }
    if IsTruncated(flags) {
      return Truncated;
    }
    o := ReadSections(m, asked.value.next + 4, flags % 16, q.labels);
  }
}
