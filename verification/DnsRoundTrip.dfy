/** A query is well formed: it is read back by the reader, and sent back as a response it is an empty
    answer to itself and to nothing else (src/utils/dns-wire.ts:94-156, 264-309). */
module DnsRoundTrip {
  import opened Wrappers
  import opened DnsBytes
  import opened DnsName
  import opened DnsQuery
  import opened DnsResponse

  /** The query with the QR bit set. */
  function Echo(q: TxtQuestion, edns: bool): Message {
    EncodedQuery(q, edns)[2 := 0x81]
  }

  lemma QueryLayout(q: TxtQuestion, edns: bool)
    requires Encodable(q.labels)
    ensures var m := Echo(q, edns);
            var end := DNS_HEADER_BYTES + WireLength(q.labels);
            && |m| == end + 4 + (if edns then 11 else 0) <= 282
            && U16(m, 0) == q.id % 0x1_0000 && U16(m, 2) == 0x8100 && U16(m, 4) == 1
            && U16(m, 6) == 0 && U16(m, 8) == 0 && U16(m, 10) == (if edns then 1 else 0)
            && LiesAt(m, DNS_HEADER_BYTES, EncodedName(q.labels))
            && U16(m, end) == TYPE_TXT && U16(m, end + 2) == CLASS_IN
            && (edns ==> LiesAt(m, end + 4, OptRecord()))
  {
    EncodedLength(q.labels);
    hide WireLength, EncodedName, Encodable;
    var m := Echo(q, edns);
    var name := EncodedName(q.labels);
    var end := DNS_HEADER_BYTES + |name|;
    HeaderFirst(q, edns);
    assert m[DNS_HEADER_BYTES..end] == name;
    assert m[end..end + 4] == U16Bytes(TYPE_TXT) + U16Bytes(CLASS_IN);
    assert m[end] == 0 && m[end + 1] == TYPE_TXT && m[end + 2] == 0 && m[end + 3] == CLASS_IN;
    if edns {
      assert m[end + 4..end + 15] == OptRecord();
    }
    Encoded(q.labels);
  }

  lemma Encoded(labels: Labels)
    requires Encodable(labels)
    ensures WireLength(labels) <= MAX_NAME_WIRE_BYTES
  {
  }

  lemma HeaderFirst(q: TxtQuestion, edns: bool)
    ensures var m := Echo(q, edns);
            && |m| >= DNS_HEADER_BYTES
            && U16(m, 0) == q.id % 0x1_0000 && U16(m, 2) == 0x8100 && U16(m, 4) == 1
            && U16(m, 6) == 0 && U16(m, 8) == 0 && U16(m, 10) == (if edns then 1 else 0)
  {
    hide EncodedName, OptRecord;
    var h := QueryHeader(q.id, edns);
    var m := Echo(q, edns);
    assert forall i :: 0 <= i < DNS_HEADER_BYTES && i != 2 ==> m[i] == h[i];
    assert h[0] == (q.id / 256) % 256 && h[1] == q.id % 256;
  }

  /** The OPT record of a query reads back as one. */
  lemma OptReads(m: Message, at: nat)
    requires LiesAt(m, at, OptRecord())
    ensures RecordAt(m, at) == Some(Record([], TYPE_OPT, EDNS_UDP_PAYLOAD, 0, at + 11, at + 11))
  {
    var bytes := m[at..at + 11];
    assert bytes == OptRecord();
    assert forall i :: 0 <= i < 11 ==> m[at + i] == bytes[i];
    assert EncodedName([]) == [0];
    assert m[at] == 0 && m[at..at + 1] == [0];
    WrittenNameReads(m, at, [], 0, 0);
    assert U16(m, at + 1) == TYPE_OPT && U16(m, at + 3) == EDNS_UDP_PAYLOAD && U32(m, at + 5) == 0 && U16(m, at + 9) == 0;
  }

  lemma EmptyAnswer(m: Message, at: nat, labels: Labels, edns: bool)
    requires |m| >= DNS_HEADER_BYTES && at <= |m|
    requires U16(m, 6) == 0 && U16(m, 8) == 0 && U16(m, 10) == (if edns then 1 else 0)
    requires edns ==> LiesAt(m, at, OptRecord())
    ensures SectionsOutcome(m, at, 0, labels) == Error(ENODATA)
  {
    hide NameAt, RecordAt;
    assert AnswersOutcome(m, [], labels) == Error(ENODATA) by {
      assert Targets(m, []) == Some(map[]);
    }
    if edns {
      OptReads(m, at);
      var opt := RecordAt(m, at).value;
      assert RecordsFrom(m, at + 11, 0) == Some([]);
      assert [opt] + [] == [opt];
      assert RecordsFrom(m, at, 1) == Some([opt]);
      assert [opt][..0] == [] && [opt][0..] == [opt];
      assert Opts([opt]) == [opt] by {
        assert Opts([]) == [];
        assert [opt][..0] == [];
      }
    } else {
      assert RecordsFrom(m, at, 0) == Some([]);
      assert Opts([]) == [];
    }
  }

  /** Every host name accepted can be asked, and the question written is read back by name, at byte 12. */
  lemma QuestionReadsBack(hostname: string, id: int, edns: bool)
    requires LabelsOf(hostname).Some?
    ensures var labels := LabelsOf(hostname).value;
            var m := EncodedQuery(TxtQuestion(id, labels), edns);
            && |m| <= 282
            && NameAt(m, DNS_HEADER_BYTES) == Some(Name(labels, DNS_HEADER_BYTES + |WithoutTrailingDot(hostname)| + 2))
  {
    AcceptedNamesEncodable(hostname);
    var q := TxtQuestion(id, LabelsOf(hostname).value);
    QueryLayout(q, edns);
    hide LabelsOf;
    var m := EncodedQuery(q, edns);
    var name := EncodedName(q.labels);
    assert m[DNS_HEADER_BYTES..DNS_HEADER_BYTES + |name|] == Echo(q, edns)[DNS_HEADER_BYTES..DNS_HEADER_BYTES + |name|];
    WrittenNameReads(m, DNS_HEADER_BYTES, q.labels, 0, 0);
  }

  /** Sent back with QR set, the query for any host name is the answer ENODATA to that question, and a
      mismatch for every other ID and every other name. */
  lemma {:induction false} EchoAnswersItself(hostname: string, id: int, edns: bool, asked: TxtQuestion)
    requires LabelsOf(hostname).Some?
    ensures var labels := LabelsOf(hostname).value;
            Parse(Echo(TxtQuestion(id, labels), edns), asked)
            == if asked.id == id % 0x1_0000 && asked.labels == labels then Error(ENODATA) else Mismatch
  {
    AcceptedNamesEncodable(hostname);
    hide LabelsOf;
    EchoParses(TxtQuestion(id, LabelsOf(hostname).value), edns, asked);
  }

  lemma EchoParses(q: TxtQuestion, edns: bool, asked: TxtQuestion)
    requires Encodable(q.labels)
    ensures Parse(Echo(q, edns), asked)
         == if asked.id == q.id % 0x1_0000 && asked.labels == q.labels then Error(ENODATA) else Mismatch
  {
    hide Echo, LiesAt, SectionsOutcome, WireLength, EncodedName, NameAt;
    QueryLayout(q, edns);
    var m := Echo(q, edns);
    QuestionAt(m, q.labels);
    EmptyAnswer(m, DNS_HEADER_BYTES + WireLength(q.labels) + 4, q.labels, edns);
  }

  lemma {:induction false} QuestionAt(m: Message, labels: Labels)
    requires Encodable(labels) && LiesAt(m, DNS_HEADER_BYTES, EncodedName(labels))
    ensures NameAt(m, DNS_HEADER_BYTES) == Some(Name(labels, DNS_HEADER_BYTES + WireLength(labels)))
  {
    WrittenNameReads(m, DNS_HEADER_BYTES, labels, 0, 0);
  }

  /** The query, byte by byte: the ID, RD alone of the flags, one question of type 16 (TXT) and class 1 (IN), and
      with EDNS one root record of type 41 (OPT) that offers 1232 bytes. */
  lemma QueryBytes(q: TxtQuestion, edns: bool)
    requires 0 <= q.id < 0x1_0000
    ensures EncodedQuery(q, edns)
         == [q.id / 256, q.id % 256, 1, 0, 0, 1, 0, 0, 0, 0, 0, if edns then 1 else 0]
            + EncodedName(q.labels) + [0, 16, 0, 1]
            + (if edns then [0, 0, 41, 4, 208, 0, 0, 0, 0, 0, 0] else [])
  {
    hide EncodedName;
    assert U16Bytes(EDNS_UDP_PAYLOAD) == [4, 208];
  }
}
