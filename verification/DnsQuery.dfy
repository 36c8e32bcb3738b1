/** The wire form of a TXT query (src/utils/dns-wire.ts:125-156). */
module DnsQuery {
  import opened DnsBytes
  import opened DnsName

  /** The query a response must answer. */
  datatype TxtQuestion = TxtQuestion(id: int, labels: Labels)

  /** QR 0, opcode 0, RD 1; one question; an OPT record with EDNS. */
  function QueryHeader(id: int, edns: bool): (h: Message)
    ensures |h| == DNS_HEADER_BYTES
  {
    U16Bytes(id) + U16Bytes(0x0100) + U16Bytes(1) + U16Bytes(0) + U16Bytes(0) + U16Bytes(if edns then 1 else 0)
  }

  /** Root owner, type 41, the UDP payload size as its class, TTL 0, no RDATA. */
  function OptRecord(): (r: Message)
    ensures |r| == 11
  {
    [0] + U16Bytes(TYPE_OPT) + U16Bytes(EDNS_UDP_PAYLOAD) + [0, 0, 0, 0, 0, 0]
  }

  function EncodedQuestion(labels: Labels): Message {
    EncodedName(labels) + U16Bytes(TYPE_TXT) + U16Bytes(CLASS_IN)
  }

  function EncodedQuery(q: TxtQuestion, edns: bool): Message {
    QueryHeader(q.id, edns) + EncodedQuestion(q.labels) + (if edns then OptRecord() else [])
  }

  /** `setUint16`. */
  method SetU16(bytes: array<byte>, at: nat, v: int)
    requires at + 2 <= bytes.Length
    modifies bytes
    ensures bytes[at] == U16Bytes(v)[0] && bytes[at + 1] == U16Bytes(v)[1]
    ensures forall j :: 0 <= j < bytes.Length && j != at && j != at + 1 ==> bytes[j] == old(bytes[j])
  {
    bytes[at], bytes[at + 1] := (v / 256) % 256, v % 256;
  }

  lemma {:induction false} PrefixLength(labels: Labels, k: nat)
    requires k <= |labels|
    ensures |EncodedLabels(labels[..k])| <= |EncodedLabels(labels)|
    ensures k < |labels| ==> EncodedLabels(labels[..k + 1]) == EncodedLabels(labels[..k]) + [|labels[k]| % 256] + CharBytes(labels[k])
    ensures k < |labels| ==> |EncodedLabels(labels[..k])| + 1 + |labels[k]| <= |EncodedLabels(labels)|
  {
    if k == 0 {
      if labels != [] {
        assert labels[..1] == [labels[0]];
        assert EncodedLabels([labels[0]]) == [|labels[0]| % 256] + CharBytes(labels[0]) + EncodedLabels([]);
      }
    } else {
      PrefixLength(labels[1..], k - 1);
      assert labels[..k][1..] == labels[1..][..k - 1];
      if k < |labels| {
        assert labels[..k + 1][1..] == labels[1..][..k];
      }
    }
  }

  /** The fixed header of a zeroed buffer. */
  method PutHeader(bytes: array<byte>, id: int, edns: bool)
    requires bytes.Length >= DNS_HEADER_BYTES && forall j :: 0 <= j < bytes.Length ==> bytes[j] == 0
    modifies bytes
    ensures bytes[..DNS_HEADER_BYTES] == QueryHeader(id, edns)
    ensures forall j :: DNS_HEADER_BYTES <= j < bytes.Length ==> bytes[j] == 0
  {
    SetU16(bytes, 0, id);
    SetU16(bytes, 2, 0x0100);
    SetU16(bytes, 4, 1);
    SetU16(bytes, 10, if edns then 1 else 0);
  }

  /** One label: its length, then its characters. */
  method PutLabel(bytes: array<byte>, start: nat, text: string) returns (at: nat)
    requires start + 1 + |text| <= bytes.Length
    modifies bytes
    ensures at == start + 1 + |text|
    ensures bytes[..at] == old(bytes[..start]) + [|text| % 256] + CharBytes(text)
    ensures forall j :: at <= j < bytes.Length ==> bytes[j] == old(bytes[j])
  {
    at := start;
    bytes[at] := |text| % 256;
    at := at + 1;
    for i := 0 to |text|
      invariant at == start + 1 + i
      invariant bytes[start] == |text| % 256
      invariant forall j :: start < j < at ==> bytes[j] == CharBytes(text)[j - start - 1]
      invariant forall j :: 0 <= j < start || at <= j < bytes.Length ==> bytes[j] == old(bytes[j])
    {
      bytes[at] := text[i] as int % 256;
      at := at + 1;
    }
  }

  method PutName(bytes: array<byte>, start: nat, labels: Labels) returns (at: nat)
    requires start + |EncodedName(labels)| <= bytes.Length
    modifies bytes
    ensures at == start + |EncodedName(labels)|
    ensures bytes[..at] == old(bytes[..start]) + EncodedName(labels)
    ensures forall j :: at <= j < bytes.Length ==> bytes[j] == old(bytes[j])
  {
    at := start;
    for k := 0 to |labels|
      invariant at == start + |EncodedLabels(labels[..k])| <= start + |EncodedLabels(labels)|
      invariant bytes[..at] == old(bytes[..start]) + EncodedLabels(labels[..k])
      invariant forall j :: at <= j < bytes.Length ==> bytes[j] == old(bytes[j])
    {
      PrefixLength(labels, k);
      PrefixLength(labels, k + 1);
      at := PutLabel(bytes, at, labels[k]);
    }
    assert labels[..|labels|] == labels;
    bytes[at] := 0;
    at := at + 1;
  }

  /** QTYPE and QCLASS, then the OPT record, over zeroes. */
  method PutTail(bytes: array<byte>, start: nat, edns: bool)
    requires start + 4 + (if edns then 11 else 0) == bytes.Length
    requires forall j :: start <= j < bytes.Length ==> bytes[j] == 0
    modifies bytes
    ensures bytes[..] == old(bytes[..start]) + U16Bytes(TYPE_TXT) + U16Bytes(CLASS_IN) + (if edns then OptRecord() else [])
  {
    var at := start;
    SetU16(bytes, at, TYPE_TXT);
    SetU16(bytes, at + 2, CLASS_IN);
    at := at + 4;
    if edns {
      bytes[at] := 0;
      at := at + 1;
      SetU16(bytes, at, TYPE_OPT);
      SetU16(bytes, at + 2, EDNS_UDP_PAYLOAD);
    }
  }

  /** Every write lands inside the buffer, and the buffer holds the query when done. */
  method EncodeQuery(q: TxtQuestion, edns: bool) returns (bytes: array<byte>)
    ensures fresh(bytes) && bytes[..] == EncodedQuery(q, edns)
  {
    EncodedLength(q.labels);
    var nameBytes := WireLength(q.labels);
    bytes := new byte[DNS_HEADER_BYTES + nameBytes + 4 + (if edns then 11 else 0)](_ => 0);
    PutHeader(bytes, q.id, edns);
    var at := PutName(bytes, DNS_HEADER_BYTES, q.labels);
    PutTail(bytes, at, edns);
  }
}
