/** Bytes and names of DNS messages (src/utils/dns-wire.ts:53-129). Bit masks and shifts on bytes and
    16-bit words are written as arithmetic. */
module DnsBytes {
  import opened Wrappers
  import opened AsciiText

  type byte = b: int | 0 <= b < 256

  type Message = seq<byte>

  type Labels = seq<string>

  const DNS_HEADER_BYTES := 12
  const TYPE_CNAME := 5
  const TYPE_TXT := 16
  const TYPE_OPT := 41
  const CLASS_IN := 1
  const EDNS_UDP_PAYLOAD := 1232
  const MAX_NAME_WIRE_BYTES := 255
  const MAX_NAME_TEXT_LENGTH := 253
  const MAX_LABEL_LENGTH := 63
  const MAX_POINTER_JUMPS := 32
  const MAX_CNAME_LINKS := 16

  /** A word as two bytes, the higher first (`setUint16`: the value modulo 2^16). */
  function U16Bytes(v: int): (bytes: Message) {
    [(v / 256) % 256, v % 256]
  }

  /** `getUint16`. */
  function U16(m: Message, at: nat): (v: nat)
    requires at + 2 <= |m|
    ensures v < 0x1_0000
  {
    var high: int := m[at];
    high * 256 + m[at + 1]
  }

  /** `getUint32`. */
  function U32(m: Message, at: nat): nat
    requires at + 4 <= |m|
  {
    U16(m, at) * 0x1_0000 + U16(m, at + 2)
  }

  // ---------- Text ----------

  function Latin1(bytes: Message): (s: string)
    ensures |s| == |bytes|
    ensures forall i :: 0 <= i < |s| ==> s[i] == bytes[i] as char
  {
    seq(|bytes|, i requires 0 <= i < |bytes| => bytes[i] as char)
  }

  /** One character per byte (`charCodeAt` into a byte array: the code modulo 256). */
  function CharBytes(s: string): (bytes: Message)
    ensures |bytes| == |s|
    ensures forall i :: 0 <= i < |s| ==> bytes[i] == s[i] as int % 256
  {
    seq(|s|, i requires 0 <= i < |s| => s[i] as int % 256)
  }

  predicate IsLatin1(s: string) {
    forall i :: 0 <= i < |s| ==> (s[i] as int) < 256
  }

  lemma Latin1RoundTrip(s: string)
    requires IsLatin1(s)
    ensures Latin1(CharBytes(s)) == s
  {
  }

  // ---------- Host names ----------

  /** Characters a label may hold: printable ASCII but the backslash. */
  predicate LabelChar(c: char) {
    var code := c as int;
    0x21 <= code <= 0x7e && code != 0x5c
  }

  predicate ValidLabel(part: string) {
    1 <= |part| <= MAX_LABEL_LENGTH && forall i :: 0 <= i < |part| ==> LabelChar(part[i])
  }

  /** The text without its one trailing dot. */
  function WithoutTrailingDot(hostname: string): string {
    if |hostname| > 0 && hostname[|hostname| - 1] == '.' then hostname[..|hostname| - 1] else hostname
  }

  predicate ValidHost(name: string) {
    && 1 <= |name| <= MAX_NAME_TEXT_LENGTH
    && forall p :: p in Split(name, '.') ==> ValidLabel(p)
  }

  function LabelsOf(hostname: string): Option<Labels> {
    var name := WithoutTrailingDot(hostname);
    if ValidHost(name) then Some(LowerAll(Split(name, '.'))) else None
  }

  /** `nameLabels`. */
  method NameLabels(hostname: string) returns (r: Option<Labels>)
    ensures r == LabelsOf(hostname)
  {
    var name := WithoutTrailingDot(hostname);
    if name == "" || |name| > MAX_NAME_TEXT_LENGTH {
      return None;
    }
    var labels := Split(name, '.');
    for k := 0 to |labels|
      invariant forall j :: 0 <= j < k ==> ValidLabel(labels[j])
    {
      var part := labels[k];
      if |part| == 0 || |part| > MAX_LABEL_LENGTH {
        assert !ValidLabel(labels[k]) && labels[k] in labels;
        return None;
      }
      for i := 0 to |part|
        invariant forall j :: 0 <= j < i ==> LabelChar(part[j])
      {
        if !LabelChar(part[i]) {
          assert !ValidLabel(labels[k]) && labels[k] in labels;
          return None;
        }
      }
    }
    return Some(LowerAll(labels));
  }

  /** Bytes of a name on the wire: a length byte per label, and the root's. */
  function WireLength(labels: Labels): nat {
    if labels == [] then 1 else |labels[0]| + 1 + WireLength(labels[1..])
  }

  /** A label as a query may carry it and a reader returns it. */
  predicate PlainLabel(part: string) {
    1 <= |part| <= MAX_LABEL_LENGTH && IsLatin1(part) && AsciiLower(part) == part
  }

  predicate Encodable(labels: Labels) {
    (forall l :: l in labels ==> PlainLabel(l)) && WireLength(labels) <= MAX_NAME_WIRE_BYTES
  }

  lemma {:induction false} JoinedWireLength(parts: seq<string>)
    requires |parts| >= 1
    ensures WireLength(parts) == |Glue(parts, '.')| + 2
  {
    if |parts| > 1 {
      JoinedWireLength(parts[1..]);
    } else {
      assert WireLength(parts[1..]) == 1;
    }
  }

  lemma {:induction false} LoweredWireLength(labels: Labels)
    ensures WireLength(LowerAll(labels)) == WireLength(labels)
  {
    if labels != [] {
      LoweredWireLength(labels[1..]);
      assert LowerAll(labels)[1..] == LowerAll(labels[1..]);
    }
  }

  /** Every accepted host name can be asked: at most 253 characters give at most 255 bytes, and its
      labels are the parts of the text between dots, lowercased. */
  lemma AcceptedNamesEncodable(hostname: string)
    requires LabelsOf(hostname).Some?
    ensures Encodable(LabelsOf(hostname).value)
    ensures WireLength(LabelsOf(hostname).value) == |WithoutTrailingDot(hostname)| + 2
    ensures Glue(LabelsOf(hostname).value, '.') == AsciiLower(WithoutTrailingDot(hostname))
  {
    hide PlainLabel, ValidLabel, Split, Glue, WireLength;
    var name := WithoutTrailingDot(hostname);
    var parts := Split(name, '.');
    SplitGlue(name, '.');
    JoinedWireLength(parts);
    LoweredWireLength(parts);
    LoweredJoin(parts);
    forall l | l in LowerAll(parts)
      ensures PlainLabel(l)
    {
      var i :| 0 <= i < |parts| && LowerAll(parts)[i] == l;
      assert parts[i] in parts;
      LoweredIsPlain(parts[i]);
    }
  }

  lemma LoweredIsPlain(part: string)
    requires ValidLabel(part)
    ensures PlainLabel(AsciiLower(part))
  {
    forall i | 0 <= i < |part|
      ensures (LowerChar(part[i]) as int) < 256 && LowerChar(LowerChar(part[i])) == LowerChar(part[i])
    {
      assert LabelChar(part[i]);
    }
  }

  lemma {:induction false} LoweredJoin(parts: seq<string>)
    requires |parts| >= 1
    ensures Glue(LowerAll(parts), '.') == AsciiLower(Glue(parts, '.'))
  {
    if |parts| > 1 {
      LoweredJoin(parts[1..]);
      assert LowerAll(parts)[1..] == LowerAll(parts[1..]);
    }
  }
}
