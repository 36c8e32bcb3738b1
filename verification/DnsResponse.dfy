/** The strict parse of a TXT response (src/utils/dns-wire.ts:209-417). A thrown `MalformedResponse` is
    `None` here, and `EBADRESP` in the outcome. */
module DnsResponse {
  import opened Wrappers
  import opened DnsBytes
  import opened DnsName
  import opened DnsQuery

  datatype DnsTxtErrorCode = ENOTFOUND | ENODATA | ESERVFAIL | EREFUSED | ENOTIMP | EFORMERR | EBADRESP

  datatype Outcome = Mismatch | Truncated | Records(records: seq<seq<string>>) | Error(code: DnsTxtErrorCode)

  datatype Record = Record(owner: Labels, rtype: nat, rclass: nat, ttl: nat, rdataStart: nat, rdataEnd: nat)

  const MALFORMED := Error(EBADRESP)

  // ---------- Records ----------

  function RecordAt(m: Message, start: nat): (r: Option<Record>)
    ensures r.Some? ==> start < r.value.rdataStart <= r.value.rdataEnd <= |m|
  {
    var name := NameAt(m, start);
    if name.None? || name.value.next + 10 > |m| then None
    else
      var next := name.value.next;
      var end := next + 10 + U16(m, next + 8);
      if end > |m| then None
      else Some(Record(name.value.labels, U16(m, next), U16(m, next + 2), U32(m, next + 4), next + 10, end))
  }

  /** `readRecord`. */
  method ReadRecord(m: Message, start: nat) returns (r: Option<Record>)
    ensures r == RecordAt(m, start)
  {
    var name := ReadName(m, start);
    if name.None? || name.value.next + 10 > |m| {
      return None;
    }
    var next := name.value.next;
    var rdataStart := next + 10;
    var rdataEnd := rdataStart + U16(m, next + 8);
    if rdataEnd > |m| {
      return None;
    }
    return Some(Record(name.value.labels, U16(m, next), U16(m, next + 2), U32(m, next + 4), rdataStart, rdataEnd));
  }

  /** The character-strings from `at`, filling up to `end` exactly. */
  function StringsAt(m: Message, at: nat, end: nat): Option<seq<string>>
    requires at <= end <= |m|
    decreases end - at
  {
    if at == end then Some([])
    else
      var length: int := m[at];
      if at + 1 + length > end then None
      else
        var rest := StringsAt(m, at + 1 + length, end);
        if rest.None? then None else Some([Latin1(m[at + 1..at + 1 + length])] + rest.value)
  }

  /** At least one string. */
  function TxtAt(m: Message, start: nat, end: nat): Option<seq<string>>
    requires start <= end <= |m|
  {
    var strings := StringsAt(m, start, end);
    if strings == Some([]) then None else strings
  }

  /** `txtStrings`. */
  method TxtStrings(m: Message, start: nat, end: nat) returns (r: Option<seq<string>>)
    requires start <= end <= |m|
    ensures r == TxtAt(m, start, end)
  {
    var strings: seq<string> := [];
    var at := start;
    ghost var whole := StringsAt(m, start, end);
    assert whole.Some? ==> [] + whole.value == whole.value;
    while at < end
      invariant start <= at <= end
      invariant var rest := StringsAt(m, at, end);
                whole == if rest.None? then None else Some(strings + rest.value)
    {
      var length: int := m[at];
      var next := at + 1 + length;
      if next > end {
        return None;
      }
      var text := Latin1(m[at + 1..next]);
      ghost var rest := StringsAt(m, next, end);
      assert rest.Some? ==> strings + ([text] + rest.value) == strings + [text] + rest.value;
      strings := strings + [text];
      at := next;
    }
    assert strings + [] == strings;
    return if strings == [] then None else Some(strings);
  }

  // ---------- Sections ----------

  /** `count` records, each after the one before. */
  function RecordsFrom(m: Message, start: nat, count: nat): Option<seq<Record>>
    decreases count
  {
    if count == 0 then Some([])
    else
      var r := RecordAt(m, start);
      if r.None? then None
      else
        var rest := RecordsFrom(m, r.value.rdataEnd, count - 1);
        if rest.None? then None else Some([r.value] + rest.value)
  }

  function Opts(records: seq<Record>): seq<Record> {
    if records == [] then []
    else Opts(records[..|records| - 1]) + (if records[|records| - 1].rtype == TYPE_OPT then [records[|records| - 1]] else [])
  }

  /** At most one OPT record, owned by the root (RFC 6891 section 6.1.1). */
  predicate OptsAllowed(opts: seq<Record>) {
    |opts| <= 1 && forall o :: o in opts ==> o.owner == []
  }

  /** The header's RCODE with the upper bits an OPT record carries. */
  function FullRcode(header: nat, opts: seq<Record>): nat {
    if |opts| == 1 then header + opts[0].ttl / 0x100_0000 * 16 else header
  }

  function RcodeError(rcode: nat): Option<DnsTxtErrorCode> {
    match rcode
    case 0 => None
    case 1 => Some(EFORMERR)
    case 2 => Some(ESERVFAIL)
    case 3 => Some(ENOTFOUND)
    case 4 => Some(ENOTIMP)
    case 5 => Some(EREFUSED)
    case _ => Some(EBADRESP)
  }

  // ---------- The CNAME chain ----------

  predicate IsCname(r: Record): (b: bool)
    ensures b <==> r.rtype == 5 && r.rclass == 1
  {
    r.rtype == TYPE_CNAME && r.rclass == CLASS_IN
  }

  /** The target of a CNAME record, if its RDATA is one name. */
  function CnameTarget(m: Message, r: Record): Option<Labels> {
    var target := NameAt(m, r.rdataStart);
    if target.None? || target.value.next != r.rdataEnd then None else Some(target.value.labels)
  }

  function Targets(m: Message, answers: seq<Record>): Option<map<Labels, Labels>> {
    if answers == [] then Some(map[])
    else
      var known := Targets(m, answers[..|answers| - 1]);
      var r := answers[|answers| - 1];
      if known.None? || !IsCname(r) then known
      else
        var target := CnameTarget(m, r);
        if target.None? || (r.owner in known.value && known.value[r.owner] != target.value) then None
        else Some(known.value[r.owner := target.value])
  }

  /** The owners met from `current` on, after `links` links. */
  function Owners(targets: map<Labels, Labels>, current: Labels, owners: set<Labels>, links: nat): Option<set<Labels>>
    requires links <= MAX_CNAME_LINKS
    decreases MAX_CNAME_LINKS - links
  {
    if current !in targets then Some(owners)
    else if links >= MAX_CNAME_LINKS then None
    else if targets[current] in owners then Some(owners)
    else Owners(targets, targets[current], owners + {targets[current]}, links + 1)
  }

  function ChainOwnersOf(m: Message, answers: seq<Record>, asked: Labels): Option<set<Labels>> {
    var targets := Targets(m, answers);
    if targets.None? then None else Owners(targets.value, asked, {asked}, 0)
  }

  /** `chainOwners`. */
  method ChainOwners(m: Message, answers: seq<Record>, asked: Labels) returns (r: Option<set<Labels>>)
    ensures r == ChainOwnersOf(m, answers, asked)
  {
    var targets: map<Labels, Labels> := map[];
    for i := 0 to |answers|
      invariant Targets(m, answers[..i]) == Some(targets)
    {
      assert answers[..i + 1][..i] == answers[..i];
      var record := answers[i];
      if IsCname(record) {
        var target := ReadName(m, record.rdataStart);
        if target.None? || target.value.next != record.rdataEnd
           || (record.owner in targets && targets[record.owner] != target.value.labels) {
          MalformedStays(m, answers, i + 1);
          return None;
        }
        targets := targets[record.owner := target.value.labels];
      }
    }
    assert answers[..|answers|] == answers;
    var current := asked;
    var owners := {current};
    var links := 0;
    while true
      invariant links <= MAX_CNAME_LINKS
      invariant Owners(targets, current, owners, links) == Owners(targets, asked, {asked}, 0)
      decreases MAX_CNAME_LINKS - links
    {
      if current !in targets {
        return Some(owners);
      }
      if links >= MAX_CNAME_LINKS {
        return None;
      }
      current := targets[current];
      if current in owners {
        return Some(owners);
      }
      owners := owners + {current};
      links := links + 1;
    }
  }

  lemma {:induction false} MalformedStays(m: Message, answers: seq<Record>, i: nat)
    requires i <= |answers| && Targets(m, answers[..i]).None?
    ensures Targets(m, answers).None?
    decreases |answers| - i
  {
    if i == |answers| {
      assert answers[..i] == answers;
    } else {
      assert answers[..i + 1][..i] == answers[..i];
      MalformedStays(m, answers, i + 1);
    }
  }

  // ---------- Answers ----------

  /** The strings of every TXT answer of class IN owned by one of `owners`, in order; no TXT answer, ours or
      not, may be malformed. */
  function TxtRecords(m: Message, answers: seq<Record>, owners: set<Labels>): Option<seq<seq<string>>>
    requires forall r :: r in answers ==> r.rdataStart <= r.rdataEnd <= |m|
  {
    if answers == [] then Some([])
    else
      var before := TxtRecords(m, answers[..|answers| - 1], owners);
      var r := answers[|answers| - 1];
      if before.None? || r.rtype != TYPE_TXT then before
      else
        var strings := TxtAt(m, r.rdataStart, r.rdataEnd);
        if strings.None? then None
        else if r.rclass == CLASS_IN && r.owner in owners then Some(before.value + [strings.value])
        else before
  }

  lemma {:induction false} RecordsInBounds(m: Message, start: nat, count: nat)
    requires RecordsFrom(m, start, count).Some?
    ensures |RecordsFrom(m, start, count).value| == count
    ensures forall r :: r in RecordsFrom(m, start, count).value ==> r.rdataStart <= r.rdataEnd <= |m|
    decreases count
  {
    if count > 0 {
      RecordsInBounds(m, RecordAt(m, start).value.rdataEnd, count - 1);
    }
  }

  /** What follows the question: answer, authority and additional records. */
  function SectionsOutcome(m: Message, start: nat, headerRcode: nat, labels: Labels): Outcome
    requires DNS_HEADER_BYTES <= |m|
  {
    var answerCount, others := U16(m, 6), U16(m, 6) + U16(m, 8);
    var total := others + U16(m, 10);
    var records := RecordsFrom(m, start, total);
    if records.None? then MALFORMED
    else
      RecordsInBounds(m, start, total);
      var opts := Opts(records.value[others..]);
      if !OptsAllowed(opts) then MALFORMED
      else
        var failure := RcodeError(FullRcode(headerRcode, opts));
        if failure.Some? then Error(failure.value)
        else AnswersOutcome(m, records.value[..answerCount], labels)
  }

  function AnswersOutcome(m: Message, answers: seq<Record>, labels: Labels): Outcome
    requires forall r :: r in answers ==> r.rdataStart <= r.rdataEnd <= |m|
  {
    var owners := ChainOwnersOf(m, answers, labels);
    if owners.None? then MALFORMED
    else
      var records := TxtRecords(m, answers, owners.value);
      if records.None? then MALFORMED
      else if records.value == [] then Error(ENODATA)
      else Records(records.value)
  }

  // ---------- The whole response ----------

  function IsResponse(flags: nat): bool {
    flags / 0x8000 % 2 == 1
  }

  function Opcode(flags: nat): nat {
    flags / 0x800 % 16
  }

  function IsTruncated(flags: nat): bool {
    flags / 0x200 % 2 == 1
  }

  /** Whether the question at byte 12 is ours; where it ends. */
  function OurQuestion(m: Message, labels: Labels): Option<nat> {
    var asked := NameAt(m, DNS_HEADER_BYTES);
    if asked.None? || asked.value.next + 4 > |m| then None
    else if asked.value.labels != labels || U16(m, asked.value.next) != TYPE_TXT || U16(m, asked.value.next + 2) != CLASS_IN then None
    else Some(asked.value.next + 4)
  }

  function Parse(m: Message, q: TxtQuestion): Outcome {
    if |m| < DNS_HEADER_BYTES then Mismatch
    else
      var flags := U16(m, 2);
      var rcode := flags % 16;
      if U16(m, 0) != q.id || !IsResponse(flags) || Opcode(flags) != 0 then Mismatch
      else if U16(m, 4) == 0 && rcode in {1, 2, 4, 5} then Error(RcodeError(rcode).value)
      else if U16(m, 4) != 1 then Mismatch
      else
        var start := OurQuestion(m, q.labels);
        if start.None? then Mismatch
        else if IsTruncated(flags) then Truncated
        else SectionsOutcome(m, start.value, rcode, q.labels)
  }
}
