/** A whole response whose answer is a ring of CNAMEs (src/utils/dns-wire.ts:358-392): with 16 names it is
    followed round, with 17 it is malformed. */
module DnsRing {
  import opened Wrappers
  import opened AsciiText
  import opened DnsBytes
  import opened DnsName
  import opened DnsQuery
  import opened DnsResponse
  import opened DnsExact
  import opened DnsLimits

  const LETTERS := 26
  const RECORD_BYTES := 16
  /** The header and the question for the first name. */
  const ANSWERS_START := 19

  function LetterByte(i: nat): (b: byte)
    requires i < LETTERS
  {
    'a' as int + i
  }

  function NameOf(i: nat): Labels
    requires i < LETTERS
  {
    [[LetterByte(i) as char]]
  }

  /** `<letter i> CNAME <next letter>`. */
  function RingRecord(i: nat, size: nat): (r: Message)
    requires i < size <= LETTERS
    ensures |r| == RECORD_BYTES
  {
    [1, LetterByte(i), 0, 0, TYPE_CNAME, 0, CLASS_IN, 0, 0, 0, 0, 0, 3, 1, LetterByte(NextIn(i, size)), 0]
  }

  function RingRecords(i: nat, size: nat): (r: Message)
    requires i <= size <= LETTERS
    ensures |r| == RECORD_BYTES * (size - i)
    decreases size - i
  {
    if i == size then [] else RingRecord(i, size) + RingRecords(i + 1, size)
  }

  /** ID 0, QR and RD set, one question `a TXT IN`, `size` answers. */
  function RingMessage(size: nat): (m: Message)
    requires 1 <= size <= LETTERS
    ensures |m| == ANSWERS_START + RECORD_BYTES * size
  {
    [0, 0, 0x81, 0, 0, 1, 0, size, 0, 0, 0, 0] + [1, LetterByte(0), 0, 0, TYPE_TXT, 0, CLASS_IN] + RingRecords(0, size)
  }

  function StartAt(i: nat): nat {
    ANSWERS_START + RECORD_BYTES * i
  }

  function ReadRecordOf(i: nat): Record
    requires i < LETTERS
  {
    Record(NameOf(i), TYPE_CNAME, CLASS_IN, 0, StartAt(i) + 13, StartAt(i) + RECORD_BYTES)
  }

  lemma CutAt(m: Message, at: nat, first: Message, rest: Message)
    requires at <= |m| && m[at..] == first + rest
    ensures at + |first| <= |m| && m[at..at + |first|] == first && m[at + |first|..] == rest
  {
    assert (first + rest)[..|first|] == first && (first + rest)[|first|..] == rest;
    assert m[at..][..|first|] == m[at..at + |first|] && m[at..][|first|..] == m[at + |first|..];
  }

  lemma {:induction false} RecordsFollow(size: nat, i: nat)
    requires 1 <= size <= LETTERS && i <= size
    ensures RingMessage(size)[StartAt(i)..] == RingRecords(i, size)
  {
    hide RingRecord;
    if i == 0 {
      assert RingMessage(size)[ANSWERS_START..] == RingRecords(0, size);
    } else {
      RecordsFollow(size, i - 1);
      hide RingMessage;
      CutAt(RingMessage(size), StartAt(i - 1), RingRecord(i - 1, size), RingRecords(i, size));
    }
  }

  lemma BytesAt(size: nat, i: nat)
    requires 1 <= size <= LETTERS && i < size
    ensures LiesAt(RingMessage(size), StartAt(i), RingRecord(i, size))
  {
    RecordsFollow(size, i);
    hide RingMessage, RingRecord;
    CutAt(RingMessage(size), StartAt(i), RingRecord(i, size), RingRecords(i + 1, size));
  }

  /** A one-letter name reads back. */
  lemma LetterReads(m: Message, at: nat, i: nat)
    requires i < LETTERS && at + 3 <= |m| && m[at] == 1 && m[at + 1] == LetterByte(i) && m[at + 2] == 0
    ensures NameAt(m, at) == Some(Name(NameOf(i), at + 3))
  {
    assert ElementAt(m, at + 2) == Root;
    assert m[at + 1..at + 2] == [LetterByte(i)];
    assert AsciiLower(Latin1([LetterByte(i)])) == [LetterByte(i) as char];
    assert ElementAt(m, at) == Label([LetterByte(i) as char]);
    assert Walk(m, at + 2, 0, 2) == Some(Name([], at + 3));
    assert NameOf(i)[0] == [LetterByte(i) as char];
    assert [[LetterByte(i) as char]] + [] == NameOf(i);
  }

  lemma RecordReads(size: nat, i: nat)
    requires 1 <= size <= LETTERS && i < size
    ensures RecordAt(RingMessage(size), StartAt(i)) == Some(ReadRecordOf(i))
    ensures CnameTarget(RingMessage(size), ReadRecordOf(i)) == Some(NameOf(NextIn(i, size)))
  {
    hide RingMessage, RecordAt, NameAt, RingRecord, NameOf;
    BytesAt(size, i);
    LetterRecord(RingMessage(size), StartAt(i), i, size);
  }

  lemma LetterRecord(m: Message, at: nat, i: nat, size: nat)
    requires i < size <= LETTERS && LiesAt(m, at, RingRecord(i, size))
    ensures RecordAt(m, at) == Some(Record(NameOf(i), TYPE_CNAME, CLASS_IN, 0, at + 13, at + RECORD_BYTES))
    ensures NameAt(m, at + 13) == Some(Name(NameOf(NextIn(i, size)), at + RECORD_BYTES))
  {
    hide NameAt, LetterByte, NameOf;
    RecordBytes(m, at, i, size);
    LetterReads(m, at, i);
    LetterReads(m, at + 13, NextIn(i, size));
  }

  lemma RecordBytes(m: Message, at: nat, i: nat, size: nat)
    requires i < size <= LETTERS && LiesAt(m, at, RingRecord(i, size))
    ensures at + RECORD_BYTES <= |m|
    ensures m[at] == 1 && m[at + 1] == LetterByte(i) && m[at + 2] == 0
    ensures U16(m, at + 3) == TYPE_CNAME && U16(m, at + 5) == CLASS_IN && U32(m, at + 7) == 0 && U16(m, at + 11) == 3
    ensures m[at + 13] == 1 && m[at + 14] == LetterByte(NextIn(i, size)) && m[at + 15] == 0
  {
    hide LetterByte;
    var r := RingRecord(i, size);
    var bytes := m[at..at + RECORD_BYTES];
    assert bytes == r;
    assert forall k :: 0 <= k < RECORD_BYTES ==> m[at + k] == bytes[k];
    assert m[at + 0] == r[0] && m[at + 1] == r[1] && m[at + 2] == r[2] && m[at + 3] == r[3] && m[at + 4] == r[4];
    assert m[at + 5] == r[5] && m[at + 6] == r[6] && m[at + 7] == r[7] && m[at + 8] == r[8] && m[at + 9] == r[9];
    assert m[at + 10] == r[10] && m[at + 11] == r[11] && m[at + 12] == r[12] && m[at + 13] == r[13];
    assert m[at + 14] == r[14] && m[at + 15] == r[15];
  }

  function Ring(size: nat): (answers: seq<Record>)
    requires size <= LETTERS
    ensures |answers| == size
  {
    seq(size, i requires 0 <= i < size => ReadRecordOf(i))
  }

  function RingNames(size: nat): (names: seq<Labels>)
    requires size <= LETTERS
    ensures |names| == size
  {
    seq(size, i requires 0 <= i < size => NameOf(i))
  }

  lemma RingIsRead(size: nat)
    requires 1 <= size <= LETTERS
    ensures RecordsFrom(RingMessage(size), ANSWERS_START, size) == Some(Ring(size))
  {
    var m := RingMessage(size);
    hide RingMessage, RecordAt;
    forall i | 0 <= i < size
      ensures RecordAt(m, StartOf(ANSWERS_START, Ring(size), i)) == Some(Ring(size)[i])
    {
      RecordReads(size, i);
      assert StartOf(ANSWERS_START, Ring(size), i) == StartAt(i);
    }
    RecordsLieInARow(m, ANSWERS_START, size, Ring(size));
  }

  lemma NamesDiffer(i: nat, j: nat)
    requires i < LETTERS && j < LETTERS && NameOf(i) == NameOf(j)
    ensures i == j
  {
    assert NameOf(i)[0][0] == NameOf(j)[0][0];
  }

  lemma RingTarget(size: nat, i: nat)
    requires 1 <= size <= LETTERS && i < size
    ensures CnameTarget(RingMessage(size), Ring(size)[i]) == Some(NameOf(NextIn(i, size)))
    ensures IsCname(Ring(size)[i]) && Ring(size)[i].owner == NameOf(i)
  {
    hide RingMessage, CnameTarget, NameOf, RecordAt;
    RecordReads(size, i);
  }

  lemma RingLinks(size: nat, i: nat)
    requires 1 <= size <= LETTERS && i < size
    ensures Link(RingMessage(size), Ring(size), NameOf(i), NameOf(NextIn(i, size)))
  {
    hide RingMessage, CnameTarget, NameOf, IsCname;
    RingTarget(size, i);
    assert Ring(size)[i] in Ring(size);
  }

  lemma RingWellFormed(size: nat)
    requires 1 <= size <= LETTERS
    ensures CnamesWellFormed(RingMessage(size), Ring(size))
  {
    var m, answers := RingMessage(size), Ring(size);
    hide RingMessage, CnameTarget, NameOf, IsCname, Ring;
    forall r | r in answers
      ensures CnameTarget(m, r).Some?
    {
      var i :| 0 <= i < size && answers[i] == r;
      RingTarget(size, i);
    }
    forall r, s | r in answers && s in answers && r.owner == s.owner
      ensures CnameTarget(m, r) == CnameTarget(m, s)
    {
      var i :| 0 <= i < size && answers[i] == r;
      var j :| 0 <= j < size && answers[j] == s;
      RingTarget(size, i);
      RingTarget(size, j);
      NamesDiffer(i, j);
    }
  }

  lemma RingIsRing(size: nat)
    requires 1 <= size <= LETTERS
    ensures IsRing(RingMessage(size), Ring(size), RingNames(size))
  {
    var m, answers, names := RingMessage(size), Ring(size), RingNames(size);
    hide RingMessage, Link, NameOf, Ring;
    forall i | 0 <= i < size
      ensures Link(m, answers, names[i], names[NextIn(i, size)])
    {
      RingLinks(size, i);
    }
    forall i, j | 0 <= i < j < size
      ensures names[i] != names[j]
    {
      if names[i] == names[j] {
        NamesDiffer(i, j);
      }
    }
  }

  /** Asked for the first name of a ring of CNAMEs, a resolver's answer has no TXT records if the ring has at
      most 16 names, and is malformed with 17 or more, though the ring closes. */
  lemma RingParses(size: nat)
    requires 1 <= size <= LETTERS
    ensures Parse(RingMessage(size), TxtQuestion(0, NameOf(0)))
         == if size <= 16 then Error(ENODATA) else MALFORMED
  {
    hide RingMessage, NameAt, NameOf, OurQuestion, SectionsOutcome;
    RingHeader(size);
    RingSections(size);
  }

  lemma RingSections(size: nat)
    requires 1 <= size <= LETTERS
    ensures SectionsOutcome(RingMessage(size), ANSWERS_START, 0, NameOf(0))
         == if size <= MAX_CNAME_LINKS then Error(ENODATA) else MALFORMED
  {
    hide RingMessage, RecordsFrom, NameOf, Ring, AnswersOutcome;
    RingHeader(size);
    RingIsRead(size);
    RecordsInBounds(RingMessage(size), ANSWERS_START, size);
    RingAnswers(size);
    assert Ring(size)[size..] == [] && Ring(size)[..size] == Ring(size);
    assert Opts([]) == [];
  }

  lemma RingAnswers(size: nat)
    requires 1 <= size <= LETTERS
    ensures forall r :: r in Ring(size) ==> r.rdataStart <= r.rdataEnd <= |RingMessage(size)|
    ensures AnswersOutcome(RingMessage(size), Ring(size), NameOf(0))
         == if size <= MAX_CNAME_LINKS then Error(ENODATA) else MALFORMED
  {
    RingInside(size);
    hide RingMessage, CnamesWellFormed, IsRing, ChainOwnersOf, NameOf;
    RingWellFormed(size);
    RingIsRing(size);
    assert RingNames(size)[0] == NameOf(0);
    RingIff(RingMessage(size), Ring(size), RingNames(size));
    NoTxt(RingMessage(size), size);
  }

  lemma RingInside(size: nat)
    requires 1 <= size <= LETTERS
    ensures forall r :: r in Ring(size) ==> r.rdataStart <= r.rdataEnd <= |RingMessage(size)|
  {
    RingIsRead(size);
    RecordsInBounds(RingMessage(size), ANSWERS_START, size);
    hide RingMessage, Ring, RecordsFrom;
  }

  lemma RingHeader(size: nat)
    requires 1 <= size <= LETTERS
    ensures var m := RingMessage(size);
            && U16(m, 0) == 0 && U16(m, 2) == 0x8100 && U16(m, 4) == 1
            && U16(m, 6) == size && U16(m, 8) == 0 && U16(m, 10) == 0
            && OurQuestion(m, NameOf(0)) == Some(ANSWERS_START)
  {
    var m := RingMessage(size);
    LetterReads(m, DNS_HEADER_BYTES, 0);
  }

  /** A ring holds no TXT record. */
  lemma NoTxt(m: Message, size: nat)
    requires size <= LETTERS && forall r :: r in Ring(size) ==> r.rdataStart <= r.rdataEnd <= |m|
    ensures forall owners :: TxtRecords(m, Ring(size), owners) == Some([])
  {
    forall owners
      ensures TxtRecords(m, Ring(size), owners) == Some([])
    {
      NoTxtAmong(m, Ring(size), owners);
    }
  }

  lemma {:induction false} NoTxtAmong(m: Message, answers: seq<Record>, owners: set<Labels>)
    requires forall r :: r in answers ==> r.rtype != TYPE_TXT && r.rdataStart <= r.rdataEnd <= |m|
    ensures TxtRecords(m, answers, owners) == Some([])
  {
    if answers != [] {
      NoTxtAmong(m, answers[..|answers| - 1], owners);
    }
  }
}
