/** One DNS message over TCP, in whatever chunks it arrives (src/utils/dns-txt.ts:136-147, 270-312). */
module DnsTcp {
  import opened Wrappers
  import opened DnsBytes
  import opened DnsQuery
  import opened DnsResponse
  import opened DnsParser
  import opened DnsAnswer
  import opened DnsErrors

  datatype AttemptOutcome = Answers(records: seq<seq<string>>) | Failure(code: DnsTxtErrorCode, answered: bool)

  const BAD_RESPONSE := Failure(EBADRESP, false)

  /** What a whole TCP message makes of the attempt; a mismatch or TC is a bad response here. */
  function Judged(o: Outcome): AttemptOutcome {
    match o
    case Records(records) => Answers(records)
    case Error(code) => Failure(code, code != EBADRESP)
    case _ => BAD_RESPONSE
  }

  /** The outcome the bytes of a stream call for, if any yet. */
  function Verdict(stream: Message, q: TxtQuestion): Option<AttemptOutcome> {
    if |stream| < 2 then None
    else
      var length := U16(stream, 0);
      if length < DNS_HEADER_BYTES then Some(BAD_RESPONSE)
      else if |stream| - 2 < length then None
      else if |stream| - 2 == length then Some(Judged(Parse(stream[2..], q)))
      else Some(BAD_RESPONSE)
  }

  /** The reader of one reply: the two prefix bytes, then a buffer of the size they give. */
  class TcpReply {
    const question: TxtQuestion
    const prefix: array<byte>
    var prefixBytes: nat
    var message: array?<byte>
    var filled: nat
    var settled: Option<AttemptOutcome>
    /** Every byte received. */
    ghost var stream: Message

    ghost predicate Valid()
      reads this, prefix, message
    {
      && prefix.Length == 2
      && (message != null ==> message != prefix)
      && settled == Verdict(stream, question)
      && (settled.None? ==> Buffered())
    }

    /** The bytes received so far lie in the prefix and at the start of the buffer. */
    ghost predicate Buffered()
      requires prefix.Length == 2
      reads this, prefix, message
    {
      && prefixBytes == (if |stream| < 2 then |stream| else 2)
      && prefix[..prefixBytes] == stream[..prefixBytes]
      && (message == null <==> |stream| < 2)
      && (message == null ==> filled == 0)
      && (message != null ==>
            && message.Length == U16(stream, 0) && filled == |stream| - 2 < message.Length
            && message[..filled] == stream[2..])
    }

    constructor (question: TxtQuestion)
      ensures Valid() && stream == [] && this.question == question && settled.None?
      ensures fresh(prefix) && message == null
    {
      this.question := question;
      prefix := new byte[2](_ => 0);
      prefixBytes, message, filled, settled, stream := 0, null, 0, None, [];
    }

    function PrefixOf(length: nat): nat {
      if length < 2 then length else 2
    }

    /** The bytes of a chunk that still belong to the prefix. */
    method TakePrefix(chunk: Message) returns (at: nat)
      requires prefix.Length == 2 && prefixBytes == PrefixOf(|stream|) && prefix[..prefixBytes] == stream[..prefixBytes]
      modifies this`prefixBytes, prefix
      ensures prefixBytes == PrefixOf(|stream + chunk|) && prefix[..prefixBytes] == (stream + chunk)[..prefixBytes]
      ensures at == PrefixOf(|stream + chunk|) - PrefixOf(|stream|)
    {
      at := 0;
      while prefixBytes < 2 && at < |chunk|
        invariant at <= |chunk| && prefixBytes <= 2 && prefixBytes == PrefixOf(|stream|) + at
        invariant prefix[..prefixBytes] == (stream + chunk)[..prefixBytes]
      {
        prefix[prefixBytes] := chunk[at];
        prefixBytes := prefixBytes + 1;
        at := at + 1;
      }
    }

    /** `message.set(bytes, filled)`. */
    method Append(bytes: Message)
      requires message != null && filled + |bytes| <= message.Length
      modifies this`filled, message
      ensures filled == old(filled) + |bytes| && message[..filled] == old(message[..filled]) + bytes
    {
      forall i | 0 <= i < |bytes| {
        message[filled + i] := bytes[i];
      }
      filled := filled + |bytes|;
    }

    /** `receive`: called while not settled. Every write lands in the prefix or the buffer. */
    method Receive(chunk: Message)
      requires Valid() && settled.None?
      modifies this, prefix, message
      ensures Valid() && stream == old(stream) + chunk
      ensures message == old(message) || fresh(message)
    {
      hide Parse;
      var at := TakePrefix(chunk);
      stream := stream + chunk;
      if prefixBytes < 2 {
        return;
      }
      assert prefix[0] == prefix[..2][0] == stream[0] && prefix[1] == prefix[..2][1] == stream[1];
      if message == null {
        var length := prefix[0] as int * 256 + prefix[1];
        if length < DNS_HEADER_BYTES {
          settled := Some(BAD_RESPONSE);
          return;
        }
        message := new byte[length](_ => 0);
      }
      if filled + (|chunk| - at) > message.Length {
        settled := Some(BAD_RESPONSE);
        return;
      }
      Append(chunk[at..]);
      assert message[..filled] == stream[2..];
      if filled < message.Length {
        return;
      }
      assert message[..filled] == message[..];
      var outcome := ParseTxtResponse(message[..], question);
      settled := Some(Judged(outcome));
    }
  }

  // ---------- Any split into chunks ----------

  function Joined(chunks: seq<Message>): Message {
    if chunks == [] then [] else Joined(chunks[..|chunks| - 1]) + chunks[|chunks| - 1]
  }

  /** What the reader has made of the chunks so far: `receive` is not called once settled. */
  function Replied(chunks: seq<Message>, q: TxtQuestion): Option<AttemptOutcome> {
    if chunks == [] then Verdict([], q)
    else
      var before := Replied(chunks[..|chunks| - 1], q);
      if before.Some? then before else Verdict(Joined(chunks), q)
  }

  /** Reads the chunks of a connection, each handed over only while the reply is not settled. */
  method ReadChunks(q: TxtQuestion, chunks: seq<Message>) returns (outcome: Option<AttemptOutcome>)
    ensures outcome == Replied(chunks, q)
  {
    var reply := new TcpReply(q);
    for i := 0 to |chunks|
      invariant reply.Valid() && reply.question == q && fresh(reply) && fresh(reply.prefix)
      invariant reply.message != null ==> fresh(reply.message)
      invariant reply.settled == Replied(chunks[..i], q)
      invariant reply.settled.None? ==> reply.stream == Joined(chunks[..i])
    {
      assert chunks[..i + 1][..i] == chunks[..i];
      if reply.settled.None? {
        reply.Receive(chunks[i]);
      }
    }
    assert chunks[..|chunks|] == chunks;
    outcome := reply.settled;
  }

  lemma Unfinished(stream: Message, whole: Message, q: TxtQuestion)
    requires |whole| >= 2 && stream <= whole && |whole| == U16(whole, 0) + 2 >= DNS_HEADER_BYTES + 2
    ensures Verdict(stream, q) == if stream == whole then Some(Judged(Parse(whole[2..], q))) else None
  {
    if |stream| >= 2 {
      assert stream[0] == whole[0] && stream[1] == whole[1];
    }
    if |stream| == |whole| {
      assert stream == whole;
    }
  }

  /** The bytes of the first chunks lie at the start of the stream. */
  lemma {:induction false} JoinedPrefix(chunks: seq<Message>, i: nat)
    requires i <= |chunks|
    ensures Joined(chunks[..i]) <= Joined(chunks)
    decreases |chunks| - i
  {
    if i == |chunks| {
      assert chunks[..i] == chunks;
    } else {
      assert chunks[..i + 1][..i] == chunks[..i];
      JoinedPrefix(chunks, i + 1);
    }
  }

  lemma {:induction false} SplitVerdict(m: Message, q: TxtQuestion, chunks: seq<Message>, i: nat)
    requires DNS_HEADER_BYTES <= |m| < 0x1_0000 && Joined(chunks) == U16Bytes(|m|) + m && i <= |chunks|
    ensures Replied(chunks[..i], q)
         == if Joined(chunks[..i]) == U16Bytes(|m|) + m then Some(Judged(Parse(m, q))) else None
  {
    var whole := U16Bytes(|m|) + m;
    var now := Joined(chunks[..i]);
    JoinedPrefix(chunks, i);
    assert whole[2..] == m;
    assert U16(whole, 0) == |m|;
    Unfinished(now, whole, q);
    if i > 0 {
      assert chunks[..i][..i - 1] == chunks[..i - 1];
      SplitVerdict(m, q, chunks, i - 1);
      JoinedPrefix(chunks, i - 1);
      JoinedPrefix(chunks[..i], i - 1);
      hide Parse, Verdict;
    } else {
      assert chunks[..0] == [];
    }
  }

  /** However a prefix and a message of exactly that length are cut into chunks, the reply is settled once, by
      the chunk that brings the last byte: with the records when the message is an answer with records, else
      with the error the message parses to, as the server's answer unless it is EBADRESP; a message that is
      not ours or cut short is EBADRESP too. */
  lemma {:induction false} AnySplitParses(m: Message, q: TxtQuestion, chunks: seq<Message>, i: nat)
    requires DNS_HEADER_BYTES <= |m| < 0x1_0000 && Joined(chunks) == U16Bytes(|m|) + m && i <= |chunks|
    ensures var r := Replied(chunks[..i], q);
            && (r.Some? <==> Joined(chunks[..i]) == U16Bytes(|m|) + m)
            && (r.Some? ==>
                  && (forall rs :: r == Some(Answers(rs)) <==> rs != [] && AnswersWith(m, q, rs))
                  && (forall code, answered :: r == Some(Failure(code, answered))
                        <==> || (Parse(m, q) == Error(code) && answered == (code != EBADRESP))
                             || ((Parse(m, q).Mismatch? || Parse(m, q).Truncated?) && code == EBADRESP && !answered)))
  {
    hide Parse, AnswersWith, Replied, Joined;
    SplitVerdict(m, q, chunks, i);
    forall rs
      ensures Parse(m, q) == Records(rs) <==> rs != [] && AnswersWith(m, q, rs)
    {
      RecordsExactly(m, q, rs);
      NoEmptyRecords(m, q);
    }
  }

  /** A prefix that announces less than a header is a bad response as soon as both its bytes are there. */
  lemma ShortLengthFails(q: TxtQuestion, chunks: seq<Message>)
    requires chunks != [] && |Joined(chunks)| >= 2 && U16(Joined(chunks), 0) < 12
    requires |Joined(chunks[..|chunks| - 1])| < 2
    ensures Replied(chunks, q) == Some(Failure(EBADRESP, false))
  {
    NothingYet(q, chunks[..|chunks| - 1]);
  }

  lemma {:induction false} NothingYet(q: TxtQuestion, chunks: seq<Message>)
    requires |Joined(chunks)| < 2
    ensures Replied(chunks, q).None?
    decreases |chunks|
  {
    if chunks != [] {
      NothingYet(q, chunks[..|chunks| - 1]);
    }
  }

  lemma Overrun(stream: Message, m: Message, extra: Message, q: TxtQuestion)
    requires DNS_HEADER_BYTES <= |m| < 0x1_0000 && extra != []
    requires stream <= U16Bytes(|m|) + m + extra
    ensures |stream| < |m| + 2 ==> Verdict(stream, q).None?
    ensures |stream| > |m| + 2 ==> Verdict(stream, q) == Some(BAD_RESPONSE)
  {
    hide Parse;
    if |stream| >= 2 {
      var whole := U16Bytes(|m|) + m + extra;
      assert stream[0] == whole[0] == U16Bytes(|m|)[0] && stream[1] == whole[1] == U16Bytes(|m|)[1];
      assert U16(stream, 0) == |m|;
    }
  }

  lemma {:induction false} UnsettledBefore(m: Message, extra: Message, q: TxtQuestion, chunks: seq<Message>, i: nat)
    requires DNS_HEADER_BYTES <= |m| < 0x1_0000 && extra != [] && i <= |chunks|
    requires Joined(chunks) == U16Bytes(|m|) + m + extra && |Joined(chunks[..i])| < |m| + 2
    ensures Replied(chunks[..i], q).None?
  {
    hide Verdict;
    JoinedPrefix(chunks, i);
    Overrun(Joined(chunks[..i]), m, extra, q);
    if i > 0 {
      assert chunks[..i][..i - 1] == chunks[..i - 1];
      JoinedPrefix(chunks[..i], i - 1);
      UnsettledBefore(m, extra, q, chunks, i - 1);
    } else {
      assert chunks[..0] == [];
    }
  }

  /** However the stream is cut, bytes past the message in the chunk that brings its last byte make it a bad
      response. */
  lemma OverrunFails(m: Message, q: TxtQuestion, extra: Message, chunks: seq<Message>)
    requires DNS_HEADER_BYTES <= |m| < 0x1_0000 && extra != [] && chunks != []
    requires Joined(chunks) == U16Bytes(|m|) + m + extra && |Joined(chunks[..|chunks| - 1])| < |m| + 2
    ensures Replied(chunks, q) == Some(Failure(EBADRESP, false))
  {
    hide Verdict;
    UnsettledBefore(m, extra, q, chunks, |chunks| - 1);
    Overrun(Joined(chunks), m, extra, q);
  }
}
