/** To whom a submission is delivered: when to exactly its envelope, and to whom otherwise (src/modules/smtp-submission/message-mapper.ts:252-369
    fed to src/utils/recipients.ts:77-121). */
module Delivery {
  import opened Wrappers
  import opened AsciiText
  import opened Recipients
  import opened Submission
  import opened FieldCuts

  // ---------- Addresses ----------

  lemma PlainLower(c: char)
    ensures PlainChar(LowerChar(c)) == PlainChar(c) && (LowerChar(c) == '@' <==> c == '@') && (LowerChar(c) == '.' <==> c == '.')
  {
  }

  lemma {:induction false} BeforeAtLower(s: string, t: string)
    requires AsciiLower(s) == AsciiLower(t)
    ensures Before(s, '@') == Before(t, '@')
  {
    assert |AsciiLower(s)| == |AsciiLower(t)|;
    if s != "" {
      assert AsciiLower(s)[0] == AsciiLower(t)[0];
      PlainLower(s[0]);
      PlainLower(t[0]);
      LowerSlice(s, t, 1, |s|);
      BeforeAtLower(s[1..], t[1..]);
      assert s[1..|s|] == s[1..] && t[1..|t|] == t[1..];
    }
  }

  lemma LowerSlice(s: string, t: string, i: nat, j: nat)
    requires AsciiLower(s) == AsciiLower(t) && i <= j <= |s|
    ensures |s| == |t| && AsciiLower(s[i..j]) == AsciiLower(t[i..j])
  {
    assert |AsciiLower(s)| == |AsciiLower(t)|;
    forall k | i <= k < j
      ensures LowerChar(s[k]) == LowerChar(t[k])
    {
      assert AsciiLower(s)[k] == AsciiLower(t)[k];
    }
  }

  lemma PlainAlike(s: string, t: string)
    requires AsciiLower(s) == AsciiLower(t)
    ensures AllPlain(s) ==> AllPlain(t)
    ensures IsDomain(s) ==> IsDomain(t)
  {
    assert |AsciiLower(s)| == |AsciiLower(t)|;
    forall k | 0 <= k < |s|
      ensures PlainChar(s[k]) == PlainChar(t[k]) && (s[k] == '.' <==> t[k] == '.')
    {
      assert AsciiLower(s)[k] == AsciiLower(t)[k];
      PlainLower(s[k]);
      PlainLower(t[k]);
    }
    hide PlainChar;
  }

  /** Whether a text is an address does not depend on case. */
  lemma {:induction false} AddressAlike(s: string, t: string)
    requires AsciiLower(s) == AsciiLower(t) && IsAddress(s)
    ensures IsAddress(t)
  {
    hide AllPlain, IsDomain;
    assert |AsciiLower(s)| == |AsciiLower(t)|;
    BeforeAtLower(s, t);
    var n := Before(s, '@');
    LowerSlice(s, t, 0, n);
    LowerSlice(s, t, n + 1, |s|);
    assert s[n + 1..|s|] == s[n + 1..] && t[n + 1..|t|] == t[n + 1..] && s[0..n] == s[..n] && t[0..n] == t[..n];
    PlainAlike(s[..n], t[..n]);
    PlainAlike(s[n + 1..], t[n + 1..]);
  }

  // ---------- Sets of addresses ----------

  lemma {:induction false} DedupedHolds(addresses: seq<string>)
    ensures LowerSet(Deduped(addresses)) == EnvelopeSet(addresses)
    ensures forall x :: x in Deduped(addresses) ==> x != "" && exists a :: a in addresses && x == Trim(a)
    decreases |addresses|
  {
    hide Trim;
    if addresses != [] {
      var init, last := addresses[..|addresses| - 1], addresses[|addresses| - 1];
      DedupedHolds(init);
      assert addresses == init + [last];
      LowerSetGrows(Deduped(init), Trim(last));
      EnvelopeGrows(init, last);
      hide EnvelopeSet, LowerSet;
      assert last in addresses;
      assert forall a :: a in init ==> a in addresses;
    }
  }

  lemma {:induction false} NamedSets(addresses: seq<string>, names: set<string>)
    ensures EnvelopeSet(Named(addresses, names)) == EnvelopeSet(addresses) * names
    ensures forall a :: a in Named(addresses, names) ==> a in addresses && Norm(a) in names
  {
    hide EnvelopeSet, Norm, Trim;
    NoEmptyName(addresses);
    NoEmptyName(Named(addresses, names));
    if addresses == [] {
      NoNames();
    } else {
      var a, rest := addresses[0], addresses[1..];
      assert addresses == [a] + rest;
      NamedSets(rest, names);
      EnvelopeGrows(rest, a);
      EnvelopeGrows(Named(rest, names), a);
      EmptyNorm(a);
      assert [] + Named(rest, names) == Named(rest, names);
    }
  }

  lemma {:induction false} UnnamedSets(addresses: seq<string>, names: set<string>)
    ensures EnvelopeSet(Unnamed(addresses, names)) == EnvelopeSet(addresses) - names
    ensures forall a :: a in Unnamed(addresses, names) <==> a in addresses && a != "" && Norm(a) !in names
  {
    hide EnvelopeSet, Norm, Trim;
    if addresses == [] {
      NoNames();
    } else {
      var a, rest := addresses[0], addresses[1..];
      assert addresses == [a] + rest;
      UnnamedSets(rest, names);
      EnvelopeGrows(rest, a);
      EnvelopeGrows(Unnamed(rest, names), a);
      EmptyNorm(a);
      assert [] + Unnamed(rest, names) == Unnamed(rest, names);
    }
  }

  /** What is not blind is what is shown. */
  lemma {:induction false} ExcludingSets(addresses: seq<string>, all: seq<string>, names: set<string>)
    requires forall a :: a in addresses ==> a in all
    ensures EnvelopeSet(Excluding(addresses, Unnamed(all, names))) == EnvelopeSet(addresses) * names
    ensures forall a :: a in Excluding(addresses, Unnamed(all, names)) ==> a in addresses
  {
    hide EnvelopeSet, Norm, Trim;
    UnnamedSets(all, names);
    if addresses == [] {
      NoNames();
    } else {
      var a, rest := addresses[0], addresses[1..];
      var blind := Unnamed(all, names);
      assert addresses == [a] + rest;
      ExcludingSets(rest, all, names);
      EnvelopeGrows(rest, a);
      EnvelopeGrows(Excluding(rest, blind), a);
      EmptyNorm(a);
      NoEmptyName(addresses);
      assert [] + Excluding(rest, blind) == Excluding(rest, blind);
    }
  }

  // ---------- What is parsed ----------

  /** One entry per address, each with its own domain. */
  ghost predicate Distinct(rs: seq<Recipient>) {
    && (forall i, j :: 0 <= i < j < |rs| ==> AsciiLower(rs[i].address) != AsciiLower(rs[j].address))
    && (forall r :: r in rs ==> r.domain == DomainOf(r.address))
  }

  /** What a field adds: its own addresses that were not there, of its kind. */
  ghost predicate Adds(before: seq<Recipient>, after: seq<Recipient>, names: set<string>, kind: Kind) {
    && Lowers(after) == Lowers(before) + names
    && forall r :: r in after ==> r in before || (r.kind == kind && AsciiLower(r.address) in names && AsciiLower(r.address) !in Lowers(before))
  }

  lemma IngestOne(before: seq<Recipient>, piece: string, kind: Kind)
    requires Distinct(before) && IsAddress(Trim(piece))
    ensures Distinct(Ingest(before, piece, kind)) && Adds(before, Ingest(before, piece, kind), {Norm(piece)}, kind)
  {
    hide Trim, DomainOf, IsAddress;
    var r := Recipient(kind, Trim(piece), DomainOf(Trim(piece)));
    LowersGrow(before, r);
    if Norm(piece) !in Lowers(before) {
      forall x | x in before
        ensures AsciiLower(x.address) != Norm(piece)
      {
        assert AsciiLower(x.address) in Lowers(before);
      }
    }
  }

  lemma AddsOn(a: seq<Recipient>, b: seq<Recipient>, c: seq<Recipient>, names: set<string>, more: set<string>, kind: Kind)
    requires Adds(a, b, names, kind) && Adds(b, c, more, kind)
    ensures Adds(a, c, names + more, kind)
  {
    hide Lowers;
  }

  /** The addresses among the pieces of a field, as they are compared. */
  function Names(pieces: seq<string>): set<string> {
    set p | p in pieces && IsAddress(Trim(p)) :: Norm(p)
  }

  /** Whoever a field adds is spelled as one of its pieces. */
  ghost predicate Spelled(before: seq<Recipient>, after: seq<Recipient>, pieces: seq<string>) {
    forall r :: r in after ==> r in before || exists p :: p in pieces && r.address == Trim(p)
  }

  lemma NamesGrow(pieces: seq<string>, piece: string)
    ensures Names(pieces + [piece]) == Names(pieces) + (if IsAddress(Trim(piece)) then {Norm(piece)} else {})
  {
    hide Norm, Trim, IsAddress;
    var more := pieces + [piece];
    assert forall p :: p in more <==> p in pieces || p == piece;
    forall n | n in Names(pieces)
      ensures n in Names(more)
    {
      var p :| p in pieces && IsAddress(Trim(p)) && Norm(p) == n;
      assert p in more;
    }
    assert piece in more;
  }

  lemma NothingAdded(before: seq<Recipient>, kind: Kind)
    ensures Adds(before, before, {}, kind) && Spelled(before, before, [])
  {
  }

  lemma SpelledOn(before: seq<Recipient>, sofar: seq<Recipient>, pieces: seq<string>, piece: string, kind: Kind)
    requires Spelled(before, sofar, pieces)
    ensures Spelled(before, Ingest(sofar, piece, kind), pieces + [piece])
  {
    hide Trim, IsAddress, DomainOf;
    var after := Ingest(sofar, piece, kind);
    forall r | r in after && r !in before
      ensures exists p :: p in pieces + [piece] && r.address == Trim(p)
    {
      if r in sofar {
        var p :| p in pieces && r.address == Trim(p);
        assert p in pieces + [piece];
      } else {
        assert piece in pieces + [piece];
      }
    }
  }

  /** What any field adds: exactly its addresses that were not there, each once, spelled as it spells them. */
  lemma {:induction false} IngestPieces(before: seq<Recipient>, pieces: seq<string>, kind: Kind)
    requires Distinct(before)
    ensures var after := IngestAll(before, pieces, kind);
            Distinct(after) && Adds(before, after, Names(pieces), kind) && Spelled(before, after, pieces)
    decreases |pieces|
  {
    hide Distinct, Adds, Ingest, Trim, IsAddress, Names, Spelled, Norm;
    if pieces == [] {
      NothingAdded(before, kind);
      NoNamesAmong();
    } else {
      var init, piece := pieces[..|pieces| - 1], pieces[|pieces| - 1];
      assert pieces == init + [piece];
      IngestPieces(before, init, kind);
      NamesGrow(init, piece);
      var sofar := IngestAll(before, init, kind);
      SpelledOn(before, sofar, init, piece, kind);
      if IsAddress(Trim(piece)) {
        IngestOne(sofar, piece, kind);
        AddsOn(before, sofar, Ingest(sofar, piece, kind), Names(init), {Norm(piece)}, kind);
      } else {
        NotIngested(sofar, piece, kind);
        assert Names(init) + {} == Names(init);
      }
    }
  }

  lemma NoNamesAmong()
    ensures Names([]) == {}
  {
  }

  lemma NotIngested(before: seq<Recipient>, piece: string, kind: Kind)
    requires !IsAddress(Trim(piece))
    ensures Ingest(before, piece, kind) == before
  {
  }

  /** Three fields of any text: every address among their pieces once, nothing else, under the first field
      that names it and spelled as that field spells it. */
  lemma ParsedExactly(to: string, cc: Option<string>, bcc: Option<string>)
    ensures var rs := Parsed(to, cc, bcc);
            var t, c, b := PiecesOf(Some(to)), PiecesOf(cc), PiecesOf(bcc);
            && Distinct(rs) && Lowers(rs) == Names(t) + Names(c) + Names(b)
            && forall r :: r in rs ==>
                 && (r.kind == To <==> AsciiLower(r.address) in Names(t))
                 && (r.kind == Bcc <==> AsciiLower(r.address) !in Names(t) + Names(c))
                 && exists p :: p in (match r.kind case To => t case Cc => c case Bcc => b) && r.address == Trim(p)
  {
    var t, c, b := PiecesOf(Some(to)), PiecesOf(cc), PiecesOf(bcc);
    hide IngestAll, Names, PiecesOf, DomainOf;
    assert Lowers([]) == {};
    IngestPieces([], t, To);
    var first := IngestAll([], t, To);
    IngestPieces(first, c, Cc);
    var second := IngestAll(first, c, Cc);
    IngestPieces(second, b, Bcc);
    FieldsTold(first, second, IngestAll(second, b, Bcc), t, c, b, Names(t), Names(c), Names(b));
  }

  lemma FieldsTold(first: seq<Recipient>, second: seq<Recipient>, rs: seq<Recipient>,
                   t: seq<string>, c: seq<string>, b: seq<string>, tn: set<string>, cn: set<string>, bn: set<string>)
    requires Adds([], first, tn, To) && Adds(first, second, cn, Cc) && Adds(second, rs, bn, Bcc)
    requires Spelled([], first, t) && Spelled(first, second, c) && Spelled(second, rs, b)
    ensures Lowers(rs) == tn + cn + bn
    ensures forall r :: r in rs ==>
              && (r.kind == To <==> AsciiLower(r.address) in tn)
              && (r.kind == Bcc <==> AsciiLower(r.address) !in tn + cn)
              && exists p :: p in (match r.kind case To => t case Cc => c case Bcc => b) && r.address == Trim(p)
  {
    hide Trim;
    assert Lowers([]) == {};
    forall r | r in rs
      ensures r.kind == To <==> AsciiLower(r.address) in tn
      ensures r.kind == Bcc <==> AsciiLower(r.address) !in tn + cn
      ensures exists p :: p in (match r.kind case To => t case Cc => c case Bcc => b) && r.address == Trim(p)
    {
      if r in second {
        assert AsciiLower(r.address) in Lowers(second);
      }
      if r in first {
        assert AsciiLower(r.address) in Lowers(first);
      }
    }
  }

  // ---------- Fields ----------

  /** The names that are addresses. */
  function Addresses(names: set<string>): set<string> {
    set n | n in names && IsAddress(n)
  }

  lemma NormAlike(a: string)
    ensures IsAddress(Norm(a)) <==> IsAddress(Trim(a))
    ensures IsAddress(Norm(a)) ==> Norm(a) != ""
  {
    hide IsAddress, Trim, AsciiLower;
    LowerTwice(Trim(a));
    if IsAddress(Trim(a)) {
      AddressAlike(Trim(a), Norm(a));
    }
    if IsAddress(Norm(a)) {
      AddressAlike(Norm(a), Trim(a));
      NotEmptyAddress(Norm(a));
    }
  }

  lemma NotEmptyAddress(s: string)
    requires IsAddress(s)
    ensures s != "" && ',' !in s
  {
  }

  lemma NamesAre(pieces: seq<string>)
    ensures Names(pieces) == Addresses(EnvelopeSet(pieces))
  {
    hide IsAddress, Norm, Trim;
    forall p | p in pieces
      ensures (IsAddress(Trim(p)) <==> IsAddress(Norm(p))) && (IsAddress(Norm(p)) ==> Norm(p) != "")
    {
      NormAlike(p);
    }
  }

  /** The addresses a field is read as. */
  lemma FieldNames(field: string)
    ensures Names(PiecesOf(Some(field))) == Addresses(CutText(field))
    ensures Names(PiecesOf(Present(field))) == Addresses(CutText(field))
  {
    hide Split, EnvelopeSet, IsAddress;
    NamesAre(Split(field, ','));
    NoNamesAmong();
    CutNothing();
  }

  lemma {:induction false} JoinNotEmpty(parts: seq<string>)
    requires forall x :: x in parts ==> x != ""
    ensures Join(parts) == "" <==> LowerSet(parts) == {}
  {
    if parts != [] {
      assert parts[0] in parts;
      assert AsciiLower(parts[0]) in LowerSet(parts);
    }
  }

  /** A field joined from any texts: its pieces are theirs, and it is empty only when all are blank. */
  lemma FieldMade(addresses: seq<string>)
    ensures CutText(Join(Deduped(addresses))) == Cut(EnvelopeSet(addresses))
    ensures Join(Deduped(addresses)) == "" <==> EnvelopeSet(addresses) == {}
  {
    hide Deduped, Join, LowerSet, EnvelopeSet, Cut, CutText;
    DedupedHolds(addresses);
    CutJoin(Deduped(addresses));
    JoinNotEmpty(Deduped(addresses));
  }

  // ---------- Delivery ----------

  function Envelope(p: Parts): set<string> {
    EnvelopeSet(p.envelopeRecipients)
  }

  /** The envelope recipients the To header names. */
  function ShownTo(p: Parts): set<string> {
    EnvelopeSet(p.toHeader) * Envelope(p)
  }

  function ShownCc(p: Parts): set<string> {
    EnvelopeSet(p.ccHeader) * Envelope(p)
  }

  function Shown(p: Parts): set<string> {
    ShownTo(p) + ShownCc(p)
  }

  lemma FieldsOf(p: Parts)
    ensures CutText(ToField(p)) == Cut(ShownTo(p)) && (ToField(p) == "" <==> ShownTo(p) == {})
    ensures CutText(CcField(p)) == Cut(ShownCc(p)) && (CcField(p) == "" <==> ShownCc(p) == {})
    ensures VisibleSet(ToField(p), CcField(p)) == Cut(Shown(p))
  {
    NamedSets(p.toHeader, Envelope(p));
    NamedSets(p.ccHeader, Envelope(p));
    hide Deduped, Named, EnvelopeSet, Join, Cut, Split;
    FieldMade(Named(p.toHeader, Envelope(p)));
    FieldMade(Named(p.ccHeader, Envelope(p)));
    VisibleIsCut(ToField(p), CcField(p));
    CutUnion(ShownTo(p), ShownCc(p));
  }

  lemma VisibleIsCut(to: string, cc: string)
    ensures VisibleSet(to, cc) == CutText(to) + CutText(cc)
  {
    hide Split, Norm;
    CutNothing();
    CutConcat(to, cc);
  }

  /** The recipients a built input is delivered to. */
  function DeliveredTo(i: Input): seq<Recipient> {
    Parsed(i.to, i.cc, i.bcc)
  }

  /** What the blind recipients and the fallback of the To field come to. */
  lemma BlindSets(p: Parts)
    ensures EnvelopeSet(BlindOf(p)) == Envelope(p) - Cut(Shown(p))
    ensures EnvelopeSet(Excluding(p.envelopeRecipients, BlindOf(p))) == Envelope(p) * Cut(Shown(p))
  {
    FieldsOf(p);
    hide EnvelopeSet, Cut, Unnamed, Excluding, ToField, CcField, VisibleSet, Shown;
    UnnamedSets(p.envelopeRecipients, Cut(Shown(p)));
    ExcludingSets(p.envelopeRecipients, p.envelopeRecipients, Cut(Shown(p)));
  }

  /** A message is accepted exactly when it has a sender and a recipient, its headers name somebody in the
      envelope if they name anybody, and what they show, cut at its commas, is not all beside the envelope
      when only Cc shows it. */
  lemma {:induction false} AcceptedIff(p: Parts)
    ensures BuildSubmissionInput(p).Built?
       <==> && SenderOf(p) != "" && Envelope(p) != {} && (NamesSomeone(p) ==> Shown(p) != {})
            && (ShownTo(p) == {} && ShownCc(p) != {} ==> Envelope(p) * Cut(ShownCc(p)) != {})
  {
    hide Deduped, Named, Unnamed, Excluding, EnvelopeSet, Join, ToField, CcField, BlindOf, NamesSomeone, SenderOf, Cut, CutText, VisibleSet;
    FieldsOf(p);
    BlindSets(p);
    FieldMade(p.envelopeRecipients);
    FieldMade(Excluding(p.envelopeRecipients, BlindOf(p)));
    assert ShownTo(p) == {} ==> Shown(p) == ShownCc(p);
  }

  ghost predicate CommaFree(names: set<string>) {
    forall n :: n in names ==> ',' !in n
  }

  lemma EnvelopeIsPlain(p: Parts, names: set<string>)
    requires names <= Envelope(p) && CommaFree(names)
    ensures Cut(names) == names
  {
    hide Norm, Cut;
    forall n | n in names
      ensures n != "" && Norm(n) == n
    {
      var a :| a in p.envelopeRecipients && Norm(a) == n;
      NormOfLower(a);
    }
    CutOfPlain(names);
  }

  /** So when no recipient holds a comma, a Cc header alone is as good as a To header. */
  lemma AcceptedPlain(p: Parts)
    requires CommaFree(Envelope(p))
    ensures BuildSubmissionInput(p).Built?
       <==> SenderOf(p) != "" && Envelope(p) != {} && (NamesSomeone(p) ==> Shown(p) != {})
  {
    hide EnvelopeSet, BuildSubmissionInput, SenderOf, NamesSomeone, Cut;
    AcceptedIff(p);
    EnvelopeIsPlain(p, ShownCc(p));
  }

  // ---------- Who gets it ----------

  /** The three fields of a built input, cut, are the envelope, cut; To and Cc are what is shown. */
  lemma InputCut(p: Parts)
    requires BuildSubmissionInput(p).Built?
    ensures var i := BuildSubmissionInput(p).input;
            && CutText(i.to) + CutText(FieldOf(i.cc)) + CutText(FieldOf(i.bcc)) == Cut(Envelope(p))
            && (Shown(p) != {} ==> CutText(i.to) + CutText(FieldOf(i.cc)) == Cut(Shown(p)))
            && (Shown(p) == {} ==> CutText(i.to) == Cut(Envelope(p)))
            && i.cc == Present(FieldOf(i.cc)) && i.bcc == Present(FieldOf(i.bcc))
  {
    hide Deduped, Named, Unnamed, Excluding, EnvelopeSet, Join, ToField, CcField, BlindOf, NamesSomeone, SenderOf, Cut, CutText, VisibleSet;
    FieldsOf(p);
    BlindSets(p);
    var env, shown := Envelope(p), Shown(p);
    FieldMade(p.envelopeRecipients);
    FieldMade(BlindOf(p));
    FieldMade(Excluding(p.envelopeRecipients, BlindOf(p)));
    CutNothing();
    CutNone();
    CutTwice(shown);
    CutOfPlain(env * Cut(shown));
    CutUnion(ShownTo(p), ShownCc(p));
    CutUnion(env - Cut(shown), env * Cut(shown));
    assert (env - Cut(shown)) + env * Cut(shown) == env;
    CutUnion(env, shown);
    assert env + shown == env;
  }

  function FieldOf(field: Option<string>): string {
    if field.Some? then field.value else ""
  }

  /** Whatever the recipients of an accepted message look like, it goes to exactly the addresses among them,
      cut at their commas, once each. If a header shows somebody, those it does not show are in `bcc` and only
      there; if none does, all are in `to`. */
  lemma {:induction false} DeliveredExactly(p: Parts)
    requires BuildSubmissionInput(p).Built?
    ensures var rs := DeliveredTo(BuildSubmissionInput(p).input);
            && Distinct(rs) && Lowers(rs) == Addresses(Cut(Envelope(p)))
            && (Shown(p) != {} ==> forall r :: r in rs ==> (r.kind == Bcc <==> AsciiLower(r.address) !in Cut(Shown(p))))
            && (Shown(p) == {} ==> forall r :: r in rs ==> r.kind == To)
  {
    hide BuildSubmissionInput, Cut, CutText, Shown, Envelope, Present, Names, PiecesOf, Parsed, Distinct, Lowers, IsAddress;
    var i := BuildSubmissionInput(p).input;
    InputCut(p);
    ParsedExactly(i.to, i.cc, i.bcc);
    FieldNames(i.to);
    FieldNames(FieldOf(i.cc));
    FieldNames(FieldOf(i.bcc));
    InLowers(DeliveredTo(i));
  }

  lemma InLowers(rs: seq<Recipient>)
    ensures forall r :: r in rs ==> AsciiLower(r.address) in Lowers(rs)
  {
  }

  /** `rs` are the envelope, each recipient once. With a To or Cc header that shows somebody, those in
      neither header are in `bcc` and only there; without one nobody is. */
  ghost predicate ReachesEnvelope(p: Parts, rs: seq<Recipient>) {
    && Distinct(rs) && Lowers(rs) == Envelope(p)
    && (Shown(p) != {} ==>
          forall r :: r in rs ==>
            (r.kind == Bcc <==> AsciiLower(r.address) !in EnvelopeSet(p.toHeader) + EnvelopeSet(p.ccHeader)))
    && (Shown(p) == {} ==> forall r :: r in rs ==> r.kind == To)
  }

  /** Every RCPT TO that is not blank is an address. */
  ghost predicate ValidEnvelope(p: Parts) {
    forall a :: a in p.envelopeRecipients && Trim(a) != "" ==> IsAddress(Trim(a))
  }

  lemma ValidIff(p: Parts)
    ensures ValidEnvelope(p) <==> forall n :: n in Envelope(p) ==> IsAddress(n)
  {
    hide IsAddress, Trim, Norm;
    forall a | a in p.envelopeRecipients
      ensures (Trim(a) != "" <==> Norm(a) in Envelope(p)) && (IsAddress(Norm(a)) <==> IsAddress(Trim(a)))
    {
      EmptyNorm(a);
      NormAlike(a);
    }
  }

  /** An accepted message reaches exactly its envelope, every recipient once, if and only if each RCPT TO that
      is not blank is an address. */
  lemma {:induction false} DeliversTheEnvelope(p: Parts)
    requires BuildSubmissionInput(p).Built?
    ensures ReachesEnvelope(p, DeliveredTo(BuildSubmissionInput(p).input)) <==> ValidEnvelope(p)
  {
    hide BuildSubmissionInput, DeliveredTo, Cut, EnvelopeSet, Distinct, Lowers, IsAddress, ValidEnvelope;
    var rs := DeliveredTo(BuildSubmissionInput(p).input);
    DeliveredExactly(p);
    ValidIff(p);
    if ValidEnvelope(p) {
      AddressesPlain(Envelope(p));
      EnvelopeIsPlain(p, Envelope(p));
      EnvelopeIsPlain(p, Shown(p));
      InLowers(rs);
    }
  }

  lemma AddressesPlain(names: set<string>)
    requires forall n :: n in names ==> IsAddress(n)
    ensures CommaFree(names)
  {
    hide IsAddress;
    forall n | n in names
      ensures ',' !in n
    {
      NotEmptyAddress(n);
    }
  }

  // ---------- Envelopes it does not reach ----------

  lemma PlainText(s: string)
    requires s != "" && !IsSpace(s[0]) && !IsSpace(s[|s| - 1])
    ensures Trim(s) == s
  {
  }

  /** With no To or Cc header, a sole recipient that is no address is accepted and dropped in silence. */
  lemma SoleRecipientDropped(p: Parts, name: string)
    requires SenderOf(p) != "" && p.toHeader == [] && p.ccHeader == []
    requires p.envelopeRecipients == [name] && name != "" && Norm(name) == name && ',' !in name && !IsAddress(name)
    ensures BuildSubmissionInput(p).Built? && DeliveredTo(BuildSubmissionInput(p).input) == []
  {
    hide BuildSubmissionInput, Cut, CutText, Norm, Trim, IsAddress, EnvelopeSet, SenderOf, Parsed;
    OneName(name);
    NoNames();
    AcceptedIff(p);
    EnvelopeIsPlain(p, Envelope(p));
    DeliveredExactly(p);
    NobodyLeft(DeliveredTo(BuildSubmissionInput(p).input));
  }

  /** So is one without a mail domain. */
  lemma LocalRecipientDropped(p: Parts)
    requires p.fromHeader == Some("x@y.co") && p.toHeader == [] && p.ccHeader == []
    requires p.envelopeRecipients == ["root@localhost"]
    ensures BuildSubmissionInput(p).Built? && DeliveredTo(BuildSubmissionInput(p).input) == []
  {
    hide BuildSubmissionInput, DeliveredTo, Norm, Trim, IsAddress;
    PlainText(p.fromHeader.value);
    LocalName(p.envelopeRecipients[0]);
    SoleRecipientDropped(p, p.envelopeRecipients[0]);
  }

  /** A recipient with a comma that only Cc names: shown, and yet rejected. */
  lemma CommaRejected(p: Parts)
    requires p.envelopeRecipients == ["a,b"] && p.toHeader == [] && p.ccHeader == ["a,b"]
    ensures Shown(p) == {"a,b"} && BuildSubmissionInput(p).Rejected?
  {
    hide BuildSubmissionInput, Cut, Trim;
    PlainText("a,b");
    assert AsciiLower("a,b") == "a,b";
    OneName("a,b");
    NoNames();
    AcceptedIff(p);
    CutTwice(ShownCc(p));
  }

  lemma NobodyLeft(rs: seq<Recipient>)
    ensures rs != [] ==> Lowers(rs) != {}
  {
    if rs != [] {
      assert rs[0] in rs;
      assert AsciiLower(rs[0].address) in Lowers(rs);
    }
  }

  lemma LocalName(name: string)
    requires name == "root@localhost"
    ensures Norm(name) == name && ',' !in name && !IsAddress(name)
  {
    hide Trim, IsAddress;
    PlainText(name);
    assert AsciiLower(name) == name;
    LocalIsNoAddress();
  }

  lemma LocalIsNoAddress()
    ensures !IsAddress("root@localhost")
  {
    hide IsAddress;
    UndottedHost("root", "localhost");
    assert "root@localhost" == "root" + "@" + "localhost";
  }

  /** A host without a dot is no mail domain. */
  lemma UndottedHost(user: string, host: string)
    requires '@' !in user && '.' !in host
    ensures !IsAddress(user + "@" + host)
  {
    BeforeFirst(user, '@', host);
    assert (user + "@" + host)[|user| + 1..] == host;
  }

  // ---------- Groups ----------

  lemma {:induction false} InDomainHolds(rs: seq<Recipient>, domain: string)
    ensures forall r :: r in InDomain(rs, domain) <==> r in rs && r.domain == domain
    ensures Distinct(rs) ==> Distinct(InDomain(rs, domain))
    decreases |rs|
  {
    if rs != [] {
      var init, last := rs[..|rs| - 1], rs[|rs| - 1];
      assert rs == init + [last];
      InDomainHolds(init, domain);
      hide DomainOf, InDomain;
      InDomainLast(init, last, domain);
      assert forall r :: r in rs <==> r in init || r == last;
      if Distinct(rs) {
        assert Distinct(init);
        forall r | r in init
          ensures AsciiLower(r.address) != AsciiLower(last.address)
        {
          var i :| 0 <= i < |init| && init[i] == r;
          assert rs[i] == r && rs[|rs| - 1] == last;
        }
      }
    }
  }

  /** Every recipient is in the group of its own domain and in no other, and there once. */
  lemma OneGroupEach(groups: seq<Group>, rs: seq<Recipient>, r: Recipient, i: nat)
    requires Grouped(groups, rs) && Distinct(rs) && r in rs && i < |groups|
    ensures r in groups[i].members <==> groups[i].domain == DomainOf(r.address)
    ensures Distinct(groups[i].members)
    ensures exists j :: 0 <= j < |groups| && groups[j].domain == DomainOf(r.address)
  {
    InDomainHolds(rs, groups[i].domain);
    hide DomainOf, InDomain;
  }
}
