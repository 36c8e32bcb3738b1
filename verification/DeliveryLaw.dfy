/** Acceptance and delivery of a submission (src/modules/smtp-submission/message-mapper.ts:287-369) said of the
    texts themselves: addresses that are alike, and not of their lower-case names. */
module DeliveryLaw {
  import opened Wrappers
  import opened AsciiText
  import opened Recipients
  import opened Submission
  import opened FieldCuts
  import opened CaseLaw
  import opened Delivery

  /** One of these is the address `a`. */
  ghost predicate NamedIn(addresses: seq<string>, a: string) {
    exists x :: x in addresses && Alike(x, a)
  }

  /** A header names an envelope recipient. */
  ghost predicate Shows(p: Parts, header: seq<string>) {
    exists e :: e in p.envelopeRecipients && !Blank(e) && NamedIn(header, e)
  }

  /** `q` stands between commas of what `a` is without the white space around it. */
  ghost predicate PieceOf(q: string, a: string) {
    exists t :: TrimOf(t, a) && q in Split(t, ',')
  }

  /** The sender: the From header, or MAIL FROM when that names nobody. */
  ghost predicate IsSender(s: string, p: Parts) {
    if p.fromHeader.Some? && !Blank(p.fromHeader.value) then TrimOf(s, p.fromHeader.value)
    else p.envelopeFrom.Some? && !Blank(p.envelopeFrom.value) && TrimOf(s, p.envelopeFrom.value)
  }

  // ---------- Names and texts ----------

  lemma NameIn(addresses: seq<string>, a: string)
    requires !Blank(a)
    ensures Norm(a) in EnvelopeSet(addresses) <==> NamedIn(addresses, a)
  {
    hide Norm, Alike, Blank;
    NotBlankName(a);
    forall x | x in addresses
      ensures Norm(x) == Norm(a) <==> Alike(x, a)
    {
      NormIffAlike(x, a);
    }
  }

  lemma NotBlankName(a: string)
    ensures Norm(a) == "" <==> Blank(a)
  {
    hide Blank, Trim;
    BlankIff(a);
    EmptyNorm(a);
  }

  /** A name of the envelope is that of some recipient. */
  lemma NameOf(addresses: seq<string>, n: string) returns (a: string)
    requires n in EnvelopeSet(addresses)
    ensures a in addresses && !Blank(a) && Norm(a) == n
  {
    a :| a in addresses && Norm(a) == n;
    hide Norm, Blank;
    NotBlankName(a);
  }

  lemma SetIsEmpty(addresses: seq<string>)
    ensures EnvelopeSet(addresses) == {} <==> forall a :: a in addresses ==> Blank(a)
  {
    hide Norm, Blank;
    forall a | a in addresses
      ensures Norm(a) in EnvelopeSet(addresses) <==> !Blank(a)
    {
      NotBlankName(a);
    }
  }

  lemma ShowsIff(p: Parts, header: seq<string>)
    ensures EnvelopeSet(header) * Envelope(p) != {} <==> Shows(p, header)
  {
    hide EnvelopeSet, Blank, NamedIn, Norm;
    if n :| n in EnvelopeSet(header) * Envelope(p) {
      var e := NameOf(p.envelopeRecipients, n);
      NameIn(header, e);
    }
    if e :| e in p.envelopeRecipients && !Blank(e) && NamedIn(header, e) {
      NameIn(header, e);
      InOwnSet(p.envelopeRecipients, e);
      assert Norm(e) in EnvelopeSet(header) * Envelope(p);
    }
  }

  lemma InOwnSet(addresses: seq<string>, a: string)
    requires a in addresses && !Blank(a)
    ensures Norm(a) in EnvelopeSet(addresses)
  {
    hide Norm, Blank;
    NotBlankName(a);
  }

  lemma SenderIff(p: Parts, s: string)
    ensures SenderOf(p) == s && s != "" <==> IsSender(s, p)
  {
    hide Trim, TrimOf, Blank;
    if p.fromHeader.Some? {
      BlankIff(p.fromHeader.value);
      TrimIsExact(p.fromHeader.value, s);
    }
    if p.envelopeFrom.Some? {
      BlankIff(p.envelopeFrom.value);
      TrimIsExact(p.envelopeFrom.value, s);
    }
  }

  /** A recipient is a piece of a name that some header text has. */
  lemma CutShows(p: Parts, header: seq<string>, n: string)
    requires n in Envelope(p)
    ensures n in Cut(EnvelopeSet(header) * Envelope(p))
       <==> exists h, q :: h in header && Shows(p, [h]) && PieceOf(q, h) && Norm(q) == n
  {
    hide EnvelopeSet, Blank, Norm, Cut, Split, Trim, Shows, PieceOf;
    var shown := EnvelopeSet(header) * Envelope(p);
    if n in Cut(shown) {
      var m := CutFrom(shown, n);
      var h := NameOf(header, m);
      CutTextOfNorm(h);
      var q := PieceOfCut(Trim(h), n);
      PieceOfTrim(q, h);
      OneHeader(p, header, h);
    }
    if h, q :| h in header && Shows(p, [h]) && PieceOf(q, h) && Norm(q) == n {
      PieceOfTrim(q, h);
      OneHeader(p, header, h);
      CutTextOfNorm(h);
      CutHas(shown, Norm(h), Trim(h), q, n);
      NoEmptyName(p.envelopeRecipients);
    }
  }

  lemma CutFrom(names: set<string>, n: string) returns (m: string)
    requires n in Cut(names)
    ensures m in names && n in CutText(m)
  {
    hide CutText;
    m :| m in names && n in CutText(m);
  }

  lemma CutHas(names: set<string>, m: string, text: string, q: string, n: string)
    requires m in names && CutText(m) == CutText(text) && q in Split(text, ',') && Norm(q) == n
    ensures n != "" ==> n in Cut(names)
  {
    hide Norm, Split;
    assert n != "" ==> n in CutText(text);
  }

  lemma CutTextOfNorm(h: string)
    ensures CutText(Norm(h)) == CutText(Trim(h))
  {
    CutLower(Trim(h));
  }

  lemma PieceOfCut(text: string, n: string) returns (q: string)
    requires n in CutText(text)
    ensures q in Split(text, ',') && Norm(q) == n
  {
    hide Norm, Split;
    q :| q in Split(text, ',') && Norm(q) == n;
  }

  lemma PieceOfTrim(q: string, a: string)
    ensures PieceOf(q, a) <==> q in Split(Trim(a), ',')
  {
    hide Trim, TrimOf, Split;
    TrimIsExact(a, Trim(a));
    if t :| TrimOf(t, a) && q in Split(t, ',') {
      TrimIsExact(a, t);
    }
  }

  lemma OneHeader(p: Parts, header: seq<string>, h: string)
    requires h in header
    ensures Shows(p, [h]) <==> Norm(h) in EnvelopeSet(header) * Envelope(p)
  {
    hide EnvelopeSet, Blank, Norm, Shows;
    ShowsIff(p, [h]);
    OneName(h);
    NotBlankName(h);
    NoEmptyName(header);
    if Norm(h) != "" {
      InOwnSet(header, h);
    }
    if Norm(h) != "" && Norm(h) in Envelope(p) {
      assert Norm(h) in EnvelopeSet([h]) * Envelope(p);
    }
  }

  // ---------- Acceptance ----------

  /** When only Cc shows somebody, a recipient stands among what it shows, cut at commas. */
  ghost predicate CcCarries(p: Parts) {
    exists e, h, q :: e in p.envelopeRecipients && !Blank(e) && h in p.ccHeader && Shows(p, [h]) && PieceOf(q, h) && Alike(q, e)
  }

  lemma CcCarriesIff(p: Parts)
    ensures Envelope(p) * Cut(ShownCc(p)) != {} <==> CcCarries(p)
  {
    hide EnvelopeSet, Blank, Norm, Cut, Shows, PieceOf, Alike;
    if n :| n in Envelope(p) * Cut(ShownCc(p)) {
      var e := NameOf(p.envelopeRecipients, n);
      CutShows(p, p.ccHeader, n);
      var h, q :| h in p.ccHeader && Shows(p, [h]) && PieceOf(q, h) && Norm(q) == n;
      NormIffAlike(q, e);
    }
    if e, h, q :| e in p.envelopeRecipients && !Blank(e) && h in p.ccHeader && Shows(p, [h]) && PieceOf(q, h) && Alike(q, e) {
      InOwnSet(p.envelopeRecipients, e);
      NormIffAlike(q, e);
      CutShows(p, p.ccHeader, Norm(e));
      assert Norm(e) in Envelope(p) * Cut(ShownCc(p));
    }
  }

  lemma NamesSomeoneIff(p: Parts)
    ensures NamesSomeone(p) <==> exists h :: h in p.toHeader + p.ccHeader && !Blank(h)
  {
    hide Trim, Blank;
    forall h
      ensures Trim(h) == "" <==> Blank(h)
    {
      BlankIff(h);
    }
  }

  /** A message is accepted exactly when it has a sender and a recipient, its headers name a recipient if they
      name anybody, and either To names one or, of what Cc names, cut at commas, something is one. */
  lemma AcceptedWhen(p: Parts)
    ensures BuildSubmissionInput(p).Built?
       <==> && (exists s :: IsSender(s, p))
            && (exists e :: e in p.envelopeRecipients && !Blank(e))
            && ((exists h :: h in p.toHeader + p.ccHeader && !Blank(h)) ==> Shows(p, p.toHeader) || Shows(p, p.ccHeader))
            && (Shows(p, p.ccHeader) ==> Shows(p, p.toHeader) || CcCarries(p))
  {
    hide BuildSubmissionInput, IsSender, Blank, Shows, CcCarries, EnvelopeSet, Cut, NamesSomeone;
    AcceptedIff(p);
    SenderIff(p, SenderOf(p));
    if s :| IsSender(s, p) {
      SenderIff(p, s);
    }
    SetIsEmpty(p.envelopeRecipients);
    NamesSomeoneIff(p);
    ShowsIff(p, p.toHeader);
    ShowsIff(p, p.ccHeader);
    CcCarriesIff(p);
  }

  /** Its sender is the From header, or MAIL FROM when there is none, trimmed; no field is there and empty. */
  lemma SenderKept(p: Parts)
    requires BuildSubmissionInput(p).Built?
    ensures IsSender(BuildSubmissionInput(p).input.sender, p)
    ensures var i := BuildSubmissionInput(p).input; i.to != "" && i.cc != Some("") && i.bcc != Some("")
  {
    SenderIff(p, SenderOf(p));
    hide IsSender, SenderOf, ToField, CcField, Deduped, Join, BlindOf, Excluding, NamesSomeone;
  }

  // ---------- Delivery ----------

  /** An address, white space around it aside. */
  ghost predicate IsRecipient(a: string) {
    exists t :: TrimOf(t, a) && IsAddress(t)
  }

  lemma IsRecipientIff(a: string)
    ensures IsRecipient(a) <==> IsAddress(Trim(a))
    ensures IsRecipient(a) <==> IsAddress(Norm(a))
    ensures IsRecipient(a) ==> !Blank(a)
  {
    hide Trim, TrimOf, IsAddress, Blank;
    TrimIsExact(a, Trim(a));
    if t :| TrimOf(t, a) && IsAddress(t) {
      TrimIsExact(a, t);
    }
    NormAlike(a);
    NotBlankName(a);
  }

  ghost predicate EachOnce(rs: seq<Recipient>) {
    forall i, j :: 0 <= i < j < |rs| ==> !Alike(rs[i].address, rs[j].address)
  }

  /** `rs` are the envelope: every recipient once and nobody else; with a header that shows one, those no
      header names are in `bcc` and only there, without one nobody is. */
  ghost predicate GoesToAll(p: Parts, rs: seq<Recipient>) {
    && EachOnce(rs)
    && (forall e :: e in p.envelopeRecipients && !Blank(e) ==> exists r :: r in rs && Alike(r.address, e))
    && (forall r :: r in rs ==> NamedIn(p.envelopeRecipients, r.address))
    && (Shows(p, p.toHeader) || Shows(p, p.ccHeader) ==>
          forall r :: r in rs ==> (r.kind == Bcc <==> !NamedIn(p.toHeader + p.ccHeader, r.address)))
    && (!Shows(p, p.toHeader) && !Shows(p, p.ccHeader) ==> forall r :: r in rs ==> r.kind == To)
  }

  /** Addresses as the parser gives them: trimmed, so their lower case is their name. */
  ghost predicate Plainly(rs: seq<Recipient>) {
    forall r :: r in rs ==> Norm(r.address) == AsciiLower(r.address) && !Blank(r.address)
  }

  lemma ParsedPlainly(to: string, cc: Option<string>, bcc: Option<string>)
    ensures Plainly(Parsed(to, cc, bcc)) && Distinct(Parsed(to, cc, bcc))
  {
    hide Parsed, Names, PiecesOf, Norm, Trim, Distinct, IsAddress, Blank;
    ParsedExactly(to, cc, bcc);
    var rs := Parsed(to, cc, bcc);
    InLowers(rs);
    forall r | r in rs
      ensures Norm(r.address) == AsciiLower(r.address) && !Blank(r.address)
    {
      ParsedName(to, cc, bcc, r);
    }
  }

  lemma ParsedName(to: string, cc: Option<string>, bcc: Option<string>, r: Recipient)
    requires r in Parsed(to, cc, bcc)
    ensures Norm(r.address) == AsciiLower(r.address) && !Blank(r.address)
  {
    hide Parsed, PiecesOf, Trim, Distinct, IsAddress, Blank, AsciiLower;
    ParsedExactly(to, cc, bcc);
    var rs := Parsed(to, cc, bcc);
    InLowers(rs);
    var a := AsciiLower(r.address);
    var p :| r.address == Trim(p);
    TrimLower(p);
    NamesAre(PiecesOf(Some(to)));
    NamesAre(PiecesOf(cc));
    NamesAre(PiecesOf(bcc));
    hide Names;
    assert IsAddress(a);
    NotEmptyAddress(a);
    NotBlankName(r.address);
  }

  lemma EachOnceIff(rs: seq<Recipient>)
    requires Plainly(rs) && Distinct(rs)
    ensures EachOnce(rs)
  {
    hide Norm, Blank, Alike;
    forall i, j | 0 <= i < j < |rs|
      ensures !Alike(rs[i].address, rs[j].address)
    {
      assert rs[i] in rs && rs[j] in rs;
      NormIffAlike(rs[i].address, rs[j].address);
    }
  }

  lemma LowersCover(p: Parts, rs: seq<Recipient>)
    requires Plainly(rs)
    ensures Lowers(rs) == Envelope(p)
       <==> && (forall e :: e in p.envelopeRecipients && !Blank(e) ==> exists r :: r in rs && Alike(r.address, e))
            && (forall r :: r in rs ==> NamedIn(p.envelopeRecipients, r.address))
  {
    hide Norm, Blank, Alike, EnvelopeSet, NamedIn;
    InLowers(rs);
    forall r | r in rs
      ensures AsciiLower(r.address) in Envelope(p) <==> NamedIn(p.envelopeRecipients, r.address)
    {
      NameIn(p.envelopeRecipients, r.address);
    }
    forall e | e in p.envelopeRecipients && !Blank(e)
      ensures Norm(e) in Envelope(p)
      ensures Norm(e) in Lowers(rs) <==> exists r :: r in rs && Alike(r.address, e)
    {
      InOwnSet(p.envelopeRecipients, e);
      LowersNamed(rs, e);
    }
    if forall e :: e in p.envelopeRecipients && !Blank(e) ==> exists r :: r in rs && Alike(r.address, e) {
      forall n | n in Envelope(p)
        ensures n in Lowers(rs)
      {
        var e := NameOf(p.envelopeRecipients, n);
      }
    }
  }

  lemma LowersNamed(rs: seq<Recipient>, e: string)
    requires Plainly(rs)
    ensures Norm(e) in Lowers(rs) <==> exists r :: r in rs && Alike(r.address, e)
  {
    hide Norm, Blank, Alike;
    forall r | r in rs
      ensures AsciiLower(r.address) == Norm(e) <==> Alike(r.address, e)
    {
      NormIffAlike(r.address, e);
    }
  }

  lemma HeaderNames(p: Parts, a: string)
    requires !Blank(a)
    ensures Norm(a) in EnvelopeSet(p.toHeader) + EnvelopeSet(p.ccHeader) <==> NamedIn(p.toHeader + p.ccHeader, a)
  {
    hide Norm, Blank, Alike, EnvelopeSet, NamedIn;
    EnvelopeConcat(p.toHeader, p.ccHeader);
    NameIn(p.toHeader + p.ccHeader, a);
  }

  lemma KindsAlike(p: Parts, rs: seq<Recipient>)
    requires Plainly(rs)
    ensures (forall r :: r in rs ==>
               (r.kind == Bcc <==> AsciiLower(r.address) !in EnvelopeSet(p.toHeader) + EnvelopeSet(p.ccHeader)))
       <==> forall r :: r in rs ==> (r.kind == Bcc <==> !NamedIn(p.toHeader + p.ccHeader, r.address))
  {
    hide Norm, Blank, EnvelopeSet, NamedIn;
    forall r | r in rs
      ensures AsciiLower(r.address) in EnvelopeSet(p.toHeader) + EnvelopeSet(p.ccHeader)
         <==> NamedIn(p.toHeader + p.ccHeader, r.address)
    {
      HeaderNames(p, r.address);
    }
  }

  lemma GoesToAllIff(p: Parts, rs: seq<Recipient>)
    requires Plainly(rs) && Distinct(rs)
    ensures ReachesEnvelope(p, rs) <==> GoesToAll(p, rs)
  {
    hide Plainly, Norm, Blank, Alike, EnvelopeSet, NamedIn, Distinct, Lowers, Shows, EachOnce;
    EachOnceIff(rs);
    LowersCover(p, rs);
    ShowsIff(p, p.toHeader);
    ShowsIff(p, p.ccHeader);
    KindsAlike(p, rs);
  }

  /** An accepted message reaches every recipient of its envelope exactly once and nobody else if and only if
      each RCPT TO that is not blank is an address. */
  lemma GoesToAllWhen(p: Parts)
    requires BuildSubmissionInput(p).Built?
    ensures GoesToAll(p, DeliveredTo(BuildSubmissionInput(p).input))
       <==> forall e :: e in p.envelopeRecipients && !Blank(e) ==> IsRecipient(e)
  {
    hide BuildSubmissionInput, Blank, IsRecipient, Parsed, GoesToAll, ReachesEnvelope, Trim, IsAddress;
    var i := BuildSubmissionInput(p).input;
    DeliversTheEnvelope(p);
    ParsedPlainly(i.to, i.cc, i.bcc);
    GoesToAllIff(p, DeliveredTo(i));
    forall e | e in p.envelopeRecipients
      ensures (Trim(e) == "" <==> Blank(e)) && (IsAddress(Trim(e)) <==> IsRecipient(e))
    {
      BlankIff(e);
      IsRecipientIff(e);
    }
  }

  /** Whatever the recipients of an accepted message: every address that stands between commas of one gets it,
      each once, and nobody else. */
  lemma GoesToAddresses(p: Parts)
    requires BuildSubmissionInput(p).Built?
    ensures var rs := DeliveredTo(BuildSubmissionInput(p).input);
            && EachOnce(rs)
            && (forall e, q :: e in p.envelopeRecipients && PieceOf(q, e) && IsRecipient(q) ==> exists r :: r in rs && Alike(r.address, q))
            && (forall r :: r in rs ==> exists e, q :: e in p.envelopeRecipients && PieceOf(q, e) && IsRecipient(q) && Alike(q, r.address))
  {
    hide BuildSubmissionInput, Blank, IsRecipient, Parsed, Trim, IsAddress, Cut, EnvelopeSet, Norm, Alike, PieceOf,
         Distinct, Addresses, EachOnce, Lowers;
    var i := BuildSubmissionInput(p).input;
    var rs := DeliveredTo(i);
    DeliveredExactly(p);
    ParsedPlainly(i.to, i.cc, i.bcc);
    EachOnceIff(rs);
    InLowers(rs);
    forall e, q | e in p.envelopeRecipients && PieceOf(q, e) && IsRecipient(q)
      ensures exists r :: r in rs && Alike(r.address, q)
    {
      PieceIsCut(p, e, q);
      LowersNamed(rs, q);
    }
    forall r | r in rs
      ensures exists e, q :: e in p.envelopeRecipients && PieceOf(q, e) && IsRecipient(q) && Alike(q, r.address)
    {
      var e, q := CutIsPiece(p, AsciiLower(r.address));
      NormIffAlike(q, r.address);
    }
  }

  lemma PieceIsCut(p: Parts, e: string, q: string)
    requires e in p.envelopeRecipients && PieceOf(q, e) && IsRecipient(q)
    ensures Norm(q) in Addresses(Cut(Envelope(p)))
  {
    hide Blank, IsRecipient, Trim, IsAddress, Cut, EnvelopeSet, Norm, PieceOf, Split, CutText;
    PieceOfTrim(q, e);
    IsRecipientIff(q);
    NotBlankName(q);
    CutTextOfNorm(e);
    EnvelopeHasPiece(p, e, q);
    CutHas(Envelope(p), Norm(e), Trim(e), q, Norm(q));
  }

  lemma EnvelopeHasPiece(p: Parts, e: string, q: string)
    requires e in p.envelopeRecipients && q in Split(Trim(e), ',') && Norm(q) != ""
    ensures Norm(e) in Envelope(p)
  {
    hide Split, Trim;
    EmptyNorm(e);
    NothingCut();
    if Trim(e) == "" {
      assert q == "";
      EmptyNorm(q);
    }
  }

  lemma NothingCut()
    ensures Split("", ',') == [""]
  {
  }

  lemma CutIsPiece(p: Parts, n: string) returns (e: string, q: string)
    requires n in Addresses(Cut(Envelope(p)))
    ensures e in p.envelopeRecipients && PieceOf(q, e) && IsRecipient(q) && Norm(q) == n
  {
    hide Blank, IsRecipient, Trim, IsAddress, Cut, EnvelopeSet, Norm, PieceOf, Split;
    var m := CutFrom(Envelope(p), n);
    e := NameOf(p.envelopeRecipients, m);
    CutTextOfNorm(e);
    q := PieceOfCut(Trim(e), n);
    PieceOfTrim(q, e);
    IsRecipientIff(q);
  }
}
