/** From an SMTP submission to recipients (src/modules/smtp-submission/message-mapper.ts:45-57, 287-369): the
    envelope decides who gets the mail, the headers who is seen. */
module Submission {
  import opened Wrappers
  import opened AsciiText
  import opened Recipients

  datatype Parts = Parts(
    envelopeFrom: Option<string>,
    fromHeader: Option<string>,
    envelopeRecipients: seq<string>,
    toHeader: seq<string>,
    ccHeader: seq<string>)

  /** An empty `cc` or `bcc` is left out. */
  datatype Input = Input(sender: string, to: string, cc: Option<string>, bcc: Option<string>)

  datatype Rejection = MissingSender | NoneInEnvelope | NoRecipients

  datatype Result = Built(input: Input) | Rejected(reason: Rejection)

  /** How addresses are compared. */
  function Norm(address: string): string {
    AsciiLower(Trim(address))
  }

  function LowerSet(addresses: seq<string>): set<string> {
    set a | a in addresses :: AsciiLower(a)
  }

  function Deduped(addresses: seq<string>): seq<string> {
    if addresses == [] then []
    else
      var before := Deduped(addresses[..|addresses| - 1]);
      var address := Trim(addresses[|addresses| - 1]);
      if address == "" || AsciiLower(address) in LowerSet(before) then before else before + [address]
  }

  /** `dedupeJoin`. */
  method DedupeJoin(addresses: seq<string>) returns (joined: string)
    ensures joined == Join(Deduped(addresses))
  {
    hide Trim;
    var seen: set<string> := {};
    var out: seq<string> := [];
    for i := 0 to |addresses|
      invariant out == Deduped(addresses[..i]) && seen == LowerSet(out)
    {
      assert addresses[..i + 1][..i] == addresses[..i];
      var address := Trim(addresses[i]);
      if address == "" {
        continue;
      }
      var lower := AsciiLower(address);
      if lower in seen {
        continue;
      }
      LowerSetGrows(out, address);
      seen := seen + {lower};
      out := out + [address];
    }
    assert addresses[..|addresses|] == addresses;
    return Join(out);
  }

  lemma LowerSetGrows(out: seq<string>, address: string)
    ensures LowerSet(out + [address]) == LowerSet(out) + {AsciiLower(address)}
  {
    assert forall a :: a in out + [address] <==> a in out || a == address;
    forall s | s in LowerSet(out) + {AsciiLower(address)}
      ensures s in LowerSet(out + [address])
    {
      if s in LowerSet(out) {
        var a :| a in out && AsciiLower(a) == s;
        assert a in out + [address];
      } else {
        assert address in out + [address];
      }
    }
  }

  // ---------- buildSubmissionInput ----------

  /** The addresses whose comparison form is in `names`. */
  function Named(addresses: seq<string>, names: set<string>): seq<string> {
    if addresses == [] then []
    else (if Norm(addresses[0]) in names then [addresses[0]] else []) + Named(addresses[1..], names)
  }

  /** Those whose comparison form is not, empty strings left out. */
  function Unnamed(addresses: seq<string>, names: set<string>): seq<string> {
    if addresses == [] then []
    else (if addresses[0] != "" && Norm(addresses[0]) !in names then [addresses[0]] else []) + Unnamed(addresses[1..], names)
  }

  function Excluding(addresses: seq<string>, others: seq<string>): seq<string> {
    if addresses == [] then []
    else (if addresses[0] !in others then [addresses[0]] else []) + Excluding(addresses[1..], others)
  }

  function EnvelopeSet(addresses: seq<string>): set<string> {
    (set a | a in addresses :: Norm(a)) - {""}
  }

  /** `[to, cc].filter(Boolean).join(", ").split(",")`, trimmed and lowercased. */
  function VisibleSet(to: string, cc: string): set<string> {
    var shown := if to == "" then cc else if cc == "" then to else to + ", " + cc;
    (set p | p in Split(shown, ',') :: Norm(p)) - {""}
  }

  function SenderOf(p: Parts): string {
    if p.fromHeader.Some? && Trim(p.fromHeader.value) != "" then Trim(p.fromHeader.value)
    else if p.envelopeFrom.Some? then Trim(p.envelopeFrom.value)
    else ""
  }

  function Present(field: string): Option<string> {
    if field == "" then None else Some(field)
  }

  predicate NamesSomeone(p: Parts) {
    exists a :: a in p.toHeader + p.ccHeader && Trim(a) != ""
  }

  function ToField(p: Parts): string {
    Join(Deduped(Named(p.toHeader, EnvelopeSet(p.envelopeRecipients))))
  }

  function CcField(p: Parts): string {
    Join(Deduped(Named(p.ccHeader, EnvelopeSet(p.envelopeRecipients))))
  }

  function BlindOf(p: Parts): seq<string> {
    Unnamed(p.envelopeRecipients, VisibleSet(ToField(p), CcField(p)))
  }

  function BuildSubmissionInput(p: Parts): Result {
    var sender := SenderOf(p);
    if sender == "" then Rejected(MissingSender)
    else
      var to, cc := ToField(p), CcField(p);
      var hasVisibleHeader := to != "" || cc != "";
      if NamesSomeone(p) && !hasVisibleHeader then Rejected(NoneInEnvelope)
      else
        var blind := BlindOf(p);
        var bcc := if hasVisibleHeader then Join(Deduped(blind)) else "";
        var toField := if !hasVisibleHeader then Join(Deduped(p.envelopeRecipients))
                       else if to != "" then to
                       else Join(Deduped(Excluding(p.envelopeRecipients, blind)));
        if toField == "" then Rejected(NoRecipients)
        else Built(Input(sender, toField, Present(cc), Present(bcc)))
  }

  /** `buildSubmissionInput`: its joins through `dedupeJoin`. */
  method Build(p: Parts) returns (r: Result)
    ensures r == BuildSubmissionInput(p)
  {
    hide Trim, Deduped, Join;
    var sender := SenderOf(p);
    if sender == "" {
      return Rejected(MissingSender);
    }
    var envelope := EnvelopeSet(p.envelopeRecipients);
    var to := DedupeJoin(Named(p.toHeader, envelope));
    var cc := DedupeJoin(Named(p.ccHeader, envelope));
    var hasVisibleHeader := to != "" || cc != "";
    if NamesSomeone(p) && !hasVisibleHeader {
      return Rejected(NoneInEnvelope);
    }
    var visible := VisibleSet(to, cc);
    var toField, bcc;
    if hasVisibleHeader {
      var blind := Unnamed(p.envelopeRecipients, visible);
      bcc := DedupeJoin(blind);
      toField := to;
      if toField == "" {
        toField := DedupeJoin(Excluding(p.envelopeRecipients, blind));
      }
    } else {
      toField := DedupeJoin(p.envelopeRecipients);
      bcc := "";
    }
    if toField == "" {
      return Rejected(NoRecipients);
    }
    return Built(Input(sender, toField, Present(cc), Present(bcc)));
  }
}
