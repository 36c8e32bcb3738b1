/** Recipient parsing and grouping (src/utils/recipients.ts). White space and lower case are ASCII's. */
module Recipients {
  import opened Wrappers
  import opened AsciiText

  datatype Kind = To | Cc | Bcc

  datatype Recipient = Recipient(kind: Kind, address: string, domain: string)

  /** One domain and its recipients; the groups stand in the order their domains were first seen. */
  datatype Group = Group(domain: string, members: seq<Recipient>)

  const MAX_ADDRESS_LENGTH := 254

  // ---------- Text ----------

  predicate IsSpace(c: char) {
    c == ' ' || '\t' <= c <= '\r'
  }

  function TrimLeft(s: string): string {
    if s != "" && IsSpace(s[0]) then TrimLeft(s[1..]) else s
  }

  function TrimRight(s: string): string {
    if s != "" && IsSpace(s[|s| - 1]) then TrimRight(s[..|s| - 1]) else s
  }

  function Trim(s: string): string {
    TrimRight(TrimLeft(s))
  }

  /** `join(", ")`. */
  function Join(parts: seq<string>): string {
    if parts == [] then ""
    else if |parts| == 1 then parts[0]
    else parts[0] + ", " + Join(parts[1..])
  }

  // ---------- Addresses ----------

  /** A character the address pattern allows on either side of the `@`. */
  predicate PlainChar(c: char) {
    !IsSpace(c) && c != '@' && c != ',' && c != '<' && c != '>' && c != '"'
  }

  predicate AllPlain(s: string) {
    forall i :: 0 <= i < |s| ==> PlainChar(s[i])
  }

  /** At least two labels between dots, none empty. */
  predicate IsDomain(d: string) {
    && AllPlain(d) && '.' in d && d[0] != '.' && d[|d| - 1] != '.'
    && forall i :: 0 <= i < |d| - 1 ==> d[i] != '.' || d[i + 1] != '.'
  }

  /** `EMAIL_RE`. */
  predicate IsEmail(s: string) {
    var n := Before(s, '@');
    0 < n < |s| && AllPlain(s[..n]) && IsDomain(s[n + 1..])
  }

  predicate IsAddress(s: string) {
    |s| <= MAX_ADDRESS_LENGTH && IsEmail(s)
  }

  /** What follows the last `@`, lowercased. */
  function DomainOf(s: string): string
    decreases |s|
  {
    var n := Before(s, '@');
    if n == |s| then AsciiLower(s) else DomainOf(s[n + 1..])
  }

  // ---------- Parsing ----------

  function Lowers(rs: seq<Recipient>): set<string> {
    set r | r in rs :: AsciiLower(r.address)
  }

  /** The recipients after one more piece of a field. */
  function Ingest(before: seq<Recipient>, piece: string, kind: Kind): seq<Recipient> {
    var trimmed := Trim(piece);
    if !IsAddress(trimmed) || AsciiLower(trimmed) in Lowers(before) then before
    else before + [Recipient(kind, trimmed, DomainOf(trimmed))]
  }

  function IngestAll(before: seq<Recipient>, pieces: seq<string>, kind: Kind): seq<Recipient> {
    if pieces == [] then before
    else Ingest(IngestAll(before, pieces[..|pieces| - 1], kind), pieces[|pieces| - 1], kind)
  }

  /** A field that is not there, or empty, holds none. */
  function PiecesOf(raw: Option<string>): seq<string> {
    if raw.None? || raw.value == "" then [] else Split(raw.value, ',')
  }

  function Parsed(to: string, cc: Option<string>, bcc: Option<string>): seq<Recipient> {
    IngestAll(IngestAll(IngestAll([], PiecesOf(Some(to)), To), PiecesOf(cc), Cc), PiecesOf(bcc), Bcc)
  }

  /** The inner `ingest` of `parseRecipients`; the map by lowercased address is `seen` and `out`. */
  method IngestField(before: seq<Recipient>, lowers: set<string>, raw: Option<string>, kind: Kind)
      returns (out: seq<Recipient>, seen: set<string>)
    requires lowers == Lowers(before)
    ensures out == IngestAll(before, PiecesOf(raw), kind) && seen == Lowers(out)
  {
    hide Trim, DomainOf, Lowers, AllPlain, IsDomain;
    out, seen := before, lowers;
    if raw.None? || raw.value == "" {
      return;
    }
    var pieces := Split(raw.value, ',');
    for i := 0 to |pieces|
      invariant out == IngestAll(before, pieces[..i], kind) && seen == Lowers(out)
    {
      assert pieces[..i + 1][..i] == pieces[..i];
      var trimmed := Trim(pieces[i]);
      if trimmed == "" || |trimmed| > MAX_ADDRESS_LENGTH || !IsEmail(trimmed) {
        continue;
      }
      var lower := AsciiLower(trimmed);
      if lower in seen {
        continue;
      }
      LowersGrow(out, Recipient(kind, trimmed, DomainOf(trimmed)));
      out := out + [Recipient(kind, trimmed, DomainOf(trimmed))];
      seen := seen + {lower};
    }
    assert pieces[..|pieces|] == pieces;
  }

  lemma LowersGrow(rs: seq<Recipient>, r: Recipient)
    ensures Lowers(rs + [r]) == Lowers(rs) + {AsciiLower(r.address)}
  {
    assert forall x :: x in rs + [r] <==> x in rs || x == r;
    forall s | s in Lowers(rs) + {AsciiLower(r.address)}
      ensures s in Lowers(rs + [r])
    {
      if s in Lowers(rs) {
        var x :| x in rs && AsciiLower(x.address) == s;
        assert x in rs + [r];
      } else {
        assert r in rs + [r];
      }
    }
  }

  /** `parseRecipients`. */
  method ParseRecipients(to: string, cc: Option<string>, bcc: Option<string>) returns (out: seq<Recipient>)
    ensures out == Parsed(to, cc, bcc)
  {
    var seen: set<string>;
    assert Lowers([]) == {};
    out, seen := IngestField([], {}, Some(to), To);
    out, seen := IngestField(out, seen, cc, Cc);
    out, seen := IngestField(out, seen, bcc, Bcc);
  }

  // ---------- Grouping ----------

  function InDomain(rs: seq<Recipient>, domain: string): seq<Recipient> {
    if rs == [] then []
    else InDomain(rs[..|rs| - 1], domain) + (if rs[|rs| - 1].domain == domain then [rs[|rs| - 1]] else [])
  }

  /** Every group holds its domain's recipients in order, no domain has two groups, and none is left out. */
  ghost predicate Grouped(groups: seq<Group>, rs: seq<Recipient>) {
    && (forall i :: 0 <= i < |groups| ==> groups[i].members == InDomain(rs, groups[i].domain) && groups[i].members != [])
    && (forall i, j :: 0 <= i < j < |groups| ==> groups[i].domain != groups[j].domain)
    && (forall r :: r in rs ==> exists i :: 0 <= i < |groups| && groups[i].domain == r.domain)
  }

  /** The domains, each where it comes first. */
  function FirstSeen(rs: seq<Recipient>): seq<string> {
    if rs == [] then []
    else
      var before := FirstSeen(rs[..|rs| - 1]);
      if rs[|rs| - 1].domain in before then before else before + [rs[|rs| - 1].domain]
  }

  ghost predicate InOrder(groups: seq<Group>, domains: seq<string>) {
    |groups| == |domains| && forall i :: 0 <= i < |groups| ==> groups[i].domain == domains[i]
  }

  /** `groupByDomain`. */
  method GroupByDomain(rs: seq<Recipient>) returns (groups: seq<Group>)
    ensures Grouped(groups, rs) && InOrder(groups, FirstSeen(rs))
  {
    hide InDomain, Grouped, InOrder, FirstSeen;
    groups := [];
    NoGroups();
    assert rs[..0] == [];
    for k := 0 to |rs|
      invariant Grouped(groups, rs[..k]) && InOrder(groups, FirstSeen(rs[..k]))
    {
      var r := rs[k];
      assert rs[..k + 1] == rs[..k] + [r];
      var i := 0;
      while i < |groups| && groups[i].domain != r.domain
        invariant 0 <= i <= |groups| && forall j :: 0 <= j < i ==> groups[j].domain != r.domain
      {
        i := i + 1;
      }
      if i < |groups| {
        GroupJoined(groups, rs[..k], r, i);
        SeenBefore(groups, rs[..k], r, i);
        groups := groups[i := Group(r.domain, groups[i].members + [r])];
      } else {
        GroupAdded(groups, rs[..k], r);
        SeenNow(groups, rs[..k], r);
        groups := groups + [Group(r.domain, [r])];
      }
    }
    assert rs[..|rs|] == rs;
  }

  lemma NoGroups()
    ensures Grouped([], []) && InOrder([], FirstSeen([]))
  {
  }

  lemma SeenBefore(groups: seq<Group>, rs: seq<Recipient>, r: Recipient, i: nat)
    requires InOrder(groups, FirstSeen(rs)) && i < |groups| && groups[i].domain == r.domain
    ensures InOrder(groups[i := Group(r.domain, groups[i].members + [r])], FirstSeen(rs + [r]))
  {
    assert (rs + [r])[..|rs|] == rs;
    assert FirstSeen(rs)[i] == r.domain;
  }

  lemma SeenNow(groups: seq<Group>, rs: seq<Recipient>, r: Recipient)
    requires InOrder(groups, FirstSeen(rs)) && forall j :: 0 <= j < |groups| ==> groups[j].domain != r.domain
    ensures InOrder(groups + [Group(r.domain, [r])], FirstSeen(rs + [r]))
  {
    assert (rs + [r])[..|rs|] == rs;
    assert forall j :: 0 <= j < |groups| ==> FirstSeen(rs)[j] == groups[j].domain;
  }

  lemma InDomainLast(rs: seq<Recipient>, r: Recipient, domain: string)
    ensures InDomain(rs + [r], domain) == InDomain(rs, domain) + (if r.domain == domain then [r] else [])
  {
    assert (rs + [r])[..|rs|] == rs;
  }

  lemma GroupJoined(groups: seq<Group>, rs: seq<Recipient>, r: Recipient, i: nat)
    requires Grouped(groups, rs) && i < |groups| && groups[i].domain == r.domain
    ensures Grouped(groups[i := Group(r.domain, groups[i].members + [r])], rs + [r])
  {
    hide InDomain;
    var after := groups[i := Group(r.domain, groups[i].members + [r])];
    forall j | 0 <= j < |after|
      ensures after[j].members == InDomain(rs + [r], after[j].domain) && after[j].members != []
    {
      assert groups[j].members == InDomain(rs, groups[j].domain);
      InDomainLast(rs, r, after[j].domain);
    }
    forall x | x in rs + [r]
      ensures exists j :: 0 <= j < |after| && after[j].domain == x.domain
    {
      if x in rs {
        var j :| 0 <= j < |groups| && groups[j].domain == x.domain;
        assert after[j].domain == x.domain;
      } else {
        assert after[i].domain == x.domain;
      }
    }
  }

  lemma {:induction false} NoneInDomain(rs: seq<Recipient>, domain: string)
    requires forall r :: r in rs ==> r.domain != domain
    ensures InDomain(rs, domain) == []
  {
    if rs != [] {
      NoneInDomain(rs[..|rs| - 1], domain);
    }
  }

  lemma GroupAdded(groups: seq<Group>, rs: seq<Recipient>, r: Recipient)
    requires Grouped(groups, rs) && forall j :: 0 <= j < |groups| ==> groups[j].domain != r.domain
    ensures Grouped(groups + [Group(r.domain, [r])], rs + [r])
  {
    hide InDomain;
    var after := groups + [Group(r.domain, [r])];
    NoneInDomain(rs, r.domain);
    forall j | 0 <= j < |after|
      ensures after[j].members == InDomain(rs + [r], after[j].domain) && after[j].members != []
    {
      assert j < |groups| ==> after[j] == groups[j];
      InDomainLast(rs, r, after[j].domain);
    }
    forall x | x in rs + [r]
      ensures exists j :: 0 <= j < |after| && after[j].domain == x.domain
    {
      if x in rs {
        var j :| 0 <= j < |groups| && groups[j].domain == x.domain;
        assert after[j].domain == x.domain;
      } else {
        assert after[|groups|].domain == x.domain;
      }
    }
  }
}
