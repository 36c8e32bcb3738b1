/** The texts that parse as IPv6 are exactly the forms of RFC 4291 section 2.2, in either case and with any
    zone (src/utils/ssrf-guard.ts:78-107). */
module IpConverse {
  import opened Wrappers
  import opened AsciiText
  import opened Numerals
  import opened IpText
  import opened IpForms

  /** `ip` is this form with this zone. */
  predicate Writes(f: Form, zone: string, ip: string) {
    WellFormed(f) && IsZone(zone) && ip == Text(f) + zone
  }

  // ---------- Without a quad ----------

  /** The fields of a half. */
  function FieldsOf(part: string): seq<string> {
    if part == "" then [] else Split(part, ':')
  }

  lemma GroupsGlue(part: string)
    requires GroupsOf(part).Some?
    ensures AllHex(FieldsOf(part)) && Glue(FieldsOf(part), ':') == part
    ensures |FieldsOf(part)| == |GroupsOf(part).value|
  {
    SplitGlue(part, ':');
    hide Split, IsHexField, FieldValues;
  }

  lemma HalvesJoin(s: string)
    ensures |Halves(s)| == 1 ==> s == Halves(s)[0]
    ensures |Halves(s)| == 2 ==> s == Halves(s)[0] + "::" + Halves(s)[1]
  {
    var n := BeforeDouble(s);
    if n < |s| {
      var rest := s[n + 2..];
      assert s == s[..n] + "::" + rest;
      assert Halves(s)[0] == s[..n] && Halves(s)[1..] == Halves(rest);
      if |Halves(rest)| == 1 {
        assert BeforeDouble(rest) == |rest|;
        assert Halves(s)[1] == Halves(rest)[0] == rest;
      }
    }
  }

  /** A body that parses is a form without a quad. */
  lemma BodyIsForm(s: string) returns (f: Form)
    requires ParseBody(s).Some?
    ensures Core(f) && f.quad.None? && Text(f) == s
  {
    hide GroupsOf, Halves, AllHex, Glue, FieldsOf;
    HalvesJoin(s);
    var halves := Halves(s);
    GroupsGlue(halves[0]);
    var head := FieldsOf(halves[0]);
    assert head + [] == head;
    if |halves| == 1 {
      NoHex();
      f := Form(head, None, None);
    } else {
      GroupsGlue(halves[1]);
      var tail := FieldsOf(halves[1]);
      assert tail + [] == tail;
      f := Form(head, Some(tail), None);
    }
  }

  lemma NoHex()
    ensures AllHex([])
  {
  }

  // ---------- With a quad ----------

  ghost predicate EndsInColon(p: string) {
    p != "" && p[|p| - 1] == ':'
  }

  lemma BeforeLast(x: string, b: string)
    requires ':' !in b
    ensures var s := x + ":" + b;
            AfterLastColon(s) == |x| + 1 && s[..|x|] == x
  {
    LastColon(x + ":", b);
  }

  /** The last two fields of a text and what stands before them are determined. */
  lemma LastTwo(p: string, a: string, b: string, p': string, a': string, b': string)
    requires EndsInColon(p) && EndsInColon(p') && ':' !in a && ':' !in b && ':' !in a' && ':' !in b'
    requires p + a + ":" + b == p' + a' + ":" + b'
    ensures p == p'
  {
    BeforeLast(p + a, b);
    BeforeLast(p' + a', b');
    LastColon(p, a);
    LastColon(p', a');
    assert (p + a)[..|p|] == p && (p' + a')[..|p'|] == p';
  }

  /** A text cannot end in a field just after `::` and in two fields. */
  lemma OneIsNotTwo(x: string, b: string, p: string, a: string, b': string)
    requires EndsInColon(x) && ':' !in b && ':' !in a && a != "" && ':' !in b'
    ensures x + ":" + b != p + a + ":" + b'
  {
    BeforeLast(x, b);
    BeforeLast(p + a, b');
    NotInColon(p, a);
  }

  lemma LastPair(fields: seq<string>) returns (rest: seq<string>, pair: seq<string>)
    requires AllHex(fields) && |fields| >= 2
    ensures fields == rest + pair && |pair| == 2 && AllHex(rest) && ':' !in pair[0] && ':' !in pair[1]
  {
    hide IsHexField;
    rest, pair := fields[..|fields| - 2], fields[|fields| - 2..];
    assert forall h :: h in rest ==> h in fields;
    assert pair[0] in fields && pair[1] in fields;
    FieldChars(pair[0]);
    FieldChars(pair[1]);
  }

  /** What stands before the last two fields. */
  function Lead(f: Form): string {
    match f.tail
    case None => if f.head == [] then "" else Glue(f.head, ':') + ":"
    case Some(tail) => Glue(f.head, ':') + "::" + (if tail == [] then "" else Glue(tail, ':') + ":")
  }

  lemma FieldsThenPair(fields: seq<string>, pair: seq<string>)
    requires |pair| == 2
    ensures Glue(fields + pair, ':') == Lead(Form(fields, None, None)) + pair[0] + ":" + pair[1]
  {
    TwoMore(fields, pair, ':');
    hide Glue;
  }

  lemma LeadThenPair(f: Form, pair: seq<string>)
    requires |pair| == 2 && f.tail.Some?
    ensures Glue(f.head, ':') + "::" + Glue(f.tail.value + pair, ':') == Lead(f) + pair[0] + ":" + pair[1]
  {
    hide Glue;
    var x, y := Glue(f.head, ':') + "::", Lead(Form(f.tail.value, None, None));
    FieldsThenPair(f.tail.value, pair);
    assert Lead(f) == x + y;
    Regroup(x, y, pair[0], ":" + pair[1]);
    assert y + pair[0] + ":" + pair[1] == y + pair[0] + (":" + pair[1]);
    assert x + y + pair[0] + ":" + pair[1] == x + y + pair[0] + (":" + pair[1]);
  }

  lemma Regroup(x: string, y: string, a: string, b: string)
    ensures x + (y + a + b) == x + y + a + b
  {
  }

  lemma LeadThenQuad(f: Form)
    requires f.quad.Some?
    ensures Text(f) == Lead(f) + f.quad.value
  {
    hide Glue;
    GlueLast(f.head, f.quad.value, ':');
    GlueLast(TailOf(f), f.quad.value, ':');
  }

  lemma LeadEnds(f: Form)
    requires f.tail.Some? || f.head != []
    ensures EndsInColon(Lead(f))
  {
    hide Glue;
  }

  /** A form that ends in the hex fields of a quad is a form with that quad. */
  lemma QuadIsForm(p: string, q: string, g: Form) returns (f: Form)
    requires EndsInColon(p) && IsQuad(q) && Core(g) && g.quad.None?
    requires Text(g) == p + HexOf(q)[0] + ":" + HexOf(q)[1]
    ensures Core(f) && Text(f) == p + q
  {
    hide IsQuad, HexOf, AllHex, Glue;
    var pair := HexOf(q);
    HexPair(q);
    var rest, last;
    match g.tail {
      case None =>
        assert g.head + [] == g.head;
        rest, last := LastPair(g.head);
        f := Form(rest, None, Some(q));
        FieldsThenPair(rest, last);
        assert Lead(Form(f.head, None, None)) == Lead(f);
      case Some(tail) =>
        assert tail + [] == tail;
        if |tail| < 2 {
          TwoFieldsNeeded(g.head, tail, p, pair);
          assert false;
        }
        rest, last := LastPair(tail);
        f := Form(g.head, Some(rest), Some(q));
        LeadThenPair(f, last);
    }
    LeadEnds(f);
    LastTwo(p, pair[0], pair[1], Lead(f), last[0], last[1]);
    LeadThenQuad(f);
    NoHex();
  }

  lemma HexPair(q: string)
    requires IsQuad(q)
    ensures var pair := HexOf(q);
            |pair| == 2 && ':' !in pair[0] && ':' !in pair[1] && pair[0] != "" && pair[1] != ""
  {
    HexOfReads(q);
    PairOf(q);
    hide IsHexField, HexOf;
    var pair := HexOf(q);
    assert pair[0] in pair && pair[1] in pair;
    FieldChars(pair[0]);
    FieldChars(pair[1]);
  }

  /** A text that ends in two fields has both after its `::`. */
  lemma TwoFieldsNeeded(head: seq<string>, tail: seq<string>, p: string, pair: seq<string>)
    requires AllHex(tail) && |tail| < 2 && |pair| == 2
    requires ':' !in pair[0] && ':' !in pair[1] && pair[0] != "" && pair[1] != ""
    ensures Glue(head, ':') + "::" + Glue(tail, ':') != p + pair[0] + ":" + pair[1]
  {
    hide IsHexField;
    var x := Glue(head, ':') + ":";
    if tail == [] {
      NotInColon(p + pair[0] + ":", pair[1]);
      assert EndsInColon(Glue(head, ':') + "::" + Glue(tail, ':'));
    } else {
      FieldChars(tail[0]);
      OneIsNotTwo(x, tail[0], p, pair[0], pair[1]);
      hide Glue;
      assert Glue(head, ':') + "::" + tail[0] == x + ":" + tail[0];
      assert Glue(tail, ':') == tail[0] by {
        GlueOne(tail);
      }
    }
  }

  lemma GlueOne(fields: seq<string>)
    requires |fields| == 1
    ensures Glue(fields, ':') == fields[0]
  {
  }

  lemma NotInColon(x: string, b: string)
    requires b != "" && ':' !in b
    ensures !EndsInColon(x + b)
  {
    assert b[|b| - 1] in b;
  }

  /** A lower-case text that parses is a form. */
  lemma CoreOf(s: string) returns (f: Form)
    requires QuadExpanded(s).Some? && ParseBody(QuadExpanded(s).value).Some?
    ensures Core(f) && Text(f) == s
  {
    var at := AfterLastColon(s);
    hide ParseBody, Text, Core, Fold, Numerals.Numeral;
    f := BodyIsForm(QuadExpanded(s).value);
    if at > 0 && IsQuadText(s[at..]) {
      FoldBelow(s[at..]);
      f := QuadIsForm(s[..at], s[at..], f);
      assert s[..at] + s[at..] == s;
    }
  }

  // ---------- Either case ----------

  lemma LowerSlice(s: string, i: nat, j: nat)
    requires i <= j <= |s|
    ensures AsciiLower(s[i..j]) == AsciiLower(s)[i..j]
  {
  }

  /** Lower-casing moves no colon, so the fields can be read off the text as it is. */
  lemma {:induction false} FieldsAsWritten(s: string, fields: seq<string>) returns (written: seq<string>)
    requires AsciiLower(s) == Glue(fields, ':')
    ensures LowerAll(written) == fields && Glue(written, ':') == s
    decreases |fields|
  {
    if fields == [] {
      written := [];
    } else if |fields| == 1 {
      written := [s];
    } else {
      var n, l := |fields[0]|, AsciiLower(s);
      assert l == fields[0] + [':'] + Glue(fields[1..], ':');
      assert l[n] == ':' && l[n + 1..] == Glue(fields[1..], ':') && l[..n] == fields[0];
      LowerSlice(s, 0, n);
      LowerSlice(s, n + 1, |s|);
      var rest := FieldsAsWritten(s[n + 1..], fields[1..]);
      written := [s[..n]] + rest;
      assert written[1..] == rest;
      assert s == s[..n] + [':'] + s[n + 1..];
      assert fields == [fields[0]] + fields[1..];
      assert LowerAll(written) == [fields[0]] + LowerAll(rest);
    }
  }

  lemma QuadAsWritten(s: string, q: string)
    requires IsQuad(q) && AsciiLower(s) == q
    ensures s == q
  {
    SplitGlue(q, '.');
    DotsAndDigits(Split(q, '.'));
    forall i | 0 <= i < |s|
      ensures s[i] == q[i]
    {
      assert q[i] == LowerChar(s[i]);
    }
  }

  /** Fields and the quad after them, as written. */
  lemma EndAsWritten(s: string, fields: seq<string>, quad: Option<string>) returns (written: seq<string>)
    requires AsciiLower(s) == Glue(fields + LastField(Form([], None, quad)), ':') && (quad.Some? ==> IsQuad(quad.value))
    ensures LowerAll(written) == fields && Glue(written + LastField(Form([], None, quad)), ':') == s
  {
    hide Glue, IsQuad, AsciiLower;
    written := FieldsAsWritten(s, fields + LastField(Form([], None, quad)));
    if quad.Some? {
      var n := |fields|;
      assert AsciiLower(written[n]) == quad.value;
      QuadAsWritten(written[n], quad.value);
      assert written == written[..n] + [quad.value];
      written := written[..n];
    } else {
      assert written + [] == written && fields + [] == fields;
    }
  }

  /** Every text that is a form once in lower case is a form. */
  lemma FormAsWritten(s: string, g: Form) returns (f: Form)
    requires Core(g) && AsciiLower(s) == Text(g)
    ensures WellFormed(f) && Text(f) == s
  {
    hide Glue, IsQuad, AllHex, AsciiLower, LowerAll;
    match g.tail {
      case None =>
        var head := EndAsWritten(s, g.head, g.quad);
        f := Form(head, None, g.quad);
        HexAsWritten(head, g.head);
      case Some(tail) =>
        var l := AsciiLower(s);
        var n := |Glue(g.head, ':')|;
        assert l[..n] == Glue(g.head, ':') && l[n] == ':' && l[n + 1] == ':' && l[n + 2..] == Glue(tail + LastField(g), ':');
        LowerSlice(s, 0, n);
        LowerSlice(s, n + 2, |s|);
        assert s[n] == ':' && s[n + 1] == ':' by {
          assert LowerChar(s[n]) == ':' && LowerChar(s[n + 1]) == ':';
        }
        assert s == s[..n] + "::" + s[n + 2..];
        var head := FieldsAsWritten(s[..n], g.head);
        var after := EndAsWritten(s[n + 2..], tail, g.quad);
        f := Form(head, Some(after), g.quad);
        HexAsWritten(head, g.head);
        HexAsWritten(after, tail);
    }
  }

  lemma HexAsWritten(written: seq<string>, fields: seq<string>)
    requires LowerAll(written) == fields && AllHex(fields)
    ensures |written| == |fields| && forall h :: h in written ==> IsField(h)
  {
    hide IsHexField, AsciiLower;
    forall h | h in written
      ensures IsField(h)
    {
      var i :| 0 <= i < |written| && written[i] == h;
      assert fields[i] in fields;
    }
  }

  lemma ZoneSplits(ip: string) returns (zone: string)
    ensures var n := Before(AsciiLower(ip), '%');
            n <= |ip| && zone == ip[n..] && IsZone(zone) && AsciiLower(ip[..n]) == WithoutZone(AsciiLower(ip))
  {
    var n := Before(AsciiLower(ip), '%');
    zone := ip[n..];
    LowerSlice(ip, 0, n);
    assert n < |ip| ==> LowerChar(ip[n]) == '%';
  }

  /** A text parses as IPv6 exactly when it is a form of section 2.2 with a zone or none, and then to the
      address every such reading of it writes. */
  lemma ParsesIff(ip: string)
    ensures ParseIpv6(ip).Some? <==> exists f, zone :: Writes(f, zone, ip)
    ensures forall f, zone :: Writes(f, zone, ip) ==> ParseIpv6(ip) == Some(Address(f))
  {
    hide QuadExpanded, ParseBody, WithoutZone, AsciiLower, Text, WellFormed, Core, Address;
    forall f, zone | Writes(f, zone, ip)
      ensures ParseIpv6(ip) == Some(Address(f))
    {
      EveryFormParses(f, zone);
    }
    if ParseIpv6(ip).Some? {
      var zone := ZoneSplits(ip);
      var n := Before(AsciiLower(ip), '%');
      var g := CoreOf(WithoutZone(AsciiLower(ip)));
      var f := FormAsWritten(ip[..n], g);
      assert ip == Text(f) + zone;
      assert Writes(f, zone, ip);
    }
  }

  // ---------- IPv4 ----------

  /** One to three decimal digits (codes 48 to 57) that write at most 255. */
  predicate Octet(p: string) {
    1 <= |p| <= 3 && (forall i :: 0 <= i < |p| ==> 48 <= p[i] as int <= 57) && ValueOf(p, 10) <= 255
  }

  lemma OctetIff(p: string)
    ensures Octet(p) <==> IsOctet(p)
    ensures Octet(p) ==> '.' !in p
  {
    hide ValueOf;
    if IsNumeral(p, 10) {
      forall i | 0 <= i < |p|
        ensures 48 <= p[i] as int <= 57
      {
        assert DigitOf(p[i]) < 10;
      }
    }
  }

  /** Four octets joined by dots, as the number they write. */
  ghost predicate WritesIpv4(ip: string, n: nat, a: string, b: string, c: string, d: string) {
    && Octet(a) && Octet(b) && Octet(c) && Octet(d)
    && ip == Glue([a, b, c, d], '.')
    && n == ValueOf(a, 10) * 0x100_0000 + ValueOf(b, 10) * 0x1_0000 + ValueOf(c, 10) * 0x100 + ValueOf(d, 10)
  }

  /** A text is an IPv4 address exactly when four octets write it, and the number is theirs. */
  lemma Ipv4Iff(ip: string, n: nat)
    ensures Ipv4Value(ip) == Some(n) <==> exists a, b, c, d :: WritesIpv4(ip, n, a, b, c, d)
  {
    hide Split, Glue, Fold, Octet, IsOctet, ValueOf;
    var parts := Split(ip, '.');
    SplitGlue(ip, '.');
    if Ipv4Value(ip) == Some(n) {
      var a, b, c, d := parts[0], parts[1], parts[2], parts[3];
      assert parts == [a, b, c, d];
      OctetIff(a);
      OctetIff(b);
      OctetIff(c);
      OctetIff(d);
      FoldFour(a, b, c, d);
      assert WritesIpv4(ip, n, a, b, c, d);
    }
    if a, b, c, d :| WritesIpv4(ip, n, a, b, c, d) {
      QuadReads(ip, n, a, b, c, d);
    }
  }

  lemma QuadReads(ip: string, n: nat, a: string, b: string, c: string, d: string)
    requires WritesIpv4(ip, n, a, b, c, d)
    ensures Ipv4Value(ip) == Some(n)
  {
    hide Split, Glue, Fold, Octet, IsOctet, ValueOf;
    OctetIff(a);
    OctetIff(b);
    OctetIff(c);
    OctetIff(d);
    GlueSplit([a, b, c, d], '.');
    FoldFour(a, b, c, d);
  }
}
