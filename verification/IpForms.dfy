/** Every text form of an IPv6 address (RFC 4291 section 2.2) parses to the same eight groups
    (src/utils/ssrf-guard.ts:78-107). */
module IpForms {
  import opened Wrappers
  import opened AsciiText
  import opened Numerals
  import opened IpText

  /** Fields before and after the `::`, if there is one, and the dotted quad that ends the text, if any. */
  datatype Form = Form(head: seq<string>, tail: Option<seq<string>>, quad: Option<string>)

  /** One to four hex digits, of either case. */
  predicate IsField(f: string) {
    IsHexField(AsciiLower(f))
  }

  predicate IsQuad(q: string) {
    var parts := Split(q, '.');
    |parts| == 4 && forall p :: p in parts ==> IsOctet(p)
  }

  function LastField(f: Form): seq<string> {
    if f.quad.Some? then [f.quad.value] else []
  }

  function Text(f: Form): string {
    match f.tail
    case None => Glue(f.head + LastField(f), ':')
    case Some(tail) => Glue(f.head, ':') + "::" + Glue(tail + LastField(f), ':')
  }

  function TailOf(f: Form): seq<string> {
    if f.tail.Some? then f.tail.value else []
  }

  /** Groups written out. */
  function Count(f: Form): nat {
    |f.head| + |TailOf(f)| + (if f.quad.Some? then 2 else 0)
  }

  /** The three forms of section 2.2: eight groups, one `::` for one or more groups of zeros, and either
      of them with the last two groups as a dotted quad. */
  predicate WellFormed(f: Form) {
    && (forall h :: h in f.head ==> IsField(h))
    && (forall t :: t in TailOf(f) ==> IsField(t))
    && (f.quad.Some? ==> IsQuad(f.quad.value))
    && if f.tail.Some? then Count(f) <= 7 else Count(f) == 8
  }

  function Values(fields: seq<string>): (v: seq<nat>)
    ensures |v| == |fields|
  {
    FieldValues(LowerAll(fields))
  }

  function QuadGroups(f: Form): (v: seq<nat>)
    ensures |v| == if f.quad.Some? then 2 else 0
  {
    if f.quad.None? then [] else
      var n := Fold(Split(f.quad.value, '.'));
      [n / 0x1_0000, n % 0x1_0000]
  }

  /** The address a form writes. */
  function Address(f: Form): seq<nat>
    requires WellFormed(f)
  {
    match f.tail
    case None => Values(f.head) + QuadGroups(f)
    case Some(tail) => Values(f.head) + Zeros(8 - Count(f)) + Values(tail) + QuadGroups(f)
  }

  // ---------- Characters ----------

  ghost predicate AllHex(fields: seq<string>) {
    forall f :: f in fields ==> IsHexField(f)
  }

  predicate HexOrColon(s: string) {
    forall i :: 0 <= i < |s| ==> s[i] == ':' || DigitOf(s[i]) < 16
  }

  lemma FieldChars(f: string)
    requires IsHexField(f)
    ensures f != "" && ':' !in f && HexOrColon(f) && AsciiLower(f) == f
  {
  }

  lemma {:induction false} GlueChars(fields: seq<string>)
    requires AllHex(fields)
    ensures HexOrColon(Glue(fields, ':')) && (Glue(fields, ':') == "" <==> fields == [])
    ensures fields != [] ==> Glue(fields, ':')[0] != ':' && Glue(fields, ':')[|Glue(fields, ':')| - 1] != ':'
    ensures BeforeDouble(Glue(fields, ':')) == |Glue(fields, ':')|
  {
    hide IsHexField;
    if fields != [] {
      var f, rest := fields[0], fields[1..];
      FieldChars(f);
      NoDoubleInField(f, if rest == [] then "" else ":" + Glue(rest, ':'));
      if rest != [] {
        GlueChars(rest);
        var s := Glue(rest, ':');
        assert (":" + s)[1..] == s;
        assert Glue(fields, ':') == f + (":" + s);
      } else {
        assert f + "" == f;
      }
    }
  }

  /** A field adds no `::` before a text that is empty or starts with a single colon. */
  lemma {:induction false} NoDoubleInField(f: string, rest: string)
    requires ':' !in f
    ensures BeforeDouble(f + rest) == |f| + BeforeDouble(rest)
  {
    if f == "" {
      assert f + rest == rest;
    } else {
      NoDoubleInField(f[1..], rest);
      assert f[0] in f;
      assert (f + rest)[1..] == f[1..] + rest;
    }
  }

  lemma {:induction false} DoubleFirst(a: string, b: string)
    requires BeforeDouble(a) == |a| && (a == "" || a[|a| - 1] != ':')
    ensures BeforeDouble(a + "::" + b) == |a|
  {
    if a == "" {
      assert a + "::" + b == "::" + b;
    } else {
      assert (a + "::" + b)[1..] == a[1..] + "::" + b;
      DoubleFirst(a[1..], b);
      assert |a| >= 2 ==> (a + "::" + b)[1] == a[1];
    }
  }

  lemma {:induction false} HalvesOf(a: string, b: string)
    requires BeforeDouble(a) == |a| && (a == "" || a[|a| - 1] != ':') && BeforeDouble(b) == |b|
    ensures Halves(a + "::" + b) == [a, b]
  {
    DoubleFirst(a, b);
    var s := a + "::" + b;
    assert s[..|a|] == a && s[|a| + 2..] == b;
  }

  // ---------- Forms without a quad ----------

  lemma GroupsRead(fields: seq<string>)
    requires AllHex(fields)
    ensures GroupsOf(Glue(fields, ':')) == Some(FieldValues(fields))
  {
    GlueChars(fields);
    if fields == [] {
      assert FieldValues(fields) == [];
    } else {
      forall f | f in fields
        ensures ':' !in f
      {
        FieldChars(f);
      }
      GlueSplit(fields, ':');
    }
  }

  lemma HalfOf(s: string)
    requires BeforeDouble(s) == |s|
    ensures Halves(s) == [s]
  {
  }

  lemma FullParses(head: seq<string>)
    requires AllHex(head) && |head| == 8
    ensures ParseBody(Glue(head, ':')) == Some(FieldValues(head))
  {
    hide AllHex, GroupsOf, FieldValues, BeforeDouble, Glue, Halves;
    GlueChars(head);
    GroupsRead(head);
    HalfOf(Glue(head, ':'));
  }

  lemma {:induction false} CompressedParses(head: seq<string>, tail: seq<string>)
    requires AllHex(head) && AllHex(tail) && |head| + |tail| <= 7
    ensures ParseBody(Glue(head, ':') + "::" + Glue(tail, ':'))
         == Some(FieldValues(head) + Zeros(8 - |head| - |tail|) + FieldValues(tail))
  {
    hide AllHex, GroupsOf, FieldValues, BeforeDouble, Glue, Halves, Zeros;
    GlueChars(head);
    GlueChars(tail);
    GroupsRead(head);
    GroupsRead(tail);
    HalvesOf(Glue(head, ':'), Glue(tail, ':'));
  }

  lemma BodyParses(head: seq<string>, tail: Option<seq<string>>)
    requires AllHex(head) && (tail.Some? ==> AllHex(tail.value) && |head| + |tail.value| <= 7) && (tail.None? ==> |head| == 8)
    ensures ParseBody(Text(Form(head, tail, None)))
         == Some(if tail.None? then FieldValues(head)
                 else FieldValues(head) + Zeros(8 - |head| - |tail.value|) + FieldValues(tail.value))
  {
    hide AllHex, ParseBody, FieldValues, Glue, Zeros;
    assert head + [] == head;
    if tail.Some? {
      assert tail.value + [] == tail.value;
      CompressedParses(head, tail.value);
    } else {
      FullParses(head);
    }
  }

  // ---------- The dotted quad ----------

  lemma {:induction false} GlueLast(fields: seq<string>, last: string, c: char)
    ensures Glue(fields + [last], c) == (if fields == [] then "" else Glue(fields, c) + [c]) + last
  {
    if fields == [] {
      assert fields + [last] == [last];
    } else {
      GlueLast(fields[1..], last, c);
      assert (fields + [last])[1..] == fields[1..] + [last];
      assert (fields + [last])[0] == fields[0];
    }
  }

  lemma {:induction false} LastColon(p: string, q: string)
    requires p != "" && p[|p| - 1] == ':' && ':' !in q
    ensures AfterLastColon(p + q) == |p|
    decreases |q|
  {
    if q == "" {
      assert p + q == p;
    } else {
      assert q[|q| - 1] in q;
      assert (p + q)[..|p + q| - 1] == p + q[..|q| - 1];
      LastColon(p, q[..|q| - 1]);
    }
  }

  lemma {:induction false} QuadChars(q: string)
    requires IsQuad(q)
    ensures ':' !in q && '%' !in q && AsciiLower(q) == q && q != ""
  {
    var parts := Split(q, '.');
    SplitGlue(q, '.');
    hide Split;
    DotsAndDigits(parts);
    assert Glue(parts, '.') == q;
  }

  lemma {:induction false} DotsAndDigits(parts: seq<string>)
    requires parts != [] && forall p :: p in parts ==> IsOctet(p)
    ensures var s := Glue(parts, '.');
            s != "" && forall i :: 0 <= i < |s| ==> s[i] == '.' || '0' <= s[i] <= '9'
  {
    hide ValueOf;
    assert parts[0] in parts;
    if |parts| > 1 {
      DotsAndDigits(parts[1..]);
    }
  }

  /** The two hex fields a quad turns into. */
  function HexOf(q: string): seq<string> {
    var n := Fold(Split(q, '.'));
    [Numeral(n / 0x1_0000, 16), Numeral(n % 0x1_0000, 16)]
  }

  lemma FoldBelow(q: string)
    requires IsQuad(q)
    ensures Ipv4Value(q) == Some(Fold(Split(q, '.'))) && Fold(Split(q, '.')) < 0x1_0000_0000
  {
    var parts := Split(q, '.');
    hide Split, ValueOf;
    assert parts == [parts[0], parts[1], parts[2], parts[3]];
    assert IsOctet(parts[0]) && IsOctet(parts[1]) && IsOctet(parts[2]) && IsOctet(parts[3]);
    FoldFour(parts[0], parts[1], parts[2], parts[3]);
  }

  lemma FoldFour(a: string, b: string, c: string, d: string)
    ensures Fold([a, b, c, d])
         == ((ValueOf(a, 10) * 256 + ValueOf(b, 10)) * 256 + ValueOf(c, 10)) * 256 + ValueOf(d, 10)
  {
    hide ValueOf;
    assert [a, b, c, d][..3] == [a, b, c] && [a, b, c][..2] == [a, b] && [a, b][..1] == [a] && [a][..0] == [];
    assert Fold([a]) == ValueOf(a, 10);
    assert Fold([a, b]) == ValueOf(a, 10) * 256 + ValueOf(b, 10);
    assert Fold([a, b, c]) == (ValueOf(a, 10) * 256 + ValueOf(b, 10)) * 256 + ValueOf(c, 10);
  }

  lemma HexOfReads(q: string)
    requires IsQuad(q)
    ensures AllHex(HexOf(q)) && FieldValues(HexOf(q)) == QuadGroups(Form([], None, Some(q)))
  {
    FoldBelow(q);
    var n := Fold(Split(q, '.'));
    hide Fold, Split, Numeral, ValueOf;
    NumeralReads(n / 0x1_0000, 16);
    NumeralReads(n % 0x1_0000, 16);
    assert HexBound(4) == 0x1_0000;
    HexLength(n / 0x1_0000, 4);
    HexLength(n % 0x1_0000, 4);
    var pair := HexOf(q);
    assert pair == [Numeral(n / 0x1_0000, 16), Numeral(n % 0x1_0000, 16)];
    assert IsHexField(pair[0]) && IsHexField(pair[1]);
    forall f | f in pair
      ensures IsHexField(f)
    {
      assert f == pair[0] || f == pair[1];
    }
    assert FieldValues(pair) == [n / 0x1_0000, n % 0x1_0000];
  }

  /** A quad after a colon is expanded. */
  lemma QuadAfter(p: string, q: string)
    requires p != "" && p[|p| - 1] == ':' && IsQuad(q)
    ensures QuadExpanded(p + q) == Some(p + HexOf(q)[0] + ":" + HexOf(q)[1])
  {
    QuadChars(q);
    LastColon(p, q);
    FoldBelow(q);
    hide Fold, Split, Numeral;
    assert (p + q)[|p|..] == q && (p + q)[..|p|] == p;
    QuadIsQuadText(q);
  }

  lemma QuadIsQuadText(q: string)
    requires IsQuad(q)
    ensures IsQuadText(q)
  {
    hide Split;
  }

  /** Without a dot nothing is expanded. */
  lemma NoQuad(s: string)
    requires '.' !in s
    ensures QuadExpanded(s) == Some(s)
  {
    var at := AfterLastColon(s);
    assert forall c :: c in s[at..] ==> c in s;
    SplitFirst(s[at..], '.', "");
  }

  /** The form with its quad as hex fields. */
  function Expanded(f: Form): Form {
    if f.quad.None? then f
    else if f.tail.Some? then Form(f.head, Some(f.tail.value + HexOf(f.quad.value)), None)
    else Form(f.head + HexOf(f.quad.value), None, None)
  }

  /** A form in lower case. */
  ghost predicate Core(f: Form) {
    && AllHex(f.head) && AllHex(TailOf(f)) && (f.quad.Some? ==> IsQuad(f.quad.value))
    && if f.tail.Some? then Count(f) <= 7 else Count(f) == 8
  }

  lemma TwoMore(fields: seq<string>, pair: seq<string>, c: char)
    requires |pair| == 2
    ensures Glue(fields + pair, c) == (if fields == [] then "" else Glue(fields, c) + [c]) + pair[0] + [c] + pair[1]
  {
    GlueLast(fields, pair[0], c);
    GlueLast(fields + [pair[0]], pair[1], c);
    assert fields + [pair[0]] + [pair[1]] == fields + pair;
  }

  lemma Expands(f: Form)
    requires Core(f)
    ensures QuadExpanded(Text(f)) == Some(Text(Expanded(f)))
  {
    hide AllHex, IsQuad, HexOf, QuadExpanded, Glue;
    if f.quad.None? {
      NoDotIn(f);
      NoQuad(Text(f));
    } else {
      var q, pair := f.quad.value, HexOf(f.quad.value);
      assert |pair| == 2 by {
        PairOf(q);
      }
      match f.tail {
        case None =>
          GlueLast(f.head, q, ':');
          TwoMore(f.head, pair, ':');
          QuadAfter(Glue(f.head, ':') + ":", q);
          assert f.head + pair + [] == f.head + pair;
        case Some(tail) =>
          GlueLast(tail, q, ':');
          TwoMore(tail, pair, ':');
          var p := Glue(f.head, ':') + "::" + (if tail == [] then "" else Glue(tail, ':') + ":");
          assert p[|p| - 1] == ':';
          assert Text(f) == p + q;
          QuadAfter(p, q);
          assert tail + pair + [] == tail + pair;
          assert Text(Expanded(f)) == p + pair[0] + ":" + pair[1];
      }
    }
  }

  lemma PairOf(q: string)
    ensures |HexOf(q)| == 2
  {
  }

  lemma NoDotIn(f: Form)
    requires Core(f) && f.quad.None?
    ensures '.' !in Text(f)
  {
    hide AllHex, HexOrColon, Glue;
    GlueChars(f.head);
    GlueChars(TailOf(f));
    HexHasNoPercent(Glue(f.head, ':'));
    HexHasNoPercent(Glue(TailOf(f), ':'));
    assert f.head + [] == f.head && TailOf(f) + [] == TailOf(f);
  }

  lemma HexHasNoPercent(s: string)
    requires HexOrColon(s)
    ensures '%' !in s && '.' !in s
  {
  }

  lemma NoPercentIn(f: Form)
    requires Core(f)
    ensures '%' !in Text(f)
  {
    hide AllHex, IsQuad, Glue, DigitOf;
    GlueChars(f.head);
    GlueChars(TailOf(f));
    HexHasNoPercent(Glue(f.head, ':'));
    HexHasNoPercent(Glue(TailOf(f), ':'));
    assert f.head + [] == f.head && TailOf(f) + [] == TailOf(f);
    hide HexOrColon;
    if f.quad.Some? {
      QuadChars(f.quad.value);
      GlueLast(f.head, f.quad.value, ':');
      GlueLast(TailOf(f), f.quad.value, ':');
    }
  }

  lemma ValuesConcat(a: seq<string>, b: seq<string>)
    ensures FieldValues(a + b) == FieldValues(a) + FieldValues(b)
  {
    hide ValueOf;
  }

  lemma CoreParses(f: Form)
    requires Core(f)
    ensures QuadExpanded(Text(f)).Some?
    ensures ParseBody(QuadExpanded(Text(f)).value)
         == Some(if f.tail.None? then FieldValues(f.head) + QuadGroups(f)
                 else FieldValues(f.head) + Zeros(8 - Count(f)) + FieldValues(f.tail.value) + QuadGroups(f))
  {
    hide IsQuad, HexOf, QuadExpanded, Glue, ParseBody, FieldValues, IsHexField, Text;
    Expands(f);
    var g := Expanded(f);
    if f.quad.Some? {
      HexOfReads(f.quad.value);
      PairOf(f.quad.value);
      QuadGroupsAlone(f);
      ValuesConcat(f.head, HexOf(f.quad.value));
      ValuesConcat(TailOf(f), HexOf(f.quad.value));
    } else {
      assert QuadGroups(f) == [];
      assert FieldValues(f.head) + [] == FieldValues(f.head);
    }
    BodyParses(g.head, g.tail);
    assert g == Form(g.head, g.tail, None);
    if f.tail.Some? {
      var before := FieldValues(f.head) + Zeros(8 - Count(f));
      assert before + (FieldValues(f.tail.value) + QuadGroups(f)) == before + FieldValues(f.tail.value) + QuadGroups(f);
      assert FieldValues(g.tail.value) == FieldValues(f.tail.value) + QuadGroups(f);
    }
  }

  lemma QuadGroupsAlone(f: Form)
    requires f.quad.Some?
    ensures QuadGroups(f) == QuadGroups(Form([], None, Some(f.quad.value)))
  {
  }

  // ---------- Either case, any zone ----------

  function Lowered(f: Form): Form {
    Form(LowerAll(f.head), if f.tail.Some? then Some(LowerAll(f.tail.value)) else None, f.quad)
  }

  lemma LowerConcat(a: string, b: string)
    ensures AsciiLower(a + b) == AsciiLower(a) + AsciiLower(b)
  {
  }

  lemma {:induction false} LowerGlue(fields: seq<string>)
    ensures AsciiLower(Glue(fields, ':')) == Glue(LowerAll(fields), ':')
  {
    if fields == [] {
    } else if |fields| == 1 {
      assert LowerAll(fields) == [AsciiLower(fields[0])];
    } else {
      LowerGlue(fields[1..]);
      assert LowerAll(fields)[1..] == LowerAll(fields[1..]);
      LowerConcat(fields[0] + ":", Glue(fields[1..], ':'));
      LowerConcat(fields[0], ":");
      assert AsciiLower(":") == ":";
    }
  }

  lemma LowerText(f: Form)
    requires WellFormed(f)
    ensures AsciiLower(Text(f)) == Text(Lowered(f)) && Core(Lowered(f))
  {
    hide IsHexField, IsQuad, Glue;
    if f.quad.Some? {
      QuadChars(f.quad.value);
    }
    LowerGlue(f.head);
    LowerGlue(f.head + LastField(f));
    LowerGlue(TailOf(f) + LastField(f));
    assert LowerAll(f.head + LastField(f)) == LowerAll(f.head) + LastField(f);
    assert LowerAll(TailOf(f) + LastField(f)) == LowerAll(TailOf(f)) + LastField(f);
    if f.tail.Some? {
      LowerConcat(Glue(f.head, ':') + "::", Glue(TailOf(f) + LastField(f), ':'));
      LowerConcat(Glue(f.head, ':'), "::");
      assert AsciiLower("::") == "::";
    }
    LowerIsCore(f);
  }

  lemma LowerIsCore(f: Form)
    requires WellFormed(f)
    ensures Core(Lowered(f))
  {
    hide IsHexField, IsQuad, AsciiLower;
    LowerAreHex(f.head);
    LowerAreHex(TailOf(f));
  }

  lemma LowerAreHex(fields: seq<string>)
    requires forall f :: f in fields ==> IsField(f)
    ensures AllHex(LowerAll(fields))
  {
    hide IsHexField, AsciiLower;
    forall h | h in LowerAll(fields)
      ensures IsHexField(h)
    {
      var i :| 0 <= i < |fields| && LowerAll(fields)[i] == h;
      assert IsField(fields[i]);
    }
  }

  predicate IsZone(zone: string) {
    zone == "" || zone[0] == '%'
  }

  lemma ZoneDropped(text: string, zone: string)
    requires '%' !in text && IsZone(zone)
    ensures WithoutZone(text + zone) == text
  {
    if zone == "" {
      BeforeFirst(text, '%', "");
      assert text + zone == text;
    } else {
      BeforeFirst(text, '%', zone[1..]);
      assert text + ['%'] + zone[1..] == text + zone;
    }
  }

  /** Every form of an address, in either case and with any zone, parses to the address. */
  lemma EveryFormParses(f: Form, zone: string)
    requires WellFormed(f) && IsZone(zone)
    ensures ParseIpv6(Text(f) + zone) == Some(Address(f))
  {
    hide QuadExpanded, ParseBody, Glue, IsHexField, IsQuad, WithoutZone, Fold;
    LowerText(f);
    LowerConcat(Text(f), zone);
    var g := Lowered(f);
    NoPercentIn(g);
    ZoneDropped(Text(g), AsciiLower(zone));
    CoreParses(g);
    assert Values(f.head) == FieldValues(g.head) && Values(TailOf(f)) == FieldValues(TailOf(g));
    assert QuadGroups(g) == QuadGroups(f) && Count(g) == Count(f);
  }

  /** So the verdict depends on the address alone, however it is written. */
  lemma {:induction false} OneVerdict(f: Form, zone: string, g: Form, other: string)
    requires WellFormed(f) && IsZone(zone) && WellFormed(g) && IsZone(other) && Address(f) == Address(g)
    ensures IsBlockedIpv6(Text(f) + zone) == IsBlockedIpv6(Text(g) + other)
    ensures |Address(f)| == 8 && IsBlockedIpv6(Text(f) + zone) == BlockedGroups(Address(f))
  {
    EveryFormParses(f, zone);
    EveryFormParses(g, other);
    hide ParseIpv6, Text;
  }

  // ---------- IPv4 texts ----------

  predicate IsPlainOctet(p: string) {
    IsOctet(p) && '.' !in p && ':' !in p
  }

  lemma OctetReads(n: nat)
    requires n <= 255
    ensures IsPlainOctet(Numeral(n, 10)) && ValueOf(Numeral(n, 10), 10) == n
  {
    NumeralReads(n, 10);
    OctetLength(n);
    NumeralChars(n, 10);
    hide ValueOf, Numeral;
  }

  lemma {:induction false} NumeralChars(n: nat, base: nat)
    requires 2 <= base <= 16
    ensures forall c :: c in Numeral(n, base) ==> DigitOf(c) < base && c != '.' && c != ':'
  {
    NumeralReads(n, base);
    hide Numeral, ValueOf;
    forall c | c in Numeral(n, base)
      ensures DigitOf(c) < base && c != '.' && c != ':'
    {
      var i :| 0 <= i < |Numeral(n, base)| && Numeral(n, base)[i] == c;
    }
  }

  /** A dotted quad reads back as its number. */
  lemma {:induction false} Ipv4RoundTrip(n: nat)
    requires n < 0x1_0000_0000
    ensures Ipv4Value(Ipv4Text(n)) == Some(n) && ':' !in Ipv4Text(n)
  {
    hide Numeral, ValueOf, IsPlainOctet, Split, Fold, Glue, Ipv4Value;
    var a, b, c, d := n / 0x100_0000 % 256, n / 0x1_0000 % 256, n / 0x100 % 256, n % 256;
    FourBytes(n);
    OctetReads(a);
    OctetReads(b);
    OctetReads(c);
    OctetReads(d);
    OctetsRead(Numeral(a, 10), Numeral(b, 10), Numeral(c, 10), Numeral(d, 10), a, b, c, d);
  }

  lemma FourBytes(n: nat)
    requires n < 0x1_0000_0000
    ensures n == ((n / 0x100_0000 % 256 * 256 + n / 0x1_0000 % 256) * 256 + n / 0x100 % 256) * 256 + n % 256
  {
  }

  lemma OctetsRead(p: string, q: string, r: string, s: string, a: nat, b: nat, c: nat, d: nat)
    requires IsPlainOctet(p) && IsPlainOctet(q) && IsPlainOctet(r) && IsPlainOctet(s)
    requires ValueOf(p, 10) == a && ValueOf(q, 10) == b && ValueOf(r, 10) == c && ValueOf(s, 10) == d
    ensures Ipv4Value(Glue([p, q, r, s], '.')) == Some(((a * 256 + b) * 256 + c) * 256 + d)
    ensures ':' !in Glue([p, q, r, s], '.')
  {
    hide *;
    PartsRead(p, q, r, s);
    FoldValues(p, q, r, s, a, b, c, d);
  }

  lemma {:induction false} FoldValues(p: string, q: string, r: string, s: string, a: nat, b: nat, c: nat, d: nat)
    requires ValueOf(p, 10) == a && ValueOf(q, 10) == b && ValueOf(r, 10) == c && ValueOf(s, 10) == d
    ensures Fold([p, q, r, s]) == ((a * 256 + b) * 256 + c) * 256 + d
  {
    hide ValueOf, Fold;
    FoldFour(p, q, r, s);
  }

  lemma PartsRead(a: string, b: string, c: string, d: string)
    requires IsPlainOctet(a) && IsPlainOctet(b) && IsPlainOctet(c) && IsPlainOctet(d)
    ensures Ipv4Value(Glue([a, b, c, d], '.')) == Some(Fold([a, b, c, d])) && ':' !in Glue([a, b, c, d], '.')
  {
    hide IsOctet, Split, Fold, Glue;
    var parts := [a, b, c, d];
    assert forall p :: p in parts ==> p == a || p == b || p == c || p == d;
    GlueSplit(parts, '.');
    NoColonGlued(parts);
  }

  lemma {:induction false} NoColonGlued(parts: seq<string>)
    requires forall p :: p in parts ==> ':' !in p
    ensures ':' !in Glue(parts, '.')
  {
    if parts != [] {
      assert parts[0] in parts;
      NoColonGlued(parts[1..]);
    }
  }

  /** An address that carries an IPv4 address is refused exactly when that address is. */
  lemma {:induction false} EmbeddedVerdict(g: seq<nat>)
    requires |g| == 8 && (forall i :: 0 <= i < 8 ==> g[i] < 0x1_0000) && EmbeddedValue(g).Some?
    ensures BlockedGroups(g) <==> BlockedValue(EmbeddedValue(g).value)
  {
    var n := EmbeddedValue(g).value;
    assert n < 0x1_0000_0000;
    Ipv4RoundTrip(n);
    hide Ipv4Text, Ipv4Value, Pow2;
    if ZeroIn(g, 0, 7) && g[7] <= 1 {
      ThisHost(n);
    }
  }

  lemma ThisHost(n: nat)
    requires n <= 1
    ensures BlockedValue(n)
  {
    hide Pow2, BlockedValue;
    BlockedRanges(n);
  }

  lemma Powers()
    ensures Pow2(4) == 0x10 && Pow2(8) == 0x100 && Pow2(16) == 0x1_0000 && Pow2(17) == 0x2_0000 && Pow2(20) == 0x10_0000
    ensures Pow2(22) == 0x40_0000 && Pow2(24) == 0x100_0000 && Pow2(28) == 0x1000_0000
  {
    assert Pow2(4) == 16;
    assert Pow2(8) == 16 * Pow2(4);
    assert Pow2(12) == 16 * Pow2(8);
    assert Pow2(16) == 16 * Pow2(12);
    assert Pow2(20) == 16 * Pow2(16);
    assert Pow2(24) == 16 * Pow2(20);
    assert Pow2(28) == 16 * Pow2(24);
  }

  /** The refused IPv4 addresses, first to last. */
  lemma BlockedRanges(n: nat)
    ensures BlockedValue(n)
       <==> || n <= 0x00FF_FFFF
            || 0x0A00_0000 <= n <= 0x0AFF_FFFF
            || 0x6440_0000 <= n <= 0x647F_FFFF
            || 0x7F00_0000 <= n <= 0x7FFF_FFFF
            || 0xA9FE_0000 <= n <= 0xA9FE_FFFF
            || 0xAC10_0000 <= n <= 0xAC1F_FFFF
            || 0xC000_0000 <= n <= 0xC000_00FF
            || 0xC0A8_0000 <= n <= 0xC0A8_FFFF
            || 0xC612_0000 <= n <= 0xC613_FFFF
            || 0xE000_0000 <= n <= 0xFFFF_FFFF
  {
    Powers();
    hide Pow2;
  }

  /** The other refused addresses: local-use NAT64, unique local, link-local, site-local and multicast. */
  lemma NativeVerdict(g: seq<nat>)
    requires |g| == 8 && (forall i :: 0 <= i < 8 ==> g[i] < 0x1_0000) && EmbeddedValue(g).None?
    ensures BlockedGroups(g)
       <==> (g[0] == 0x64 && g[1] == 0xff9b && g[2] == 1) || 0xfc00 <= g[0] <= 0xfdff || 0xfe80 <= g[0]
  {
  }

  lemma Ipv4TextIsQuad(n: nat)
    requires n < 0x1_0000_0000
    ensures IsQuad(Ipv4Text(n)) && Fold(Split(Ipv4Text(n), '.')) == n
  {
    Ipv4RoundTrip(n);
    hide Ipv4Text, Split, Fold, ValueOf;
  }

  /** The value of four digits. */
  lemma FourDigits(a: char, b: char, c: char, d: char)
    ensures ValueOf([a, b, c, d], 16) == ((DigitOf(a) * 16 + DigitOf(b)) * 16 + DigitOf(c)) * 16 + DigitOf(d)
    ensures ValueOf([a, b], 16) == DigitOf(a) * 16 + DigitOf(b)
  {
    hide DigitOf;
    assert [a, b, c, d][..3] == [a, b, c] && [a, b, c][..2] == [a, b] && [a, b][..1] == [a] && [a][..0] == [];
    assert ValueOf([a], 16) == DigitOf(a);
    assert ValueOf([a, b, c], 16) == (DigitOf(a) * 16 + DigitOf(b)) * 16 + DigitOf(c);
  }

  lemma NamedFields()
    ensures IsField("ffff") && IsField("64") && IsField("ff9b") && IsField("2002")
    ensures Values(["ffff"]) == [0xffff] && Values(["64", "ff9b"]) == [0x64, 0xff9b] && Values(["2002"]) == [0x2002]
  {
    FourDigits('f', 'f', 'f', 'f');
    FourDigits('6', '4', '0', '0');
    FourDigits('f', 'f', '9', 'b');
    FourDigits('2', '0', '0', '2');
    hide ValueOf;
    assert AsciiLower("ffff") == "ffff" && AsciiLower("64") == "64" && AsciiLower("ff9b") == "ff9b" && AsciiLower("2002") == "2002";
  }

  /** The groups of a form that ends in the quad of `n`. */
  lemma QuadAddress(f: Form, n: nat)
    requires n < 0x1_0000_0000 && WellFormed(f) && f.tail.Some? && f.quad == Some(Ipv4Text(n))
    ensures Address(f) == Values(f.head) + Zeros(8 - Count(f)) + Values(f.tail.value) + [n / 0x1_0000, n % 0x1_0000]
    ensures ParseIpv6(Text(f)) == Some(Address(f))
  {
    hide Ipv4Text, Split, Fold, ParseIpv6, WellFormed, Glue;
    Ipv4TextIsQuad(n);
    EveryFormParses(f, "");
    assert Text(f) + "" == Text(f);
  }

  lemma MappedCarries(n: nat)
    requires n < 0x1_0000_0000
    ensures var groups := ParseIpv6("::ffff:" + Ipv4Text(n));
            groups.Some? && |groups.value| == 8 && EmbeddedValue(groups.value) == Some(n)
  {
    hide Ipv4Text, Split, Fold, ParseIpv6;
    var q := Ipv4Text(n);
    var f := Form([], Some(["ffff"]), Some(q));
    Ipv4TextIsQuad(n);
    NamedFields();
    hide IsHexField, Values;
    assert ["ffff"] + [q] == ["ffff", q];
    assert Glue(["ffff", q], ':') == "ffff:" + q;
    assert Text(f) == "::ffff:" + q;
    QuadAddress(f, n);
    assert Values([]) == [];
  }

  lemma CompatibleCarries(n: nat)
    requires n < 0x1_0000_0000
    ensures var groups := ParseIpv6("::" + Ipv4Text(n));
            groups.Some? && |groups.value| == 8 && EmbeddedValue(groups.value) == Some(n)
  {
    hide Ipv4Text, Split, Fold, ParseIpv6;
    var q := Ipv4Text(n);
    var f := Form([], Some([]), Some(q));
    Ipv4TextIsQuad(n);
    hide IsHexField, Values;
    assert [] + [q] == [q];
    assert Text(f) == "::" + q;
    QuadAddress(f, n);
    assert Values([]) == [];
  }

  lemma TranslatedCarries(n: nat)
    requires n < 0x1_0000_0000
    ensures var groups := ParseIpv6("64:ff9b::" + Ipv4Text(n));
            groups.Some? && |groups.value| == 8 && EmbeddedValue(groups.value) == Some(n)
  {
    hide Ipv4Text, Split, Fold, ParseIpv6;
    var q := Ipv4Text(n);
    var f := Form(["64", "ff9b"], Some([]), Some(q));
    Ipv4TextIsQuad(n);
    NamedFields();
    hide IsHexField, Values;
    assert [] + [q] == [q];
    assert Glue(["64", "ff9b"], ':') == "64:ff9b";
    assert Text(f) == "64:ff9b::" + q;
    QuadAddress(f, n);
    assert Values([]) == [];
  }

  /** A 6to4 address carries the IPv4 address of its second and third groups. */
  lemma TunnelCarries(n: nat, rest: seq<nat>)
    requires n < 0x1_0000_0000 && |rest| == 5
    ensures EmbeddedValue([0x2002, n / 0x1_0000, n % 0x1_0000] + rest) == Some(n)
  {
    var g := [0x2002, n / 0x1_0000, n % 0x1_0000] + rest;
    assert g[0] == 0x2002 && g[1] == n / 0x1_0000 && g[2] == n % 0x1_0000;
  }

  /** An IPv4 address written after a prefix that embeds it is the one found in the address: mapped,
      compatible, or behind the well-known prefix. */
  lemma CarriedIpv4(n: nat)
    requires n < 0x1_0000_0000
    ensures forall prefix :: prefix in ["::ffff:", "::", "64:ff9b::"] ==>
              var groups := ParseIpv6(prefix + Ipv4Text(n));
              groups.Some? && |groups.value| == 8 && EmbeddedValue(groups.value) == Some(n)
  {
    hide Ipv4Text, ParseIpv6;
    MappedCarries(n);
    CompatibleCarries(n);
    TranslatedCarries(n);
  }
}
