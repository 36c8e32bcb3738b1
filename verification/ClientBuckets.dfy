/** The bucket a client address is counted in (src/middleware/login-rate-limit.ts:122-141). */
module ClientBuckets {
  import opened Wrappers
  import opened AsciiText
  import opened Numerals
  import opened IpText
  import opened IpForms

  function PrefixText(g: seq<nat>): string
    requires |g| == 4
  {
    Glue([Numeral(g[0], 16), Numeral(g[1], 16), Numeral(g[2], 16), Numeral(g[3], 16)], ':') + "::/64"
  }

  /** `rateLimitBucket`. */
  function RateLimitBucket(ip: string): string {
    if ':' !in ip then ip
    else
      var groups := ParseIpv6(ip);
      if groups.None? then ip
      else
        ParsedAreEight(ip);
        var ipv4 := EmbeddedValue(groups.value);
        if ipv4.Some? then Ipv4Text(ipv4.value) else PrefixText(groups.value[..4])
  }

  // ---------- What the parse gives ----------

  /** A text without a colon is no IPv6 address. */
  lemma NoColonNone(ip: string)
    requires ':' !in ip
    ensures ParseIpv6(ip).None?
  {
    var lower := AsciiLower(ip);
    var addr := WithoutZone(lower);
    forall i | 0 <= i < |addr|
      ensures addr[i] != ':'
    {
      assert addr[i] == lower[i] == LowerChar(ip[i]);
      assert ip[i] in ip;
    }
    NoColon(addr);
    assert QuadExpanded(addr) == Some(addr);
    hide QuadExpanded, WithoutZone;
    assert ParseBody(addr).None?;
  }

  lemma NoColon(s: string)
    requires forall i :: 0 <= i < |s| ==> s[i] != ':'
    ensures AfterLastColon(s) == 0 && Halves(s) == [s] && Split(s, ':') == [s]
  {
    NoDoubleInField(s, "");
    assert s + "" == s;
    SplitFirst(s, ':', "");
  }

  lemma GroupsBelow(part: string)
    requires GroupsOf(part).Some?
    ensures forall v :: v in GroupsOf(part).value ==> v < 0x1_0000
  {
    if part != "" {
      var fields := Split(part, ':');
      hide Split;
      forall i | 0 <= i < |fields|
        ensures ValueOf(fields[i], 16) < 0x1_0000
      {
        assert fields[i] in fields && IsHexField(fields[i]);
        HexBelow(fields[i]);
        assert HexBound(0) == 1 && HexBound(1) == 16 && HexBound(2) == 256 && HexBound(3) == 4096 && HexBound(4) == 65536;
      }
    }
  }

  lemma ParsedBelow(ip: string)
    requires ParseIpv6(ip).Some?
    ensures |ParseIpv6(ip).value| == 8 && forall i :: 0 <= i < 8 ==> ParseIpv6(ip).value[i] < 0x1_0000
  {
    hide ParseBody, QuadExpanded, WithoutZone;
    ParsedAreEight(ip);
    BodyBelow(QuadExpanded(WithoutZone(AsciiLower(ip))).value);
    var g := ParseIpv6(ip).value;
    forall i | 0 <= i < 8
      ensures g[i] < 0x1_0000
    {
      assert g[i] in g;
    }
  }

  lemma BodyBelow(addr: string)
    requires ParseBody(addr).Some?
    ensures forall v :: v in ParseBody(addr).value ==> v < 0x1_0000
  {
    hide Halves, GroupsOf;
    var halves := Halves(addr);
    GroupsBelow(halves[0]);
    if |halves| == 2 {
      GroupsBelow(halves[1]);
    }
  }

  lemma EmbeddedBelow(ip: string)
    requires ParseIpv6(ip).Some?
    ensures |ParseIpv6(ip).value| == 8
    ensures EmbeddedValue(ParseIpv6(ip).value).Some? ==> EmbeddedValue(ParseIpv6(ip).value).value < 0x1_0000_0000
  {
    ParsedBelow(ip);
    hide ParseIpv6;
  }

  // ---------- Different addresses, different texts ----------

  /** The four groups of a prefix read back. */
  lemma PrefixRoundTrip(g: seq<nat>, h: seq<nat>)
    requires |g| == |h| == 4 && PrefixText(g) == PrefixText(h)
    ensures g == h
  {
    hide Glue, Numeral;
    var a := [Numeral(g[0], 16), Numeral(g[1], 16), Numeral(g[2], 16), Numeral(g[3], 16)];
    var b := [Numeral(h[0], 16), Numeral(h[1], 16), Numeral(h[2], 16), Numeral(h[3], 16)];
    var s, t := Glue(a, ':'), Glue(b, ':');
    assert (s + "::/64")[..|s|] == s && (t + "::/64")[..|t|] == t;
    HexNoColon(g);
    HexNoColon(h);
    GlueSplit(a, ':');
    GlueSplit(b, ':');
    assert a == b;
    forall i | 0 <= i < 4
      ensures g[i] == h[i]
    {
      NumeralReads(g[i], 16);
      NumeralReads(h[i], 16);
      assert Numeral(g[i], 16) == a[i] == b[i] == Numeral(h[i], 16);
    }
  }

  lemma HexNoColon(g: seq<nat>)
    requires |g| == 4
    ensures forall p :: p in [Numeral(g[0], 16), Numeral(g[1], 16), Numeral(g[2], 16), Numeral(g[3], 16)] ==> ':' !in p
  {
    NumeralChars(g[0], 16);
    NumeralChars(g[1], 16);
    NumeralChars(g[2], 16);
    NumeralChars(g[3], 16);
    hide Numeral;
  }

  /** The IPv4 address an IPv6 text embeds. */
  function EmbeddedIn(ip: string): Option<nat>
    requires ParseIpv6(ip).Some?
  {
    ParsedAreEight(ip);
    EmbeddedValue(ParseIpv6(ip).value)
  }

  lemma {:induction false} BucketText(ip: string)
    requires ParseIpv6(ip).Some?
    ensures |ParseIpv6(ip).value| == 8
    ensures RateLimitBucket(ip)
         == if EmbeddedIn(ip).Some? then Ipv4Text(EmbeddedIn(ip).value) else PrefixText(ParseIpv6(ip).value[..4])
    ensures EmbeddedIn(ip).Some? ==> EmbeddedIn(ip).value < 0x1_0000_0000
  {
    if ':' !in ip {
      NoColonNone(ip);
    }
    EmbeddedBelow(ip);
    hide ParseIpv6, EmbeddedValue, Ipv4Text, PrefixText;
  }

  /** Two IPv6 texts are counted in one bucket exactly when they embed the same IPv4 address, or neither
      embeds one and their first four groups agree. */
  lemma {:induction false} SharedBucketIff(a: string, b: string)
    requires ParseIpv6(a).Some? && ParseIpv6(b).Some?
    ensures |ParseIpv6(a).value| == 8 && |ParseIpv6(b).value| == 8
    ensures RateLimitBucket(a) == RateLimitBucket(b)
       <==> if EmbeddedIn(a).Some? || EmbeddedIn(b).Some? then EmbeddedIn(a) == EmbeddedIn(b)
            else ParseIpv6(a).value[..4] == ParseIpv6(b).value[..4]
  {
    hide ParseIpv6, RateLimitBucket, EmbeddedIn, Ipv4Text, Ipv4Value, PrefixText;
    BucketText(a);
    BucketText(b);
    var x, y := EmbeddedIn(a), EmbeddedIn(b);
    if x.Some? {
      Ipv4RoundTrip(x.value);
    } else {
      PrefixHasColon(ParseIpv6(a).value[..4]);
    }
    if y.Some? {
      Ipv4RoundTrip(y.value);
    } else {
      PrefixHasColon(ParseIpv6(b).value[..4]);
    }
    if x.None? && y.None? && RateLimitBucket(a) == RateLimitBucket(b) {
      PrefixRoundTrip(ParseIpv6(a).value[..4], ParseIpv6(b).value[..4]);
    }
  }

  lemma PrefixHasColon(g: seq<nat>)
    requires |g| == 4
    ensures ':' in PrefixText(g)
  {
    hide Glue, Numeral;
    var s := PrefixText(g);
    assert s[|s| - 4] == ':';
  }

  /** And with that IPv4 address itself. */
  lemma {:induction false} SharedWithIpv4(ip: string)
    requires ParseIpv6(ip).Some? && EmbeddedIn(ip).Some?
    ensures RateLimitBucket(Ipv4Text(EmbeddedIn(ip).value)) == RateLimitBucket(ip)
  {
    hide ParseIpv6, EmbeddedIn, Ipv4Text, Ipv4Value, PrefixText;
    BucketText(ip);
    Ipv4RoundTrip(EmbeddedIn(ip).value);
  }

  // ---------- What a bucket is ----------

  /** The first four groups and `::`, as hex fields. */
  function PrefixForm(g: seq<nat>): Form
    requires |g| == 4
  {
    Form([Numeral(g[0], 16), Numeral(g[1], 16), Numeral(g[2], 16), Numeral(g[3], 16)], Some([]), None)
  }

  lemma GroupIsField(n: nat)
    requires n < 0x1_0000
    ensures IsField(Numeral(n, 16)) && ValueOf(AsciiLower(Numeral(n, 16)), 16) == n
  {
    NumeralReads(n, 16);
    HexLength(n, 4);
    assert HexBound(4) == 0x1_0000;
    hide ValueOf, Numeral;
    FieldChars(Numeral(n, 16));
  }

  lemma PrefixReads(g: seq<nat>)
    requires |g| == 4 && forall i :: 0 <= i < 4 ==> g[i] < 0x1_0000
    ensures |PrefixText(g)| >= 3
    ensures ParseIpv6(PrefixText(g)[..|PrefixText(g)| - 3]) == Some(g + [0, 0, 0, 0])
    ensures PrefixText(g)[|PrefixText(g)| - 3..] == "/64"
  {
    hide ParseIpv6, ValueOf, Numeral, Glue, AsciiLower;
    var f := PrefixForm(g);
    GroupIsField(g[0]);
    GroupIsField(g[1]);
    GroupIsField(g[2]);
    GroupIsField(g[3]);
    hide IsField;
    forall h | h in f.head
      ensures IsField(h)
    {
      assert h == f.head[0] || h == f.head[1] || h == f.head[2] || h == f.head[3];
    }
    assert TailOf(f) == [] && Count(f) == 4;
    assert WellFormed(f);
    assert Glue([], ':') == "" by {
      NothingGlued();
    }
    var text := Glue(f.head, ':') + "::" + Glue([], ':');
    assert f.tail.value + LastField(f) == f.tail.value;
    assert Text(f) == text;
    assert PrefixText(g) == text + "/64";
    assert PrefixText(g)[..|PrefixText(g)| - 3] == text + "";
    EveryFormParses(f, "");
    assert Address(f) == g + [0, 0, 0, 0];
  }

  lemma NothingGlued()
    ensures Glue([], ':') == ""
  {
  }

  /** The bucket of any text: itself unless it reads as IPv6; then the IPv4 address it embeds, or else the
      network of its first 64 bits, written as such. */
  lemma BucketExactly(ip: string)
    ensures ParseIpv6(ip).None? ==> RateLimitBucket(ip) == ip
    ensures ParseIpv6(ip).Some? && EmbeddedIn(ip).Some? ==> Ipv4Value(RateLimitBucket(ip)) == EmbeddedIn(ip)
    ensures ParseIpv6(ip).Some? && EmbeddedIn(ip).None? ==>
              exists network :: RateLimitBucket(ip) == network + "/64" && |ParseIpv6(ip).value| == 8
                                && ParseIpv6(network) == Some(ParseIpv6(ip).value[..4] + [0, 0, 0, 0])
  {
    hide ParseIpv6, EmbeddedIn, Ipv4Text, Ipv4Value, PrefixText, EmbeddedValue;
    if ParseIpv6(ip).Some? {
      BucketText(ip);
      ParsedBelow(ip);
      if EmbeddedIn(ip).Some? {
        Ipv4RoundTrip(EmbeddedIn(ip).value);
      } else {
        var g := ParseIpv6(ip).value[..4];
        PrefixReads(g);
        var t := PrefixText(g);
        assert t == t[..|t| - 3] + "/64";
      }
    }
  }
}
