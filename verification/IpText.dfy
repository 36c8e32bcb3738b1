/** IPv4 and IPv6 addresses as text, and which are refused (src/utils/ssrf-guard.ts:32-172). Bit operations
    are written as arithmetic on numbers below 2^32 and 2^16. */
module IpText {
  import opened Wrappers
  import opened AsciiText
  import opened Numerals

  // ---------- IPv4 ----------

  predicate IsOctetText(p: string) {
    1 <= |p| <= 3 && IsNumeral(p, 10)
  }

  predicate IsOctet(p: string) {
    IsOctetText(p) && ValueOf(p, 10) <= 255
  }

  function Fold(parts: seq<string>): nat {
    if parts == [] then 0 else Fold(parts[..|parts| - 1]) * 256 + ValueOf(parts[|parts| - 1], 10)
  }

  function Ipv4Value(ip: string): Option<nat> {
    var parts := Split(ip, '.');
    if |parts| == 4 && forall p :: p in parts ==> IsOctet(p) then Some(Fold(parts)) else None
  }

  /** `ipv4ToInt`. */
  method Ipv4ToInt(ip: string) returns (r: Option<nat>)
    ensures r == Ipv4Value(ip)
  {
    var parts := Split(ip, '.');
    if |parts| != 4 {
      return None;
    }
    var n := 0;
    for i := 0 to |parts|
      invariant n == Fold(parts[..i]) && forall j :: 0 <= j < i ==> IsOctet(parts[j])
    {
      assert parts[..i + 1][..i] == parts[..i];
      var p := parts[i];
      if !IsOctetText(p) {
        assert parts[i] in parts;
        return None;
      }
      var o := ValueOf(p, 10);
      if o > 255 {
        assert parts[i] in parts;
        return None;
      }
      n := n * 256 + o;
    }
    assert parts[..|parts|] == parts;
    return Some(n);
  }

  /** `intToIpv4`. */
  function Ipv4Text(n: nat): string {
    Glue([Numeral(n / 0x100_0000 % 256, 10), Numeral(n / 0x1_0000 % 256, 10), Numeral(n / 0x100 % 256, 10), Numeral(n % 256, 10)], '.')
  }

  function Pow2(k: nat): (p: nat)
    ensures p >= 1
  {
    if k == 0 then 1 else 2 * Pow2(k - 1)
  }

  /** The first `bits` bits agree. */
  predicate InRange(n: nat, base: nat, bits: nat)
    requires bits <= 32
  {
    n / Pow2(32 - bits) == base / Pow2(32 - bits)
  }

  /** The ranges of `isBlockedIpv4`. */
  predicate BlockedValue(n: nat) {
    || InRange(n, 0, 8)
    || InRange(n, 0x0A00_0000, 8)
    || InRange(n, 0x6440_0000, 10)
    || InRange(n, 0x7F00_0000, 8)
    || InRange(n, 0xA9FE_0000, 16)
    || InRange(n, 0xAC10_0000, 12)
    || InRange(n, 0xC000_0000, 24)
    || InRange(n, 0xC0A8_0000, 16)
    || InRange(n, 0xC612_0000, 15)
    || InRange(n, 0xE000_0000, 4)
    || InRange(n, 0xF000_0000, 4)
  }

  predicate IsBlockedIpv4(ip: string) {
    Ipv4Value(ip).None? || BlockedValue(Ipv4Value(ip).value)
  }

  // ---------- IPv6 ----------

  /** The characters before the zone id. */
  function WithoutZone(ip: string): string {
    ip[..Before(ip, '%')]
  }

  /** Where the text after the last colon starts; 0 without one. */
  function AfterLastColon(s: string): (n: nat)
    ensures n <= |s| && (n > 0 ==> s[n - 1] == ':') && forall i :: n <= i < |s| ==> s[i] != ':'
  {
    if s == "" then 0
    else if s[|s| - 1] == ':' then |s|
    else AfterLastColon(s[..|s| - 1])
  }

  predicate IsQuadText(s: string) {
    var parts := Split(s, '.');
    |parts| == 4 && forall p :: p in parts ==> IsOctetText(p)
  }

  /** A trailing dotted quad as two hex groups. */
  function QuadExpanded(addr: string): Option<string> {
    var at := AfterLastColon(addr);
    if at > 0 && IsQuadText(addr[at..]) then
      var n := Ipv4Value(addr[at..]);
      if n.None? then None
      else Some(addr[..at] + Numeral(n.value / 0x1_0000, 16) + ":" + Numeral(n.value % 0x1_0000, 16))
    else Some(addr)
  }

  /** Where the first `::` stands; the length without one. */
  function BeforeDouble(s: string): (n: nat)
    ensures n <= |s| && (n < |s| ==> n + 1 < |s| && s[n] == ':' && s[n + 1] == ':')
  {
    if |s| >= 2 && s[0] == ':' && s[1] == ':' then 0
    else if s == "" then 0
    else 1 + BeforeDouble(s[1..])
  }

  /** `split("::")`. */
  function Halves(s: string): (parts: seq<string>)
    ensures |parts| >= 1
    decreases |s|
  {
    var n := BeforeDouble(s);
    if n == |s| then [s] else [s[..n]] + Halves(s[n + 2..])
  }

  predicate IsHexField(f: string) {
    1 <= |f| <= 4 && IsNumeral(f, 16)
  }

  function FieldValues(fields: seq<string>): (values: seq<nat>)
    ensures |values| == |fields|
  {
    seq(|fields|, i requires 0 <= i < |fields| => ValueOf(fields[i], 16))
  }

  /** `parseGroups`; `None` when a group is not one. */
  function GroupsOf(part: string): Option<seq<nat>> {
    if part == "" then Some([])
    else if forall f :: f in Split(part, ':') ==> IsHexField(f) then Some(FieldValues(Split(part, ':')))
    else None
  }

  function Zeros(count: nat): (z: seq<nat>)
    ensures |z| == count && forall i :: 0 <= i < count ==> z[i] == 0
  {
    seq(count, _ => 0)
  }

  function ParseBody(addr: string): Option<seq<nat>> {
    var halves := Halves(addr);
    if |halves| > 2 then None
    else
      var head, tail := GroupsOf(halves[0]), if |halves| == 2 then GroupsOf(halves[1]) else Some([]);
      if head.None? || tail.None? then None
      else if |halves| == 1 then if |head.value| == 8 then head else None
      else
        var fill := 8 - |head.value| - |tail.value|;
        if fill < 1 then None else Some(head.value + Zeros(fill) + tail.value)
  }

  /** `parseIpv6`. */
  function ParseIpv6(ip: string): Option<seq<nat>> {
    var expanded := QuadExpanded(WithoutZone(AsciiLower(ip)));
    if expanded.None? then None else ParseBody(expanded.value)
  }

  /** The four bytes of two groups. */
  function Joined(high: nat, low: nat): nat {
    high * 0x1_0000 + low
  }

  predicate ZeroIn(groups: seq<nat>, start: nat, end: nat)
    requires end <= |groups|
  {
    forall i :: start <= i < end ==> groups[i] == 0
  }

  function EmbeddedValue(g: seq<nat>): Option<nat>
    requires |g| == 8
  {
    if ZeroIn(g, 0, 5) && g[5] == 0xffff then Some(Joined(g[6], g[7]))
    else if ZeroIn(g, 0, 6) then Some(Joined(g[6], g[7]))
    else if g[0] == 0x64 && g[1] == 0xff9b && ZeroIn(g, 2, 6) then Some(Joined(g[6], g[7]))
    else if g[0] == 0x2002 then Some(Joined(g[1], g[2]))
    else None
  }

  /** `zeroUpTo`. */
  method ZeroUpTo(groups: seq<nat>, start: nat, end: nat) returns (r: bool)
    requires end <= |groups|
    ensures r == ZeroIn(groups, start, end)
  {
    var i := start;
    while i < end
      invariant start <= i && forall j :: start <= j < i && j < end ==> groups[j] == 0
    {
      if groups[i] != 0 {
        return false;
      }
      i := i + 1;
    }
    return true;
  }

  /** `embeddedIpv4`, on the eight groups `parseIpv6` gives. */
  method EmbeddedIpv4(g: seq<nat>) returns (r: Option<string>)
    requires |g| == 8
    ensures r == if EmbeddedValue(g).Some? then Some(Ipv4Text(EmbeddedValue(g).value)) else None
  {
    hide Ipv4Text;
    var z5 := ZeroUpTo(g, 0, 5);
    if z5 && g[5] == 0xffff {
      return Some(Ipv4Text(Joined(g[6], g[7])));
    }
    var z6 := ZeroUpTo(g, 0, 6);
    if z6 {
      return Some(Ipv4Text(Joined(g[6], g[7])));
    }
    var middle := ZeroUpTo(g, 2, 6);
    if g[0] == 0x64 && g[1] == 0xff9b && middle {
      return Some(Ipv4Text(Joined(g[6], g[7])));
    }
    if g[0] == 0x2002 {
      return Some(Ipv4Text(Joined(g[1], g[2])));
    }
    return None;
  }

  /** `isBlockedIpv6` past the parse. */
  predicate BlockedGroups(g: seq<nat>)
    requires |g| == 8
  {
    || ZeroIn(g, 0, 8)
    || (ZeroIn(g, 0, 7) && g[7] == 1)
    || g[0] / 0x100 == 0xff
    || g[0] / 0x40 == 0xfec0 / 0x40
    || (g[0] == 0x64 && g[1] == 0xff9b && g[2] == 1)
    || (if EmbeddedValue(g).Some? then IsBlockedIpv4(Ipv4Text(EmbeddedValue(g).value))
        else g[0] / 0x200 == 0xfc00 / 0x200 || g[0] / 0x40 == 0xfe80 / 0x40)
  }

  lemma ParsedAreEight(ip: string)
    requires ParseIpv6(ip).Some?
    ensures |ParseIpv6(ip).value| == 8
  {
    hide GroupsOf, QuadExpanded, WithoutZone, Halves;
  }

  predicate IsBlockedIpv6(ip: string) {
    ParseIpv6(ip).None? ||
    (ParsedAreEight(ip);
     BlockedGroups(ParseIpv6(ip).value))
  }
}
