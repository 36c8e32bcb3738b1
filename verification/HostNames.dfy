/** Which host names a query can carry (src/utils/dns-wire.ts:86-106), built up from labels rather than checked. */
module HostNames {
  import opened Wrappers
  import opened AsciiText
  import opened DnsBytes

  /** 1 to 63 printable ASCII characters (codes 33 to 126) without dot (46) and backslash (92). */
  predicate HostLabel(part: string) {
    1 <= |part| <= 63 && forall i :: 0 <= i < |part| ==> 33 <= part[i] as int <= 126 && part[i] as int !in {46, 92}
  }

  /** Labels joined by dots to 253 characters at most, with a last dot or without. */
  ghost predicate Writes(hostname: string, parts: seq<string>) {
    && parts != [] && (forall p :: p in parts ==> HostLabel(p))
    && |Glue(parts, '.')| <= 253
    && (hostname == Glue(parts, '.') || hostname == Glue(parts, '.') + ".")
  }

  lemma LabelIff(part: string)
    ensures HostLabel(part) <==> ValidLabel(part) && '.' !in part
  {
    if ValidLabel(part) && '.' !in part {
      forall i | 0 <= i < |part|
        ensures 33 <= part[i] as int <= 126 && part[i] as int !in {46, 92}
      {
        assert part[i] in part;
        assert LabelChar(part[i]);
      }
    }
    if HostLabel(part) {
      forall i | 0 <= i < |part|
        ensures LabelChar(part[i]) && part[i] != '.'
      {
      }
    }
  }

  lemma {:induction false} LastIsNoDot(parts: seq<string>)
    requires parts != [] && forall p :: p in parts ==> HostLabel(p)
    ensures Glue(parts, '.') != "" && Glue(parts, '.')[|Glue(parts, '.')| - 1] != '.'
  {
    assert parts[0] in parts;
    if |parts| > 1 {
      LastIsNoDot(parts[1..]);
    }
  }

  lemma PartsOfHost(name: string)
    ensures ValidHost(name) ==> Writes(name, Split(name, '.'))
  {
    SplitGlue(name, '.');
    hide Split, Glue, ValidLabel, HostLabel;
    forall p | p in Split(name, '.')
      ensures ValidLabel(p) ==> HostLabel(p)
    {
      LabelIff(p);
    }
  }

  lemma HostOfParts(parts: seq<string>)
    requires Writes(Glue(parts, '.'), parts)
    ensures ValidHost(Glue(parts, '.')) && Split(Glue(parts, '.'), '.') == parts
  {
    LastIsNoDot(parts);
    hide Split, Glue, ValidLabel, HostLabel;
    forall p | p in parts
      ensures ValidLabel(p) && '.' !in p
    {
      LabelIff(p);
    }
    GlueSplit(parts, '.');
  }

  /** A host name is accepted exactly when labels write it, and gives these labels in lower case. */
  lemma AcceptedIff(hostname: string, labels: Labels)
    ensures LabelsOf(hostname) == Some(labels) <==> exists parts :: Writes(hostname, parts) && labels == LowerAll(parts)
  {
    hide ValidHost, HostLabel, Split, Glue;
    var name := WithoutTrailingDot(hostname);
    PartsOfHost(name);
    SplitGlue(name, '.');
    assert hostname == name || hostname == name + ".";
    if LabelsOf(hostname) == Some(labels) {
      assert Writes(hostname, Split(name, '.'));
    }
    if parts :| Writes(hostname, parts) && labels == LowerAll(parts) {
      assert Writes(Glue(parts, '.'), parts);
      LastIsNoDot(parts);
      HostOfParts(parts);
      assert name == Glue(parts, '.');
    }
  }
}
