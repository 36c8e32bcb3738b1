/** Address fields cut at their commas (src/utils/recipients.ts:77-105, src/modules/smtp-submission/
    message-mapper.ts:300-340): whatever the texts, joining and splitting again gives the pieces of each. */
module FieldCuts {
  import opened AsciiText
  import opened Recipients
  import opened Submission

  /** The pieces of a text, as addresses are compared; blank ones left out. */
  function CutText(s: string): set<string> {
    EnvelopeSet(Split(s, ','))
  }

  /** The pieces of all names. */
  function Cut(names: set<string>): set<string> {
    set n, m | n in names && m in CutText(n) :: m
  }

  // ---------- Trimming ----------

  lemma {:induction false} TrimLeftLower(s: string)
    ensures TrimLeft(AsciiLower(s)) == AsciiLower(TrimLeft(s))
    ensures TrimLeft(s) != "" ==> !IsSpace(TrimLeft(s)[0])
    ensures |TrimLeft(s)| <= |s| && TrimLeft(s) == s[|s| - |TrimLeft(s)|..]
  {
    if s != "" && IsSpace(s[0]) {
      TrimLeftLower(s[1..]);
      assert AsciiLower(s)[1..] == AsciiLower(s[1..]);
    }
  }

  lemma {:induction false} TrimRightLower(s: string)
    ensures TrimRight(AsciiLower(s)) == AsciiLower(TrimRight(s))
    ensures TrimRight(s) != "" ==> !IsSpace(TrimRight(s)[|TrimRight(s)| - 1])
    ensures |TrimRight(s)| <= |s| && TrimRight(s) == s[..|TrimRight(s)|]
    decreases |s|
  {
    if s != "" && IsSpace(s[|s| - 1]) {
      var init := s[..|s| - 1];
      TrimRightLower(init);
      assert AsciiLower(s)[..|s| - 1] == AsciiLower(init);
    }
  }

  /** Trimming and lower case: in either order, twice as good as once, and without new characters. */
  lemma TrimLower(s: string)
    ensures Trim(AsciiLower(s)) == AsciiLower(Trim(s)) && Trim(Trim(s)) == Trim(s)
    ensures forall c :: c in Trim(s) ==> c in s
  {
    TrimLeftLower(s);
    TrimRightLower(TrimLeft(s));
  }

  lemma LowerTwice(s: string)
    ensures AsciiLower(AsciiLower(s)) == AsciiLower(s) && (',' in AsciiLower(s) ==> ',' in s)
  {
  }

  lemma NormOfLower(s: string)
    ensures Norm(AsciiLower(s)) == Norm(s) && Norm(Norm(s)) == Norm(s) && (',' in Norm(s) ==> ',' in s)
  {
    hide Trim, AsciiLower;
    TrimLower(s);
    TrimLower(Trim(s));
    LowerTwice(s);
    LowerTwice(Trim(s));
  }

  lemma SpaceBefore(s: string)
    ensures Norm(" " + s) == Norm(s)
  {
    assert (" " + s)[1..] == s;
  }

  lemma EmptyNorm(a: string)
    ensures Norm(a) == "" <==> Trim(a) == ""
    ensures a == "" ==> Trim(a) == ""
  {
    hide TrimRight;
    assert Trim("") == "" by {
      assert TrimLeft("") == "";
      NothingToTrim();
    }
  }

  lemma NothingToTrim()
    ensures TrimRight("") == ""
  {
  }

  // ---------- Sets of names ----------

  lemma EnvelopeGrows(addresses: seq<string>, a: string)
    ensures EnvelopeSet(addresses + [a]) == EnvelopeSet(addresses) + (if Trim(a) == "" then {} else {Norm(a)})
    ensures EnvelopeSet([a] + addresses) == EnvelopeSet(addresses) + (if Trim(a) == "" then {} else {Norm(a)})
  {
    hide Trim;
    assert forall x :: x in addresses + [a] <==> x in addresses || x == a;
    assert forall x :: x in [a] + addresses <==> x in addresses || x == a;
    assert Norm(a) == "" <==> Trim(a) == "";
    var all, more, most := EnvelopeSet(addresses), EnvelopeSet(addresses + [a]), EnvelopeSet([a] + addresses);
    assert a in addresses + [a] && a in [a] + addresses;
    forall n | n in all
      ensures n in more && n in most
    {
      var x :| x in addresses && Norm(x) == n;
      assert x in addresses + [a] && x in [a] + addresses;
    }
  }

  lemma NoNames()
    ensures EnvelopeSet([]) == {}
  {
  }

  lemma NoEmptyName(addresses: seq<string>)
    ensures "" !in EnvelopeSet(addresses)
  {
  }

  lemma {:induction false} EnvelopeConcat(a: seq<string>, b: seq<string>)
    ensures EnvelopeSet(a + b) == EnvelopeSet(a) + EnvelopeSet(b)
  {
    hide EnvelopeSet, Norm, Trim;
    if a == [] {
      NoNames();
      assert a + b == b;
    } else {
      EnvelopeConcat(a[1..], b);
      EnvelopeGrows(a[1..], a[0]);
      EnvelopeGrows(a[1..] + b, a[0]);
      assert a == [a[0]] + a[1..];
      assert a + b == [a[0]] + (a[1..] + b);
    }
  }

  lemma OneName(a: string)
    ensures EnvelopeSet([a]) == if Norm(a) == "" then {} else {Norm(a)}
  {
    hide EnvelopeSet, Norm, Trim;
    NoNames();
    EnvelopeGrows([], a);
    EmptyNorm(a);
    assert [a] + [] == [a];
  }

  // ---------- Cutting ----------

  lemma SplitStep(s: string)
    ensures var n := Before(s, ',');
            Split(s, ',') == if n == |s| then [s] else [s[..n]] + Split(s[n + 1..], ',')
  {
    hide Before;
  }

  /** Cutting a text: its first piece, and the cut of what follows the comma. */
  lemma CutStep(s: string)
    ensures var n := Before(s, ',');
            CutText(s) == EnvelopeSet([s[..n]]) + (if n == |s| then {} else CutText(s[n + 1..]))
  {
    SplitStep(s);
    hide Split, EnvelopeSet;
    var n := Before(s, ',');
    if n < |s| {
      EnvelopeConcat([s[..n]], Split(s[n + 1..], ','));
    } else {
      assert s[..n] == s;
    }
  }

  lemma {:induction false} SplitConcat(a: string, b: string)
    ensures Split(a + "," + b, ',') == Split(a, ',') + Split(b, ',')
    decreases |a|
  {
    SplitStep(a);
    hide Split;
    var n := Before(a, ',');
    if n == |a| {
      SplitFirst(a, ',', b);
    } else {
      var p, rest := a[..n], a[n + 1..];
      SplitConcat(rest, b);
      SplitFirst(p, ',', rest + "," + b);
      assert a + "," + b == p + "," + (rest + "," + b);
    }
  }

  lemma CutSpace(s: string)
    ensures CutText(" " + s) == CutText(s)
  {
    CutStep(s);
    CutStep(" " + s);
    var n := Before(s, ',');
    assert (" " + s)[1..] == s;
    assert Before(" " + s, ',') == n + 1;
    assert (" " + s)[..n + 1] == " " + s[..n];
    assert n < |s| ==> (" " + s)[n + 2..] == s[n + 1..];
    hide CutText, EnvelopeSet;
    OneName(s[..n]);
    OneName(" " + s[..n]);
    SpaceBefore(s[..n]);
  }

  lemma CutConcat(a: string, b: string)
    ensures CutText(a + ", " + b) == CutText(a) + CutText(b)
  {
    hide Split, EnvelopeSet;
    SplitConcat(a, " " + b);
    assert a + "," + (" " + b) == a + ", " + b;
    EnvelopeConcat(Split(a, ','), Split(" " + b, ','));
    CutSpace(b);
  }

  lemma CutNothing()
    ensures CutText("") == {}
  {
    CutStep("");
    hide CutText, EnvelopeSet, Norm, Trim;
    OneName("");
    EmptyNorm("");
    assert ""[..0] == "";
  }

  lemma {:induction false} BeforeLower(s: string)
    ensures Before(AsciiLower(s), ',') == Before(s, ',')
  {
    if s != "" && s[0] != ',' {
      BeforeLower(s[1..]);
      assert AsciiLower(s)[1..] == AsciiLower(s[1..]);
    }
  }

  lemma {:induction false} CutLower(s: string)
    ensures CutText(AsciiLower(s)) == CutText(s)
    decreases |s|
  {
    var n, l := Before(s, ','), AsciiLower(s);
    BeforeLower(s);
    CutStep(s);
    CutStep(l);
    assert l[..n] == AsciiLower(s[..n]);
    OneName(s[..n]);
    OneName(l[..n]);
    NormOfLower(s[..n]);
    if n < |s| {
      assert l[n + 1..] == AsciiLower(s[n + 1..]);
      CutLower(s[n + 1..]);
    }
  }

  lemma CutUnion(a: set<string>, b: set<string>)
    ensures Cut(a + b) == Cut(a) + Cut(b)
  {
    hide CutText;
  }

  lemma CutOne(n: string)
    ensures Cut({n}) == CutText(n)
  {
    hide CutText;
  }

  lemma CutNone()
    ensures Cut({}) == {}
  {
  }

  lemma LowerSetStep(parts: seq<string>)
    requires parts != []
    ensures LowerSet(parts) == {AsciiLower(parts[0])} + LowerSet(parts[1..])
  {
    hide AsciiLower;
    assert parts == [parts[0]] + parts[1..];
    assert parts[0] in parts;
    assert forall x :: x in parts <==> x == parts[0] || x in parts[1..];
  }

  /** Texts joined by commas are cut into the pieces of each. */
  lemma {:induction false} CutJoin(parts: seq<string>)
    ensures CutText(Join(parts)) == Cut(LowerSet(parts))
  {
    hide CutText, Cut, LowerSet;
    if parts == [] {
      CutNothing();
      NoLowers();
      CutNone();
    } else {
      var p, rest := parts[0], parts[1..];
      LowerSetStep(parts);
      CutUnion({AsciiLower(p)}, LowerSet(rest));
      CutOne(AsciiLower(p));
      CutLower(p);
      CutJoin(rest);
      if rest != [] {
        CutConcat(p, Join(rest));
      } else {
        CutNothing();
      }
    }
  }

  lemma NoLowers()
    ensures LowerSet([]) == {}
  {
  }

  /** A piece holds no comma and is compared as itself. */
  lemma PieceIsPlain(s: string, m: string)
    requires m in CutText(s)
    ensures m != "" && ',' !in m && Norm(m) == m
  {
    hide Split, Norm;
    SplitGlue(s, ',');
    var q :| q in Split(s, ',') && m == Norm(q);
    NormOfLower(q);
  }

  lemma CutPlain(m: string)
    requires ',' !in m
    ensures CutText(m) == EnvelopeSet([m])
  {
    SplitFirst(m, ',', "");
    hide Split;
  }

  /** Names without a comma are their own pieces. */
  lemma CutOfPlain(names: set<string>)
    requires forall m :: m in names ==> m != "" && ',' !in m && Norm(m) == m
    ensures Cut(names) == names
  {
    hide CutText, Norm;
    forall m | m in names
      ensures CutText(m) == {m}
    {
      CutPlain(m);
      OneName(m);
    }
  }

  /** What is cut already is not cut further. */
  lemma CutTwice(names: set<string>)
    ensures forall m :: m in Cut(names) ==> m != "" && ',' !in m && Norm(m) == m
  {
    hide CutText, Norm;
    forall m | m in Cut(names)
      ensures m != "" && ',' !in m && Norm(m) == m
    {
      var n :| n in names && m in CutText(n);
      PieceIsPlain(n, m);
    }
  }
}
