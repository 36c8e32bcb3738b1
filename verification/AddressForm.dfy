/** What counts as an address (src/utils/recipients.ts:29-58, 88-95), built up from its parts rather than scanned. */
module AddressForm {
  import opened AsciiText
  import opened Recipients
  import opened CaseLaw

  /** Characters an address may hold on either side of its `@`. */
  predicate Allowed(s: string) {
    s != "" && forall i :: 0 <= i < |s| ==> !White(s[i]) && s[i] !in ['@', ',', '<', '>', '"']
  }

  /** A local part, and at least two labels joined by dots. */
  ghost predicate Parts(s: string, local: string, labels: seq<string>) {
    && Allowed(local) && |labels| >= 2
    && (forall l :: l in labels ==> Allowed(l) && '.' !in l)
    && s == local + "@" + Glue(labels, '.')
  }

  lemma AllowedIffPlain(s: string)
    ensures Allowed(s) <==> s != "" && AllPlain(s)
  {
  }

  lemma PlainConcat(a: string, c: char, b: string)
    ensures AllPlain(a + [c] + b) <==> AllPlain(a) && PlainChar(c) && AllPlain(b)
  {
    var s := a + [c] + b;
    hide PlainChar;
    assert s[|a|] == c;
    assert forall i :: 0 <= i < |a| ==> s[i] == a[i];
    assert forall i :: 0 <= i < |b| ==> s[|a| + 1 + i] == b[i];
  }

  /** No dot at either end and no two in a row. */
  predicate NoGaps(d: string) {
    && d != "" && d[0] != '.' && d[|d| - 1] != '.'
    && forall i :: 0 <= i < |d| - 1 ==> d[i] != '.' || d[i + 1] != '.'
  }

  lemma GapStep(d: string)
    requires Before(d, '.') < |d|
    ensures var n := Before(d, '.'); NoGaps(d) <==> n > 0 && NoGaps(d[n + 1..])
  {
    var n := Before(d, '.');
    hide NoGaps, Before;
    if n > 0 && NoGaps(d[n + 1..]) {
      NoGapsAround(d, n);
    }
    if NoGaps(d) {
      NoGapsAfter(d, n);
    }
  }

  lemma NoGapsAfter(d: string, n: nat)
    requires n < |d| && d[n] == '.' && NoGaps(d)
    ensures n > 0 && NoGaps(d[n + 1..])
  {
    var r := d[n + 1..];
    assert |r| > 0 && r[|r| - 1] == d[|d| - 1] && r[0] == d[n + 1];
    forall i | 0 <= i < |r| - 1
      ensures r[i] != '.' || r[i + 1] != '.'
    {
      assert r[i] == d[n + 1 + i] && r[i + 1] == d[n + 1 + i + 1];
    }
  }

  lemma NoGapsAround(d: string, n: nat)
    requires 0 < n < |d| && NoGaps(d[n + 1..]) && forall i :: 0 <= i < n ==> d[i] != '.'
    ensures NoGaps(d)
  {
    var r := d[n + 1..];
    assert d[|d| - 1] == r[|r| - 1];
    forall i | 0 <= i < |d| - 1
      ensures d[i] != '.' || d[i + 1] != '.'
    {
      if i > n {
        assert d[i] == r[i - n - 1] && d[i + 1] == r[i - n - 1 + 1];
      } else if i == n {
        assert d[i + 1] == r[0];
      }
    }
  }

  lemma SplitStep(d: string)
    ensures var n := Before(d, '.');
            Split(d, '.') == if n == |d| then [d] else [d[..n]] + Split(d[n + 1..], '.')
  {
    hide Before;
  }

  lemma OneLabel(d: string)
    requires Before(d, '.') == |d|
    ensures AllPlain(d) && NoGaps(d) <==> Allowed(d)
  {
    AllowedIffPlain(d);
    hide AllPlain, Allowed;
  }

  /** The labels of a text without gaps: none empty, and all allowed if the text is. */
  lemma {:induction false} LabelsOfText(d: string)
    ensures AllPlain(d) && NoGaps(d) <==> forall l :: l in Split(d, '.') ==> Allowed(l)
    ensures |Split(d, '.')| >= 2 <==> '.' in d
    decreases |d|
  {
    hide AllPlain, NoGaps, Allowed, Split, PlainChar;
    var n := Before(d, '.');
    SplitStep(d);
    if n == |d| {
      OneLabel(d);
    } else {
      var first, rest := d[..n], d[n + 1..];
      GapStep(d);
      LabelsOfText(rest);
      AllowedIffPlain(first);
      PlainConcat(first, '.', rest);
      assert d == first + ['.'] + rest;
      DotIsPlain();
      assert d[n] in d;
    }
  }

  lemma DotIsPlain()
    ensures PlainChar('.')
  {
  }

  lemma DomainIff(d: string)
    ensures IsDomain(d) <==> |Split(d, '.')| >= 2 && forall l :: l in Split(d, '.') ==> Allowed(l)
  {
    LabelsOfText(d);
    hide Split, Allowed;
  }

  /** The texts accepted as addresses are exactly those of at most 254 characters with these parts. */
  lemma AddressIff(s: string)
    ensures IsAddress(s) <==> |s| <= 254 && exists local, labels :: Parts(s, local, labels)
  {
    var n := Before(s, '@');
    hide IsDomain, Allowed, AllPlain, Split, Glue;
    if n < |s| {
      var local, d := s[..n], s[n + 1..];
      AllowedIffPlain(local);
      DomainIff(d);
      SplitGlue(d, '.');
      assert s == local + "@" + d;
      assert IsAddress(s) ==> Parts(s, local, Split(d, '.'));
    }
    if local, labels :| Parts(s, local, labels) {
      PartsFound(s, local, labels);
    }
  }

  /** Where the parts stand in the text. */
  lemma PartsFound(s: string, local: string, labels: seq<string>)
    requires Parts(s, local, labels)
    ensures var n := Before(s, '@');
            && n < |s| && s[..n] == local && 0 < n && s[n + 1..] == Glue(labels, '.')
            && AllPlain(local) && IsDomain(Glue(labels, '.'))
  {
    hide Split, Glue, IsDomain;
    NoAtSign(local);
    BeforeFirst(local, '@', Glue(labels, '.'));
    AllowedIffPlain(local);
    hide Allowed;
    GlueSplit(labels, '.');
    DomainIff(Glue(labels, '.'));
  }

  lemma NoAtSign(s: string)
    requires Allowed(s)
    ensures '@' !in s
  {
  }

  /** Its domain is its labels, in lower case. */
  lemma DomainOfParts(s: string, local: string, labels: seq<string>)
    requires Parts(s, local, labels)
    ensures DomainOf(s) == AsciiLower(Glue(labels, '.'))
  {
    PartsFound(s, local, labels);
    hide AllPlain, Glue;
    var d := Glue(labels, '.');
    DomainHasNoAt(d);
    hide IsDomain;
    BeforeFirst(d, '@', "");
  }

  lemma DomainHasNoAt(d: string)
    requires IsDomain(d)
    ensures '@' !in d
  {
  }
}
