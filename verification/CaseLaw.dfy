/** What comparing texts in lower case and trimming them means, without the functions that do it: the letters
    by their codes, and the white space around a text. */
module CaseLaw {
  import opened AsciiText
  import opened Recipients
  import opened Submission

  // ---------- Letters ----------

  /** The same character, or the two cases of one of the 26 letters (codes 65 to 90 and 97 to 122). */
  predicate SameLetter(c: char, d: char) {
    || c == d
    || (65 <= c as int <= 90 && d as int == c as int + 32)
    || (65 <= d as int <= 90 && c as int == d as int + 32)
  }

  /** The same text but for the case of letters. */
  predicate SameText(s: string, t: string) {
    |s| == |t| && forall i :: 0 <= i < |s| ==> SameLetter(s[i], t[i])
  }

  lemma LowerIffSameLetter(c: char, d: char)
    ensures LowerChar(c) == LowerChar(d) <==> SameLetter(c, d)
  {
  }

  /** Texts are compared in lower case: equal exactly when they differ in the case of letters alone. */
  lemma LowerIffSameText(s: string, t: string)
    ensures AsciiLower(s) == AsciiLower(t) <==> SameText(s, t)
  {
    var a, b := AsciiLower(s), AsciiLower(t);
    if SameText(s, t) {
      forall i | 0 <= i < |s|
        ensures a[i] == b[i]
      {
        LowerIffSameLetter(s[i], t[i]);
      }
    } else if |s| == |t| {
      var i :| 0 <= i < |s| && !SameLetter(s[i], t[i]);
      LowerIffSameLetter(s[i], t[i]);
      assert a[i] != b[i];
    }
  }

  /** A text in lower case is the same text, without a capital. */
  lemma LowerHasNoCapital(s: string)
    ensures SameText(s, AsciiLower(s)) && forall c :: c in AsciiLower(s) ==> !(65 <= c as int <= 90)
  {
  }

  // ---------- White space ----------

  /** Tab to carriage return, and space. */
  predicate White(c: char) {
    c as int in {9, 10, 11, 12, 13, 32}
  }

  /** From `i` to `j` stands what is left of `s` without the white space around it. */
  ghost predicate InkFrom(s: string, i: nat, j: nat) {
    && i <= j <= |s|
    && (forall k :: 0 <= k < i || j <= k < |s| ==> White(s[k]))
    && (i < j ==> !White(s[i]) && !White(s[j - 1]))
  }

  ghost predicate TrimOf(t: string, s: string) {
    exists i: nat, j: nat :: InkFrom(s, i, j) && t == s[i..j]
  }

  lemma {:induction false} LeftTrimmed(s: string) returns (i: nat)
    ensures i <= |s| && TrimLeft(s) == s[i..] && forall k :: 0 <= k < i ==> White(s[k])
    ensures i < |s| ==> !White(s[i])
  {
    if s != "" && IsSpace(s[0]) {
      var n := LeftTrimmed(s[1..]);
      i := n + 1;
      assert forall k :: 1 <= k < i ==> s[k] == s[1..][k - 1];
    } else {
      i := 0;
    }
  }

  lemma {:induction false} RightTrimmed(s: string)
    ensures var n := |TrimRight(s)|;
            && n <= |s| && TrimRight(s) == s[..n] && (forall k :: n <= k < |s| ==> White(s[k]))
            && (n > 0 ==> !White(s[n - 1]))
    decreases |s|
  {
    if s != "" && IsSpace(s[|s| - 1]) {
      RightTrimmed(s[..|s| - 1]);
    }
  }

  lemma Trimmed(s: string)
    ensures TrimOf(Trim(s), s)
  {
    var i := LeftTrimmed(s);
    RightTrimmed(TrimLeft(s));
    var j := i + |Trim(s)|;
    hide TrimLeft, TrimRight;
    assert forall k :: i <= k < |s| ==> s[k] == s[i..][k - i];
    assert InkFrom(s, i, j) && Trim(s) == s[i..j];
  }

  /** `trim` takes away the white space around a text and nothing else, and that leaves one text only. */
  lemma TrimIsExact(s: string, t: string)
    ensures Trim(s) == t <==> TrimOf(t, s)
  {
    hide Trim;
    Trimmed(s);
  }

  /** Nothing but white space. */
  predicate Blank(s: string) {
    forall k :: 0 <= k < |s| ==> White(s[k])
  }

  lemma BlankIff(s: string)
    ensures Trim(s) == "" <==> Blank(s)
  {
    hide Trim;
    Trimmed(s);
    if Blank(s) {
      assert InkFrom(s, 0, 0);
      TrimIsExact(s, "");
      assert s[0..0] == "";
    }
  }

  /** The same address, white space around it and the case of letters aside. */
  ghost predicate Alike(a: string, b: string) {
    exists s, t :: TrimOf(s, a) && TrimOf(t, b) && SameText(s, t)
  }

  /** That is how addresses are compared. */
  lemma NormIffAlike(a: string, b: string)
    ensures Norm(a) == Norm(b) <==> Alike(a, b)
  {
    hide Trim, TrimOf, SameText, AsciiLower;
    LowerIffSameText(Trim(a), Trim(b));
    TrimIsExact(a, Trim(a));
    TrimIsExact(b, Trim(b));
    if s, t :| TrimOf(s, a) && TrimOf(t, b) && SameText(s, t) {
      TrimIsExact(a, s);
      TrimIsExact(b, t);
    }
  }
}
