/** Texts: ASCII lower case (A to Z only), and splitting at a character. */
module AsciiText {

  function LowerChar(c: char): char {
    if 'A' <= c <= 'Z' then c + 32 as char else c
  }

  function AsciiLower(s: string): (r: string)
    ensures |r| == |s|
    ensures forall i :: 0 <= i < |s| ==> r[i] == LowerChar(s[i])
  {
    seq(|s|, i requires 0 <= i < |s| => LowerChar(s[i]))
  }

  function LowerAll(texts: seq<string>): (r: seq<string>)
    ensures |r| == |texts| && forall i :: 0 <= i < |texts| ==> r[i] == AsciiLower(texts[i])
  {
    seq(|texts|, i requires 0 <= i < |texts| => AsciiLower(texts[i]))
  }

  /** The number of characters before the first `c`; all of them without one. */
  function Before(s: string, c: char): (n: nat)
    ensures n <= |s| && (n < |s| ==> s[n] == c) && forall i :: 0 <= i < n ==> s[i] != c
  {
    if s == "" || s[0] == c then 0 else 1 + Before(s[1..], c)
  }

  /** `split(c)`. */
  function Split(s: string, c: char): (parts: seq<string>)
    ensures |parts| >= 1
    decreases |s|
  {
    var n := Before(s, c);
    if n == |s| then [s] else [s[..n]] + Split(s[n + 1..], c)
  }

  /** `join(c)`. */
  function Glue(parts: seq<string>, c: char): string {
    if parts == [] then ""
    else if |parts| == 1 then parts[0]
    else parts[0] + [c] + Glue(parts[1..], c)
  }

  /** The parts hold no separator and join to the text. */
  lemma {:induction false} SplitGlue(s: string, c: char)
    ensures Glue(Split(s, c), c) == s
    ensures forall p :: p in Split(s, c) ==> c !in p
    decreases |s|
  {
    var n := Before(s, c);
    if n < |s| {
      SplitGlue(s[n + 1..], c);
      var rest := Split(s[n + 1..], c);
      assert ([s[..n]] + rest)[1..] == rest;
      assert s == s[..n] + [c] + s[n + 1..];
    }
  }

  lemma {:induction false} BeforeFirst(p: string, c: char, rest: string)
    requires c !in p
    ensures Before(p, c) == |p| && Before(p + [c] + rest, c) == |p|
    decreases |p|
  {
    if p == "" {
      assert p + [c] + rest == [c] + rest;
    } else {
      BeforeFirst(p[1..], c, rest);
      assert (p + [c] + rest)[1..] == p[1..] + [c] + rest;
      assert p[0] in p;
    }
  }

  lemma SplitFirst(p: string, c: char, rest: string)
    requires c !in p
    ensures Split(p, c) == [p] && Split(p + [c] + rest, c) == [p] + Split(rest, c)
  {
    BeforeFirst(p, c, rest);
    var s := p + [c] + rest;
    assert s[..|p|] == p && s[|p| + 1..] == rest;
  }

  /** Parts without the separator are split back. */
  lemma {:induction false} GlueSplit(parts: seq<string>, c: char)
    requires parts != [] && forall p :: p in parts ==> c !in p
    ensures Split(Glue(parts, c), c) == parts
  {
    hide Split;
    var p, rest := parts[0], parts[1..];
    assert parts == [p] + rest;
    if rest == [] {
      SplitFirst(p, c, "");
    } else {
      GlueSplit(rest, c);
      SplitFirst(p, c, Glue(rest, c));
    }
  }
}
