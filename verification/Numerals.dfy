/** Numbers as text: `toString(10)`, `toString(16)` and back. */
module Numerals {

  /** The value of a digit; 16 for any other character. */
  function DigitOf(c: char): (d: nat)
    ensures d <= 16
  {
    if '0' <= c <= '9' then (c - '0') as nat else if 'a' <= c <= 'f' then (c - 'a') as nat + 10 else 16
  }

  function DigitChar(d: nat): (c: char)
    requires d < 16
    ensures DigitOf(c) == d && c != '.' && c != ':' && c != '/' && c != '%'
  {
    if d < 10 then '0' + d as char else 'a' + (d - 10) as char
  }

  predicate IsNumeral(s: string, base: nat) {
    s != "" && forall i :: 0 <= i < |s| ==> DigitOf(s[i]) < base
  }

  function ValueOf(s: string, base: nat): nat {
    if s == "" then 0 else ValueOf(s[..|s| - 1], base) * base + DigitOf(s[|s| - 1])
  }

  function Numeral(n: nat, base: nat): string
    requires 2 <= base <= 16
  {
    if n < base then [DigitChar(n)] else Numeral(n / base, base) + [DigitChar(n % base)]
  }

  lemma AppendDigit(s: string, c: char, base: nat)
    requires base <= 16 && DigitOf(c) < base && (s == "" || IsNumeral(s, base))
    ensures IsNumeral(s + [c], base) && ValueOf(s + [c], base) == ValueOf(s, base) * base + DigitOf(c)
  {
    assert (s + [c])[..|s|] == s;
  }

  lemma QuotientAndRest(n: nat, base: nat)
    requires base > 0
    ensures n / base * base + n % base == n && n % base < base
  {
  }

  /** A numeral reads back as its number, so different numbers have different numerals. */
  lemma {:induction false} NumeralReads(n: nat, base: nat)
    requires 2 <= base <= 16
    ensures IsNumeral(Numeral(n, base), base) && ValueOf(Numeral(n, base), base) == n
    decreases n
  {
    hide *;
    QuotientAndRest(n, base);
    NumeralStep(n, base);
    if n < base {
      AppendDigit("", DigitChar(n), base);
      assert "" + [DigitChar(n)] == [DigitChar(n)];
      NoDigits(base);
    } else {
      var q, r := n / base, n % base;
      NumeralReads(q, base);
      AppendDigit(Numeral(q, base), DigitChar(r), base);
    }
  }

  lemma NumeralStep(n: nat, base: nat)
    requires 2 <= base <= 16
    ensures n < base ==> Numeral(n, base) == [DigitChar(n)]
    ensures n >= base ==> n / base < n && n % base < 16 && Numeral(n, base) == Numeral(n / base, base) + [DigitChar(n % base)]
  {
  }

  lemma NoDigits(base: nat)
    ensures ValueOf("", base) == 0
  {
  }

  /** 16, 256, 4096 and 65536. */
  function HexBound(digits: nat): nat {
    if digits == 0 then 1 else 16 * HexBound(digits - 1)
  }

  /** Four hex digits hold every 16-bit number, and no more; three decimal digits every byte. */
  lemma {:induction false} HexLength(n: nat, digits: nat)
    requires digits >= 1 && n < HexBound(digits)
    ensures |Numeral(n, 16)| <= digits
    decreases digits
  {
    if n >= 16 {
      HexLength(n / 16, digits - 1);
    }
  }

  lemma OctetLength(n: nat)
    ensures n < 1000 ==> |Numeral(n, 10)| <= 3
  {
    if 100 <= n < 1000 {
      assert n / 10 / 10 < 10;
      NumeralStep(n / 10, 10);
    }
  }

  lemma {:induction false} HexBelow(s: string)
    requires s == "" || IsNumeral(s, 16)
    ensures ValueOf(s, 16) < HexBound(|s|)
    decreases |s|
  {
    if s != "" {
      HexBelow(s[..|s| - 1]);
    }
  }
}
