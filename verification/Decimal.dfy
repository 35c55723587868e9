/** Decimal digits: the value of a digit string, powers of ten, and printing. A byte is written as the
    character with its code. */
module Decimal {

  predicate IsDigit(c: char) { '0' <= c <= '9' }

  function DigitOf(c: char): (d: nat)
    requires IsDigit(c)
    ensures d < 10
  {
    (c as int) - ('0' as int)
  }

  function CharOf(d: nat): (c: char)
    requires d < 10
    ensures IsDigit(c) && DigitOf(c) == d
  {
    (('0' as int) + d) as char
  }

  predicate AllDigits(s: string) { forall i :: 0 <= i < |s| ==> IsDigit(s[i]) }

  /** The number a digit string denotes in base ten; the empty string denotes 0. */
  function Value(s: string): nat
    requires AllDigits(s)
  {
    if s == "" then 0 else 10 * Value(s[..|s| - 1]) + DigitOf(s[|s| - 1])
  }

  function Signed(negative: bool, n: int): int {
    if negative then -n else n
  }

  function Pow10(n: nat): (p: nat)
    ensures p >= 1
  {
    if n == 0 then 1 else 10 * Pow10(n - 1)
  }

  lemma ValueSnoc(s: string, c: char)
    requires AllDigits(s) && IsDigit(c)
    ensures AllDigits(s + [c]) && Value(s + [c]) == 10 * Value(s) + DigitOf(c)
  {
    assert (s + [c])[..|s|] == s;
  }

  lemma OneDigit(c: char)
    requires IsDigit(c)
    ensures AllDigits([c]) && Value([c]) == DigitOf(c)
  {
    var none := [c][..0];
    ValueSnoc(none, c);
    assert none + [c] == [c] && Value(none) == 0;
  }

  /** A longer digit string never denotes a smaller number. */
  lemma {:induction false} ValueMonotone(s: string, n: nat)
    requires AllDigits(s) && n <= |s|
    ensures Value(s[..n]) <= Value(s)
    decreases |s|
  {
    if n < |s| {
      var front := s[..|s| - 1];
      ValueMonotone(front, n);
      assert front[..n] == s[..n];
    } else {
      assert s[..n] == s;
    }
  }

  function Zeros(n: nat): string {
    seq(n, _ => '0')
  }

  function PrintNat(n: nat): (s: string)
    ensures s != "" && AllDigits(s)
  {
    if n < 10 then [CharOf(n)] else PrintNat(n / 10) + [CharOf(n % 10)]
  }

  function PrintInt(n: int): string {
    if n < 0 then ['-'] + PrintNat(-n) else PrintNat(n)
  }

  lemma {:induction false} ValueOfPrinted(n: nat)
    ensures Value(PrintNat(n)) == n
    decreases n
  {
    if n >= 10 {
      ValueOfPrinted(n / 10);
      assert PrintNat(n)[..|PrintNat(n)| - 1] == PrintNat(n / 10);
    } else {
      OneDigit(CharOf(n));
    }
  }
}
