/** Decimal numerals, as printed by string formatting and read back digit by digit. */
module Decimal {

  import opened Options

  predicate IsDigit(c: char) {
    '0' <= c <= '9'
  }

  predicate AllDigits(s: string) {
    forall i | 0 <= i < |s| :: IsDigit(s[i])
  }

  function DigitValue(c: char): (n: nat)
    requires IsDigit(c)
    ensures n < 10
  {
    c as int - '0' as int
  }

  function Digit(n: nat): (c: char)
    requires n < 10
    ensures IsDigit(c) && DigitValue(c) == n
  {
    (n + '0' as int) as char
  }

  /** The number a digit string denotes; the empty string denotes 0, as an accumulator loop has it. */
  function Value(s: string): nat
    requires AllDigits(s)
  {
    if s == [] then 0 else Value(s[..|s| - 1]) * 10 + DigitValue(s[|s| - 1])
  }

  function Print(n: nat): string {
    if n < 10 then [Digit(n)] else Print(n / 10) + [Digit(n % 10)]
  }

  /** Python's `int(text)` on unsigned numerals; `None` stands for its ValueError. */
  function Parse(s: string): Option<nat> {
    if s != [] && AllDigits(s) then Some(Value(s)) else None
  }

  /** Printing and reading back is the identity. */
  lemma {:induction false} ParsePrint(n: nat)
    ensures Print(n) != [] && AllDigits(Print(n))
    ensures Value(Print(n)) == n
    ensures Parse(Print(n)) == Some(n)
  {
    if n < 10 {
      assert Print(n)[..0] == [];
    } else {
      ParsePrint(n / 10);
      var front := Print(n / 10);
      assert Print(n)[..|front|] == front;
    }
  }

  /** Reading more digits never lowers the accumulated value. */
  lemma {:induction false} PrefixValue(s: string, k: nat)
    requires AllDigits(s) && k < |s|
    ensures Value(s[..k + 1]) == Value(s[..k]) * 10 + DigitValue(s[k])
    ensures Value(s[..k]) <= Value(s[..k + 1]) <= Value(s)
    decreases |s| - k
  {
    assert s[..k + 1][..k] == s[..k];
    if k + 1 < |s| {
      PrefixValue(s, k + 1);
    } else {
      assert s[..k + 1] == s;
    }
  }
}
