/** Decimal numbers as they are written. */
module Digits {

  predicate IsDigit(c: char) { '0' <= c <= '9' }

  predicate AllDigits(s: string) { forall i :: 0 <= i < |s| ==> IsDigit(s[i]) }

  // The length of the longest prefix of digits.
  function DigitLen(s: string): (n: nat)
    ensures n <= |s| && AllDigits(s[..n])
    ensures n < |s| ==> !IsDigit(s[n])
  {
    if s == [] || !IsDigit(s[0]) then 0 else 1 + DigitLen(s[1..])
  }

  function Val(s: string): int {
    if s == [] then 0 else 10 * Val(s[..|s| - 1]) + (s[|s| - 1] as int - '0' as int)
  }

  lemma {:induction false} ValNonNegative(d: string)
    requires AllDigits(d)
    ensures Val(d) >= 0
  {
    if d != [] { ValNonNegative(d[..|d| - 1]); }
  }

  // Not continuing a number: empty, or starting with something else.
  predicate EndsNumber(s: string) { s == [] || !IsDigit(s[0]) }

  lemma {:induction false} DigitLenOf(d: string, rest: string)
    requires AllDigits(d) && EndsNumber(rest)
    ensures DigitLen(d + rest) == |d|
  {
    if d == [] {
      assert d + rest == rest;
    } else {
      assert (d + rest)[0] == d[0] && (d + rest)[1..] == d[1..] + rest;
      DigitLenOf(d[1..], rest);
    }
  }

  // A number as it is written without leading zeros.
  function Decimal(n: nat): string {
    (if n < 10 then [] else Decimal(n / 10)) + [('0' as int + n % 10) as char]
  }

  /** The value of a written number is the number. */
  lemma {:induction false} ValOfDecimal(n: nat)
    ensures Decimal(n) != [] && AllDigits(Decimal(n)) && Val(Decimal(n)) == n
  {
    var s := Decimal(n);
    if n >= 10 {
      ValOfDecimal(n / 10);
      assert s[..|s| - 1] == Decimal(n / 10);
    } else {
      assert s[..|s| - 1] == [];
    }
  }
}
