/** Decimal numerals: what a digit loop computes and what `std::to_string` prints. */
module Decimal {

  /** The largest 32-bit `int`. */
  const INT_MAX := 0x7FFF_FFFF

  predicate IsDigit(c: char) {
    '0' <= c <= '9'
  }

  predicate AllDigits(s: string) {
    forall c | c in s :: IsDigit(c)
  }

  function DigitValue(c: char): nat
    requires IsDigit(c)
  {
    c as int - '0' as int
  }

  /** The number that the digits `s` denote, most significant digit first. */
  function Value(s: string): nat
    requires AllDigits(s)
  {
    if s == "" then 0 else Value(s[..|s| - 1]) * 10 + DigitValue(s[|s| - 1])
  }

  function Numeral(n: nat): (s: string)
    ensures s != "" && AllDigits(s)
  {
    if n < 10 then [n as char + '0'] else Numeral(n / 10) + [(n % 10) as char + '0']
  }

  function Pow10(k: nat): nat {
    if k == 0 then 1 else 10 * Pow10(k - 1)
  }

  lemma ValueSnoc(s: string, c: char)
    requires AllDigits(s) && IsDigit(c)
    ensures AllDigits(s + [c]) && Value(s + [c]) == Value(s) * 10 + DigitValue(c)
  {
    assert (s + [c])[..|s|] == s;
  }

  lemma {:induction false} ValueBound(s: string)
    requires AllDigits(s)
    ensures Value(s) < Pow10(|s|)
  {
    if s != "" {
      ValueBound(s[..|s| - 1]);
      assert Value(s) == Value(s[..|s| - 1]) * 10 + DigitValue(s[|s| - 1]);
      assert |s[..|s| - 1]| == |s| - 1;
      assert Pow10(|s|) == 10 * Pow10(|s| - 1);
    }
  }

  /** Without a leading zero, a numeral is at least the power of ten of its other digits. */
  lemma {:induction false} ValueAtLeast(s: string)
    requires s != "" && AllDigits(s) && s[0] != '0'
    ensures Pow10(|s| - 1) <= Value(s)
    decreases |s|
  {
    var front := s[..|s| - 1];
    assert Value(s) == Value(front) * 10 + DigitValue(s[|s| - 1]);
    if front == "" {
      assert s[0] in s;
    } else {
      assert front[0] == s[0];
      ValueAtLeast(front);
      assert Pow10(|s| - 1) == 10 * Pow10(|s| - 2);
    }
  }

  lemma {:induction false} NumeralValue(n: nat)
    ensures Value(Numeral(n)) == n
  {
    if n < 10 {
      assert Value("") == 0;
      ValueSnoc("", n as char + '0');
      assert "" + [n as char + '0'] == [n as char + '0'];
    } else {
      NumeralValue(n / 10);
      ValueSnoc(Numeral(n / 10), (n % 10) as char + '0');
    }
  }

  lemma NumeralInjective(m: nat, n: nat)
    requires Numeral(m) == Numeral(n)
    ensures m == n
  {
    NumeralValue(m);
    NumeralValue(n);
  }
}
