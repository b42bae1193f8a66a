/** Decimal text of natural numbers. */
module Numerals {
  function DigitChar(d: nat): (c: char)
    requires d < 10
    ensures '0' <= c <= '9'
  {
    ('0' as int + d) as char
  }

  predicate IsDigit(c: char) {
    '0' <= c <= '9'
  }

  predicate AllDigits(s: string) {
    forall i :: 0 <= i < |s| ==> IsDigit(s[i])
  }

  function DigitValue(c: char): (d: nat)
    requires IsDigit(c)
    ensures d < 10
  {
    c as int - '0' as int
  }

  /** The decimal text of n, without leading zeros. */
  function Digits(n: nat): (s: string)
    ensures s != [] && AllDigits(s)
    ensures n > 0 ==> s[0] != '0'
  {
    if n < 10 then [DigitChar(n)] else Digits(n / 10) + [DigitChar(n % 10)]
  }

  /** The number that a string of digits writes; the empty string writes zero. */
  function Number(s: string): (n: nat)
    requires AllDigits(s)
  {
    if s == [] then 0 else 10 * Number(s[..|s| - 1]) + DigitValue(s[|s| - 1])
  }

  function Pow10(n: nat): (p: nat)
    ensures p >= 1
  {
    if n == 0 then 1 else 10 * Pow10(n - 1)
  }

  lemma {:induction false} NumberOfDigits(n: nat)
    ensures Number(Digits(n)) == n
  {
    if n >= 10 {
      NumberOfDigits(n / 10);
      var s := Digits(n);
      assert s[..|s| - 1] == Digits(n / 10);
    } else {
      assert Digits(n)[..0] == [];
    }
  }

  /** A number has at most k digits exactly when it is below 10^k. */
  lemma {:induction false} DigitsLength(n: nat, k: nat)
    requires k > 0
    ensures |Digits(n)| <= k <==> n < Pow10(k)
    decreases k
  {
    if k == 1 {
      assert Pow10(1) == 10;
    } else if n >= 10 {
      DigitsLength(n / 10, k - 1);
    } else {
      assert Pow10(k) >= 10;
    }
  }

  /** Leading zeros do not change the number. */
  lemma {:induction false} NumberLeadingZero(s: string)
    requires AllDigits(s)
    ensures Number("0" + s) == Number(s)
  {
    if s == [] {
      assert "0" + s == "0" && "0"[..0] == "";
    } else {
      var t := "0" + s;
      assert t[..|t| - 1] == "0" + s[..|s| - 1];
      NumberLeadingZero(s[..|s| - 1]);
    }
  }

  /** Text without a leading zero is the decimal text of its number. */
  lemma {:induction false} DigitsOfNumber(s: string)
    requires AllDigits(s) && s != [] && s[0] != '0'
    ensures Number(s) > 0 && Digits(Number(s)) == s
    decreases |s|
  {
    var front, last := s[..|s| - 1], s[|s| - 1];
    assert s == front + [last];
    if front == [] {
      assert Number(front) == 0;
    } else {
      DigitsOfNumber(front);
      assert Number(s) / 10 == Number(front) && Number(s) % 10 == DigitValue(last);
    }
  }
}
