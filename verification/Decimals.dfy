/** Plain decimal text: digits, their value, and the digits of a number. */
module Decimals {
  predicate IsDigit(c: char) {
    '0' <= c <= '9'
  }

  predicate AllDigits(text: string) {
    forall i | 0 <= i < |text| :: IsDigit(text[i])
  }

  function Pow10(n: nat): (p: nat)
    ensures p >= 1
  {
    if n == 0 then 1 else 10 * Pow10(n - 1)
  }

  function DigitValue(c: char): (d: nat)
    requires IsDigit(c)
    ensures d < 10
  {
    c as int - '0' as int
  }

  /** The number written by digits, most significant first. */
  function Value(digits: string): nat
    requires AllDigits(digits)
  {
    if digits == "" then 0
    else Value(digits[..|digits| - 1]) * 10 + DigitValue(digits[|digits| - 1])
  }

  lemma {:induction false} ValueBound(digits: string)
    requires AllDigits(digits)
    ensures Value(digits) < Pow10(|digits|)
  {
    if digits != "" {
      ValueBound(digits[..|digits| - 1]);
    }
  }

  lemma {:induction false} Pow10Monotone(a: nat, b: nat)
    requires a <= b
    ensures Pow10(a) <= Pow10(b)
    decreases b - a
  {
    if a < b {
      Pow10Monotone(a + 1, b);
    }
  }

  lemma {:induction false} Pow10Sum(a: nat, b: nat)
    ensures Pow10(a + b) == Pow10(a) * Pow10(b)
  {
    if b > 0 {
      Pow10Sum(a, b - 1);
      assert Pow10(a + b) == 10 * Pow10(a + b - 1);
      assert Pow10(a) * (10 * Pow10(b - 1)) == 10 * (Pow10(a) * Pow10(b - 1));
    }
  }

  lemma ShiftDigit(high: nat, power: nat, low: nat, digit: nat)
    ensures (high * power + low) * 10 + digit == high * (10 * power) + (low * 10 + digit)
  {
  }

  /** Leading digits count for powers of ten of the trailing ones. */
  lemma {:induction false} ValueSplit(front: string, back: string)
    requires AllDigits(front) && AllDigits(back)
    ensures AllDigits(front + back) && Value(front + back) == Value(front) * Pow10(|back|) + Value(back)
  {
    if back == "" {
      assert front + back == front;
    } else {
      var n := |back| - 1;
      ValueSplit(front, back[..n]);
      assert (front + back)[..|front + back| - 1] == front + back[..n];
      ShiftDigit(Value(front), Pow10(n), Value(back[..n]), DigitValue(back[n]));
    }
  }

  /** The shortest digits of a number. */
  function Digits(n: nat): (digits: string)
    ensures digits != "" && AllDigits(digits)
  {
    var last := ['0' + (n % 10) as char];
    if n < 10 then last else Digits(n / 10) + last
  }

  lemma {:induction false} ValueOfDigits(n: nat)
    ensures Value(Digits(n)) == n
  {
    var digits := Digits(n);
    var last := digits[|digits| - 1];
    assert DigitValue(last) == n % 10;
    if n < 10 {
      assert Value(digits[..0]) == 0;
    } else {
      ValueOfDigits(n / 10);
      assert digits[..|digits| - 1] == Digits(n / 10);
    }
  }

  lemma {:induction false} DigitsLength(n: nat, width: nat)
    requires width >= 1 && n < Pow10(width)
    ensures |Digits(n)| <= width
  {
    if n >= 10 {
      assert width >= 2 by {
        assert Pow10(1) == 10 * Pow10(0);
      }
      DigitsLength(n / 10, width - 1);
    }
  }
}
