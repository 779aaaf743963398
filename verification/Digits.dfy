// Decimal digits of natural numbers as ASCII bytes.

module Digits {
  import opened Bytes

  const ASCII_ZERO: byte := 48
  const ASCII_MINUS: byte := 45
  const ASCII_DOT: byte := 46

  predicate IsDigit(c: byte) {
    48 <= c <= 57
  }

  predicate AllDigits(s: Bytes) {
    forall i :: 0 <= i < |s| ==> IsDigit(s[i])
  }

  function Pow10(w: nat): (r: nat)
    ensures r >= 1
  {
    if w == 0 then 1 else 10 * Pow10(w - 1)
  }

  function DigitOf(d: nat): byte
    requires d < 10
  {
    48 + d
  }

  /** The shortest decimal form, as an unsigned integer is displayed. */
  function Decimal(n: nat): (s: Bytes)
    ensures |s| >= 1 && AllDigits(s)
  {
    if n < 10 then [DigitOf(n)] else Decimal(n / 10) + [DigitOf(n % 10)]
  }

  function Repeat(c: byte, n: nat): (s: Bytes)
    ensures |s| == n && forall i :: 0 <= i < n ==> s[i] == c
  {
    seq(n, i => c)
  }

  /** At least `w` characters, filled up with zeros on the left. */
  function Padded(n: nat, w: nat): (s: Bytes)
    ensures |s| >= w && AllDigits(s)
  {
    var d := Decimal(n);
    if |d| < w then Repeat(ASCII_ZERO, w - |d|) + d else d
  }

  /** Exactly `w` digits, the last ones of `n`. */
  function LastDigits(n: nat, w: nat): (s: Bytes)
    ensures |s| == w && AllDigits(s)
  {
    if w == 0 then [] else LastDigits(n / 10, w - 1) + [DigitOf(n % 10)]
  }

  /** Value of a string of digits. */
  function Value(s: Bytes): nat
    requires AllDigits(s)
  {
    if s == [] then 0 else Value(s[..|s| - 1]) * 10 + (s[|s| - 1] - 48)
  }

  lemma {:induction false} DecimalValue(n: nat)
    ensures Value(Decimal(n)) == n
    ensures n > 0 ==> Decimal(n)[0] != ASCII_ZERO
    decreases n
  {
    if n >= 10 {
      DecimalValue(n / 10);
      assert Decimal(n)[..|Decimal(n)| - 1] == Decimal(n / 10);
    }
  }

  /** A number below 10^w has at most `w` digits, and `w` of them exactly from 10^(w-1) on. */
  lemma {:induction false} DecimalLength(n: nat, w: nat)
    requires w >= 1
    ensures |Decimal(n)| <= w <==> n < Pow10(w)
    decreases n
  {
    if n >= 10 {
      if w > 1 {
        DecimalLength(n / 10, w - 1);
      }
    }
  }

  lemma {:induction false} LastDigitsOfDecimal(n: nat, w: nat)
    requires |Decimal(n)| <= w
    ensures LastDigits(n, w) == Repeat(ASCII_ZERO, w - |Decimal(n)|) + Decimal(n)
    decreases w
  {
    if n >= 10 {
      LastDigitsOfDecimal(n / 10, w - 1);
    } else if w >= 1 {
      LastDigitsOfZero(w - 1);
    }
  }

  lemma {:induction false} LastDigitsOfZero(w: nat)
    ensures LastDigits(0, w) == Repeat(ASCII_ZERO, w)
  {
    if w > 0 {
      LastDigitsOfZero(w - 1);
    }
  }

  lemma PaddedIsLastDigits(n: nat, w: nat)
    requires w >= 1 && n < Pow10(w)
    ensures Padded(n, w) == LastDigits(n, w)
  {
    DecimalLength(n, w);
    LastDigitsOfDecimal(n, w);
  }

  /** The last digits of a number that has no more spell it. */
  lemma {:induction false} LastDigitsValue(n: nat, w: nat)
    requires n < Pow10(w)
    ensures Value(LastDigits(n, w)) == n
  {
    if w > 0 {
      LastDigitsValue(n / 10, w - 1);
      assert LastDigits(n, w)[..w - 1] == LastDigits(n / 10, w - 1);
    }
  }
}
