// The value of a packed decimal: the text it is decoded to spells the number its digits stand for.

module E2DecimalValue {
  import opened Bytes
  import opened Digits
  import opened DecimalText
  import E2Record

  lemma {:induction false} TrimmedValue(s: Bytes)
    requires AllDigits(s)
    ensures AllDigits(E2Record.TrimZeros(s)) && Value(E2Record.TrimZeros(s)) == Value(s)
  {
    if s != [] && s[0] == ASCII_ZERO {
      ValueAppend([s[0]], s[1..]);
      assert [s[0]] + s[1..] == s;
      ValueOfOne(s[0]);
      TrimmedValue(s[1..]);
    }
  }

  lemma ValueOfOne(c: byte)
    requires IsDigit(c)
    ensures Value([c]) == c as int - 48
  {
    assert [c][..0] == [];
    assert Value([]) == 0;
  }

  lemma {:induction false} ValueAppend(a: Bytes, b: Bytes)
    requires AllDigits(a) && AllDigits(b)
    ensures AllDigits(a + b) && Value(a + b) == Value(a) * Pow10(|b|) + Value(b)
  {
    if b == [] {
      assert a + b == a;
    } else {
      var front := b[..|b| - 1];
      assert (a + b)[..|a + b| - 1] == a + front;
      ValueAppend(a, front);
      LastDigit(a + b);
      LastDigit(b);
      hide Value;
      ShiftTen(Value(a), Value(front), |front|, b[|b| - 1] as int - 48);
    }
  }

  lemma LastDigit(s: Bytes)
    requires AllDigits(s) && s != []
    ensures Value(s) == Value(s[..|s| - 1]) * 10 + (s[|s| - 1] as int - 48)
  {
  }

  lemma ShiftTen(x: nat, y: nat, n: nat, d: nat)
    ensures (x * Pow10(n) + y) * 10 + d == x * Pow10(n + 1) + (y * 10 + d)
  {
    assert x * (10 * Pow10(n)) == x * Pow10(n) * 10;
  }

  lemma {:induction false} ZerosValue(n: nat)
    ensures Value(Repeat(ASCII_ZERO, n)) == 0
  {
    if n > 0 {
      ZerosValue(n - 1);
      assert Repeat(ASCII_ZERO, n)[..n - 1] == Repeat(ASCII_ZERO, n - 1);
    }
  }

  /** The digits before the point and behind it, with zeros put in front where the fraction is longer. */
  function Filled(digits: Bytes, scale: nat): Bytes {
    var significant := E2Record.TrimZeros(digits);
    var whole := if significant == [] then [ASCII_ZERO] else significant;
    if scale > 0 && |whole| <= scale then Repeat(ASCII_ZERO, scale + 1 - |whole|) + whole else whole
  }

  lemma FilledValue(digits: Bytes, scale: nat)
    requires AllDigits(digits)
    ensures
      var f := Filled(digits, scale);
      AllDigits(f) && Value(f) == Value(digits) && f != [] && (scale > 0 ==> |f| > scale)
  {
    TrimmedValue(digits);
    ValueOfOne(ASCII_ZERO);
    var significant := E2Record.TrimZeros(digits);
    var whole := if significant == [] then [ASCII_ZERO] else significant;
    assert significant == [] ==> Value([]) == 0;
    if scale > 0 && |whole| <= scale {
      var zeros := Repeat(ASCII_ZERO, scale + 1 - |whole|);
      ZerosValue(|zeros|);
      ValueAppend(zeros, whole);
    }
  }

  /** A packed decimal is decoded to text that parses, at its scale, to its digits with its sign. */
  lemma PackedDecimalValue(digits: Bytes, scale: nat, negative: bool)
    requires AllDigits(digits)
    ensures Parsed(E2Record.DecimalText(digits, scale, negative), scale)
      == (if negative then -(Value(digits) as int) else Value(digits))
  {
    FilledValue(digits, scale);
    var f := Filled(digits, scale);
    var whole, frac := f[..|f| - scale], f[|f| - scale..];
    TextIs(digits, scale, negative);
    PartsOf(f, scale);
    hide *;
    PartsParse(negative && Body(whole, frac, scale) != [ASCII_ZERO], whole, frac, scale);
    ZeroText(whole, frac, scale, f);
  }

  lemma PartsOf(f: Bytes, scale: nat)
    requires AllDigits(f) && f != [] && (scale > 0 ==> |f| > scale)
    ensures var whole, frac := f[..|f| - scale], f[|f| - scale..];
      AllDigits(whole) && whole != [] && AllDigits(frac) && (scale == 0 ==> frac == [])
        && Extended(Value(whole), frac, scale) == Value(f)
  {
    var whole, frac := f[..|f| - scale], f[|f| - scale..];
    assert whole + frac == f;
    ValueAppend(whole, frac);
    ExtendedByDigits(Value(whole), frac, scale);
    assert frac[..scale] == frac;
  }

  lemma TextIs(digits: Bytes, scale: nat, negative: bool)
    requires |Filled(digits, scale)| >= scale
    ensures
      var f := Filled(digits, scale);
      var body := Body(f[..|f| - scale], f[|f| - scale..], scale);
      E2Record.DecimalText(digits, scale, negative)
      == (if negative && body != [ASCII_ZERO] then [ASCII_MINUS] else []) + body
  {
    hide *;
    var f := Filled(digits, scale);
    FilledText(digits, scale, negative);
    PointedIsBody(f, scale);
    SignedIs(Pointed(f, scale), negative);
  }

  lemma SignedIs(text: Bytes, negative: bool)
    ensures Signed(text, negative) == (if negative && text != [ASCII_ZERO] then [ASCII_MINUS] else []) + text
  {
    assert [] + text == text;
  }

  lemma FilledText(digits: Bytes, scale: nat, negative: bool)
    requires |Filled(digits, scale)| >= scale
    ensures E2Record.DecimalText(digits, scale, negative) == Signed(Pointed(Filled(digits, scale), scale), negative)
  {
    hide E2Record.TrimZeros;
    hide Repeat;
  }

  function Signed(text: Bytes, negative: bool): Bytes {
    if negative && text != [ASCII_ZERO] then [ASCII_MINUS] + text else text
  }

  function Pointed(f: Bytes, scale: nat): Bytes
    requires |f| >= scale
  {
    if scale > 0 then f[..|f| - scale] + [ASCII_DOT] + f[|f| - scale..] else f
  }

  lemma PointedIsBody(f: Bytes, scale: nat)
    requires |f| >= scale
    ensures Pointed(f, scale) == Body(f[..|f| - scale], f[|f| - scale..], scale)
  {
    if scale == 0 {
      assert f[..|f|] == f;
    }
  }

  lemma ZeroText(whole: Bytes, frac: Bytes, scale: nat, f: Bytes)
    requires AllDigits(f) && f == whole + frac && whole != [] && (scale == 0 ==> frac == [])
    ensures Body(whole, frac, scale) == [ASCII_ZERO] ==> Value(f) == 0
  {
    ValueOfOne(ASCII_ZERO);
    assert |Body(whole, frac, scale)| == |whole| + if scale > 0 then 1 + |frac| else 0;
    assert scale == 0 ==> Body(whole, frac, scale) == whole == f;
  }
}
