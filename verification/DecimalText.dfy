// Decimal numbers as text: an unscaled integer and a scale, in a field as wide as the precision needs.

module DecimalText {
  import opened Bytes
  import opened Digits
  import opened AsciiField

  function Magnitude(v: int): nat {
    if v < 0 then -v else v
  }

  function Sign(v: int): Bytes {
    if v < 0 then [ASCII_MINUS] else []
  }

  function WholePart(v: int, scale: nat): nat {
    Quotient(Magnitude(v), Pow10(scale))
  }

  function Quotient(n: nat, d: nat): nat
    requires d >= 1
  {
    n / d
  }

  function FractionPart(v: int, scale: nat): nat {
    Magnitude(v) % Pow10(scale)
  }

  function Fraction(v: int, scale: nat): Bytes {
    if scale == 0 then [] else [ASCII_DOT] + Padded(FractionPart(v, scale), scale)
  }

  function FormatDecimal(v: int, scale: nat): Bytes {
    Sign(v) + Decimal(WholePart(v, scale)) + Fraction(v, scale)
  }

  /** Width of the field for a precision and a scale: sign, digits, and a point if there is a fraction. */
  function Width(precision: nat, scale: nat): nat {
    precision + 1 + (if scale > 0 then 1 else 0)
  }

  /** The precision that a reader infers from the width of a field. */
  function InferredPrecision(width: nat, scale: nat): int {
    var p := if width > 1 then width - 1 - (if scale > 0 then 1 else 0) else 19;
    if p <= 38 then p else 38
  }

  // -- Parsing --

  predicate IsSpace(c: byte) {
    c == 32 || 9 <= c <= 13
  }

  function TrimStart(s: Bytes): Bytes {
    if s != [] && IsSpace(s[0]) then TrimStart(s[1..]) else s
  }

  function TrimEnd(s: Bytes): Bytes {
    if s != [] && IsSpace(s[|s| - 1]) then TrimEnd(s[..|s| - 1]) else s
  }

  /** Position of the first point, or the length. */
  function PointAt(s: Bytes): (n: nat)
    ensures n <= |s| && (forall i :: 0 <= i < n ==> s[i] != ASCII_DOT) && (n < |s| ==> s[n] == ASCII_DOT)
  {
    if s == [] || s[0] == ASCII_DOT then 0 else 1 + PointAt(s[1..])
  }

  /** Value of the digits in `s`; other characters are passed over. */
  function WholeValue(s: Bytes): nat {
    if s == [] then 0
    else
      var front, c := WholeValue(s[..|s| - 1]), s[|s| - 1];
      if IsDigit(c) then front * 10 + (c as int - 48) else front
  }

  /** `whole` with `k` more digits from `frac`; what is no digit, or missing, counts as zero. */
  function Extended(whole: nat, frac: Bytes, k: nat): nat {
    if k == 0 then whole
    else
      Extended(whole, frac, k - 1) * 10
        + (if k - 1 < |frac| && IsDigit(frac[k - 1]) then frac[k - 1] as int - 48 else 0)
  }

  function Unsigned(s: Bytes, scale: nat): nat {
    var n := PointAt(s);
    Extended(WholeValue(s[..n]), if n < |s| then s[n + 1..] else [], scale)
  }

  function Parsed(text: Bytes, scale: nat): int {
    var s := TrimEnd(TrimStart(text));
    if s == [] then 0
    else if s[0] == ASCII_MINUS then -(Unsigned(s[1..], scale) as int)
    else Unsigned(s, scale)
  }

  method ParseDecimal(text: Bytes, scale: nat) returns (v: int)
    ensures v == Parsed(text, scale)
  {
    var s := TrimEnd(TrimStart(text));
    if s == [] {
      return 0;
    }
    var negative := s[0] == ASCII_MINUS;
    if negative {
      s := s[1..];
    }
    var n := PointAt(s);
    var whole, frac := s[..n], if n < |s| then s[n + 1..] else [];
    var result: nat := 0;
    for i := 0 to |whole|
      invariant result == WholeValue(whole[..i])
    {
      assert whole[..i + 1][..i] == whole[..i];
      if IsDigit(whole[i]) {
        result := result * 10 + (whole[i] as int - 48);
      }
    }
    assert whole[..|whole|] == whole;
    for i := 0 to scale
      invariant result == Extended(WholeValue(whole), frac, i)
    {
      result := result * 10;
      if i < |frac| && IsDigit(frac[i]) {
        result := result + (frac[i] as int - 48);
      }
    }
    v := if negative then -(result as int) else result;
  }

  // -- Round trip --

  lemma {:induction false} WholeOfDigits(s: Bytes)
    requires AllDigits(s)
    ensures WholeValue(s) == Value(s)
  {
    if s != [] {
      WholeOfDigits(s[..|s| - 1]);
    }
  }

  lemma {:induction false} ExtendedByDigits(whole: nat, frac: Bytes, k: nat)
    requires AllDigits(frac) && k <= |frac|
    ensures Extended(whole, frac, k) == whole * Pow10(k) + Value(frac[..k])
  {
    if k > 0 {
      ExtendedByDigits(whole, frac, k - 1);
      assert frac[..k][..k - 1] == frac[..k - 1];
    }
  }

  lemma {:induction false} PointIn(whole: Bytes, rest: Bytes)
    requires AllDigits(whole) && (rest == [] || rest[0] == ASCII_DOT)
    ensures PointAt(whole + rest) == |whole|
  {
    if whole != [] {
      assert (whole + rest)[1..] == whole[1..] + rest;
      PointIn(whole[1..], rest);
    } else {
      assert whole + rest == rest;
    }
  }

  /** Digits with or without a sign are not trimmed. */
  lemma NothingToTrim(s: Bytes)
    requires s != [] && !IsSpace(s[0]) && !IsSpace(s[|s| - 1])
    ensures TrimEnd(TrimStart(s)) == s
  {
  }

  /** Whole digits and some of the fraction: missing digits of the fraction are zeros. */
  lemma BodyParses(whole: Bytes, frac: Bytes, scale: nat)
    requires AllDigits(whole) && AllDigits(frac) && (scale > 0 || frac == [])
    ensures Unsigned(Body(whole, frac, scale), scale) == Extended(Value(whole), frac, scale)
  {
    hide Extended;
    hide WholeValue;
    hide Value;
    hide PointAt;
    var rest := if scale > 0 then [ASCII_DOT] + frac else [];
    var body := whole + rest;
    PointIn(whole, rest);
    WholeOfDigits(whole);
    assert body[..|whole|] == whole;
    assert scale > 0 ==> body[|whole| + 1..] == frac;
  }

  function Body(whole: Bytes, frac: Bytes, scale: nat): Bytes {
    whole + if scale > 0 then [ASCII_DOT] + frac else []
  }

  lemma BodyEnds(whole: Bytes, frac: Bytes, scale: nat)
    requires AllDigits(whole) && whole != [] && AllDigits(frac)
    ensures var body := Body(whole, frac, scale); body != [] && IsDigit(body[0]) && !IsSpace(body[|body| - 1])
  {
    var body := Body(whole, frac, scale);
    assert body[|body| - 1]
      == if scale > 0 && frac != [] then frac[|frac| - 1] else if scale > 0 then ASCII_DOT else whole[|whole| - 1];
  }

  lemma SignParses(negative: bool, body: Bytes, scale: nat)
    requires body != [] && IsDigit(body[0]) && !IsSpace(body[|body| - 1])
    ensures
      var n := Unsigned(body, scale);
      Parsed((if negative then [ASCII_MINUS] else []) + body, scale) == if negative then -(n as int) else n
  {
    hide Unsigned;
    hide TrimStart;
    hide TrimEnd;
    if negative {
      var text := [ASCII_MINUS] + body;
      assert text[1..] == body && text[|text| - 1] == body[|body| - 1];
      NothingToTrim(text);
    } else {
      assert [] + body == body;
      NothingToTrim(body);
    }
  }

  lemma PartsParse(negative: bool, whole: Bytes, frac: Bytes, scale: nat)
    requires AllDigits(whole) && whole != [] && AllDigits(frac) && (scale > 0 || frac == [])
    ensures var n := Extended(Value(whole), frac, scale);
      Parsed((if negative then [ASCII_MINUS] else []) + Body(whole, frac, scale), scale)
        == if negative then -(n as int) else n
  {
    hide *;
    BodyParses(whole, frac, scale);
    BodyEnds(whole, frac, scale);
    SignParses(negative, Body(whole, frac, scale), scale);
  }

  lemma FractionDigits(v: int, scale: nat)
    requires scale > 0
    ensures var frac := Padded(FractionPart(v, scale), scale); |frac| == scale && Value(frac) == FractionPart(v, scale)
  {
    var n := FractionPart(v, scale);
    PaddedIsLastDigits(n, scale);
    LastDigitsValue(n, scale);
  }

  lemma Divides(n: nat, d: nat)
    requires d >= 1
    ensures Quotient(n, d) * d + n % d == n
  {
  }

  lemma FormatIs(v: int, scale: nat)
    ensures FormatDecimal(v, scale)
      == Sign(v)
        + Body(Decimal(WholePart(v, scale)), if scale == 0 then [] else Padded(FractionPart(v, scale), scale), scale)
  {
    hide Decimal;
    hide Padded;
  }

  /** A formatted decimal parses back. */
  lemma FormatParses(v: int, scale: nat)
    ensures Parsed(FormatDecimal(v, scale), scale) == v
  {
    hide *;
    var whole, frac := Decimal(WholePart(v, scale)), if scale == 0 then [] else Padded(FractionPart(v, scale), scale);
    FormatIs(v, scale);
    SignIs(v);
    PartsValue(v, scale);
    PartsParse(v < 0, whole, frac, scale);
  }

  lemma SignIs(v: int)
    ensures Sign(v) == if v < 0 then [ASCII_MINUS] else []
    ensures v == if v < 0 then -(Magnitude(v) as int) else Magnitude(v)
  {
  }

  lemma PartsValue(v: int, scale: nat)
    ensures
      var whole, frac := Decimal(WholePart(v, scale)), if scale == 0 then [] else Padded(FractionPart(v, scale), scale);
      whole != [] && AllDigits(whole) && AllDigits(frac) && (scale == 0 ==> frac == [])
        && Extended(Value(whole), frac, scale) == Magnitude(v)
  {
    hide Decimal;
    hide Padded;
    hide Value;
    hide Quotient;
    DecimalValue(WholePart(v, scale));
    Divides(Magnitude(v), Pow10(scale));
    if scale > 0 {
      var frac := Padded(FractionPart(v, scale), scale);
      FractionDigits(v, scale);
      ExtendedByDigits(WholePart(v, scale), frac, scale);
      assert frac[..scale] == frac;
    }
  }

  // -- In a field of the inferred width --

  lemma {:induction false} PowSplit(a: nat, b: nat)
    ensures Pow10(a + b) == Pow10(a) * Pow10(b)
  {
    if a > 0 {
      PowSplit(a - 1, b);
      assert 10 * (Pow10(a - 1) * Pow10(b)) == 10 * Pow10(a - 1) * Pow10(b);
    }
  }

  lemma QuotientBelow(n: nat, d: nat, m: nat)
    requires d >= 1 && n < m * d
    ensures Quotient(n, d) < m
  {
    Divides(n, d);
    var q := Quotient(n, d);
    hide Quotient;
    assert q >= m ==> q * d >= m * d;
  }

  lemma WholeLength(v: int, precision: nat, scale: nat)
    requires scale <= precision && Magnitude(v) < Pow10(precision)
    ensures |Decimal(WholePart(v, scale))| <= if scale < precision then precision - scale else 1
  {
    hide Quotient;
    hide Decimal;
    PowSplit(precision - scale, scale);
    QuotientBelow(Magnitude(v), Pow10(scale), Pow10(precision - scale));
    if scale < precision {
      DecimalLength(WholePart(v, scale), precision - scale);
    } else {
      DecimalLength(WholePart(v, scale), 1);
    }
  }

  lemma DigitsNotNul(s: Bytes)
    requires AllDigits(s)
    ensures NoNul(s)
  {
  }

  lemma FormatNoNul(v: int, scale: nat)
    ensures NoNul(FormatDecimal(v, scale))
  {
    hide Decimal;
    hide Padded;
    hide WholePart;
    hide FractionPart;
    DigitsNotNul(Decimal(WholePart(v, scale)));
    DigitsNotNul(Padded(FractionPart(v, scale), scale));
  }

  lemma FormatFits(v: int, precision: nat, scale: nat)
    requires scale <= precision && Magnitude(v) < Pow10(precision)
    ensures |FormatDecimal(v, scale)| <= Width(precision, scale) + (if scale == precision && v < 0 then 1 else 0)
    ensures scale == precision && v < 0 && scale > 0 ==> |FormatDecimal(v, scale)| == Width(precision, scale) + 1
  {
    WholeLength(v, precision, scale);
    if scale > 0 {
      FractionDigits(v, scale);
    }
    hide Decimal;
    hide Padded;
    hide WholePart;
    hide FractionPart;
  }

  /** The last digit of a fraction that fills the precision is lost behind a sign. */
  lemma CutParses(v: int, scale: nat)
    requires v < 0 && scale > 0 && Magnitude(v) < Pow10(scale)
    ensures |FormatDecimal(v, scale)| == Width(scale, scale) + 1
    ensures Parsed(FormatDecimal(v, scale)[..Width(scale, scale)], scale) == -(Magnitude(v) - Magnitude(v) % 10)
  {
    FormatFits(v, scale, scale);
    WholeLength(v, scale, scale);
    FractionDigits(v, scale);
    FormatIs(v, scale);
    PartsValue(v, scale);
    CutFraction(v, scale);
    hide *;
    SignIs(v);
    var whole, frac := Decimal(WholePart(v, scale)), Padded(FractionPart(v, scale), scale);
    CutBody([ASCII_MINUS], whole, frac, scale);
    PartsParse(true, whole, frac[..scale - 1], scale);
  }

  lemma CutBody(sign: Bytes, whole: Bytes, frac: Bytes, scale: nat)
    requires scale > 0 && |frac| == scale && AllDigits(frac)
    ensures (sign + Body(whole, frac, scale))[..|sign| + |whole| + scale]
      == sign + Body(whole, frac[..scale - 1], scale)
    ensures AllDigits(frac[..scale - 1])
  {
  }

  lemma CutFraction(v: int, scale: nat)
    requires scale > 0 && Magnitude(v) < Pow10(scale)
    ensures var whole, frac := Decimal(WholePart(v, scale)), Padded(FractionPart(v, scale), scale);
      |frac| == scale && Extended(Value(whole), frac[..scale - 1], scale) == Magnitude(v) - Magnitude(v) % 10
  {
    var whole, frac := Decimal(WholePart(v, scale)), Padded(FractionPart(v, scale), scale);
    SmallQuotient(Magnitude(v), Pow10(scale));
    FractionDigits(v, scale);
    DecimalValue(WholePart(v, scale));
    hide Decimal;
    hide Padded;
    hide Quotient;
    hide Pow10;
    CutDigits(frac);
  }

  lemma CutDigits(frac: Bytes)
    requires AllDigits(frac) && frac != []
    ensures Extended(0, frac[..|frac| - 1], |frac|) == Value(frac) - Value(frac) % 10
  {
    var n := |frac| - 1;
    var cut := frac[..n];
    DigitsOnly(cut);
    assert Extended(0, cut, n + 1) == Extended(0, cut, n) * 10;
    assert Value(frac) == Value(cut) * 10 + (frac[n] as int - 48);
    hide Value;
    hide Extended;
    TimesTen(Value(cut), frac[n] as int - 48);
  }

  lemma DigitsOnly(frac: Bytes)
    requires AllDigits(frac)
    ensures Extended(0, frac, |frac|) == Value(frac)
  {
    ExtendedByDigits(0, frac, |frac|);
    assert frac[..|frac|] == frac;
  }

  lemma TimesTen(x: nat, d: nat)
    requires d < 10
    ensures x * 10 == (x * 10 + d) - (x * 10 + d) % 10
  {
  }

  lemma SmallQuotient(n: nat, d: nat)
    requires n < d
    ensures Quotient(n, d) == 0 && n % d == n
  {
  }

  /** What a reader makes of a decimal in a field of the width that its precision gives. */
  function ReadBack(v: int, precision: nat, scale: nat): int {
    Parsed(UpToNul(Fitted(FormatDecimal(v, scale), Width(precision, scale))), scale)
  }

  /**
    * Decimals of a precision are read back from the field, except that a negative one whose digits
    * are all behind the point loses its last digit.
    */
  lemma DecimalRoundTrip(v: int, precision: nat, scale: nat)
    requires 1 <= precision && scale <= precision && Magnitude(v) < Pow10(precision)
    ensures ReadBack(v, precision, scale) == v <==> scale < precision || v >= 0 || v % 10 == 0
    ensures precision <= 38 ==> InferredPrecision(Width(precision, scale), scale) == precision
  {
    hide Parsed;
    hide FormatDecimal;
    hide UpToNul;
    hide Fitted;
    var text, width := FormatDecimal(v, scale), Width(precision, scale);
    FormatFits(v, precision, scale);
    FormatNoNul(v, scale);
    FittedReadBack(text, width);
    if scale == precision && v < 0 {
      CutParses(v, scale);
      NothingCut(text[..width]);
      LastDigitOf(v);
    } else {
      FormatParses(v, scale);
    }
  }

  lemma LastDigitOf(v: int)
    requires v < 0
    ensures -(Magnitude(v) - Magnitude(v) % 10) == v <==> v % 10 == 0
  {
  }

  /** -0.5 of precision 1 and scale 1 is written as "-0." and read back as zero. */
  lemma CutExample()
    ensures ReadBack(-5, 1, 1) == 0
  {
    assert Pow10(1) == 10;
    hide Parsed;
    hide FormatDecimal;
    hide UpToNul;
    hide Fitted;
    var text := FormatDecimal(-5, 1);
    FormatNoNul(-5, 1);
    CutParses(-5, 1);
    FittedReadBack(text, 3);
    NothingCut(text[..3]);
  }
}
