// UTF-16LE text to UTF-8: one code unit at a time, or eight at a time where all are ASCII.

module Transcode {
  import opened Bytes

  predicate IsHigh(u: int) {
    0xD800 <= u <= 0xDBFF
  }

  predicate IsLow(u: int) {
    0xDC00 <= u <= 0xDFFF
  }

  predicate IsSurrogate(u: int) {
    0xD800 <= u <= 0xDFFF
  }

  /** A Unicode scalar value. */
  type Scalar = c: int | (0 <= c < 0xD800 || 0xE000 <= c < 0x11_0000) witness 0

  type Text = seq<Scalar>

  const REPLACEMENT: Scalar := 0xFFFD

  // -- Encoding forms --

  function Continuation(c: int): byte {
    0x80 + c % 64
  }

  /** UTF-8 of one scalar value (section 3 of RFC 3629). */
  function Utf8One(c: Scalar): (b: Bytes)
    ensures 1 <= |b| <= 4
  {
    if c < 0x80 then [c]
    else if c < 0x800 then [0xC0 + c / 64, Continuation(c)]
    else if c < 0x1_0000 then [0xE0 + c / 4096, Continuation(c / 64), Continuation(c)]
    else [0xF0 + c / 262144, Continuation(c / 4096), Continuation(c / 64), Continuation(c)]
  }

  function Utf8(s: Text): Bytes {
    if s == [] then [] else Utf8One(s[0]) + Utf8(s[1..])
  }

  function UnitLe(u: int): (b: Bytes)
    requires 0 <= u < 0x1_0000
    ensures |b| == 2
  {
    [u % 256, u / 256]
  }

  /** UTF-16 of one scalar value, its units in little-endian order (section 3.9 of the Unicode Standard). */
  function Utf16LeOne(c: Scalar): (b: Bytes)
    ensures |b| == 2 || |b| == 4
  {
    if c < 0x1_0000 then UnitLe(c)
    else UnitLe(0xD800 + (c - 0x1_0000) / 0x400) + UnitLe(0xDC00 + (c - 0x1_0000) % 0x400)
  }

  function Utf16Le(s: Text): Bytes {
    if s == [] then [] else Utf16LeOne(s[0]) + Utf16Le(s[1..])
  }

  // -- What the transcoder makes of any bytes --

  function Unit(b: Bytes): (u: int)
    requires |b| >= 2
    ensures 0 <= u < 0x1_0000
  {
    b[0] as int + 256 * b[1] as int
  }

  function Pair(high: int, low: int): Scalar
    requires IsHigh(high) && IsLow(low)
  {
    0x1_0000 + (high - 0xD800) * 0x400 + (low - 0xDC00)
  }

  /**
    * The first scalar value of `b`, and how many bytes it takes. An unmatched high surrogate takes the
    * unit behind it along.
    */
  datatype Taken = Taken(scalar: Scalar, size: nat)

  function TakeOne(b: Bytes): (t: Taken)
    requires |b| >= 2
    ensures 2 <= t.size <= 4
  {
    var u := Unit(b);
    if !IsSurrogate(u) then Taken(u, 2)
    else if IsHigh(u) && |b| >= 4 && IsLow(Unit(b[2..])) then Taken(Pair(u, Unit(b[2..])), 4)
    else if IsHigh(u) then Taken(REPLACEMENT, 4)
    else Taken(REPLACEMENT, 2)
  }

  function Drop(b: Bytes, n: nat): (r: Bytes)
    ensures n > 0 && b != [] ==> |r| < |b|
  {
    if n <= |b| then b[n..] else []
  }

  function Decoded(b: Bytes): (s: Text)
    decreases |b|
  {
    if |b| < 2 then [] else [TakeOne(b).scalar] + Decoded(Drop(b, TakeOne(b).size))
  }

  // -- The two paths --

  /** Transcode the first scalar value of the bytes from `i` on: its UTF-8, and where the next one starts. */
  method ScalarStep(bytes: Bytes, i: nat) returns (out: Bytes, next: nat)
    requires i + 1 < |bytes|
    ensures var t := TakeOne(bytes[i..]); out == Utf8One(t.scalar) && next == i + t.size
  {
    hide TakeOne;
    hide Unit;
    var lo, hi := bytes[i] as int, bytes[i + 1] as int;
    var u := lo + 256 * hi;
    UnitAt(bytes, i);
    TakenIs(bytes[i..]);
    if hi == 0 {
      next := i + 2;
      out := if lo < 0x80 then [lo] else [0xC0 + lo / 64, 0x80 + lo % 64];
    } else if u < 0x800 {
      next := i + 2;
      out := [0xC0 + u / 64, 0x80 + u % 64];
    } else if IsHigh(u) {
      out := SurrogateStep(bytes, i, u);
      next := i + 4;
    } else if IsLow(u) {
      next := i + 2;
      out := [0xEF, 0xBF, 0xBD];
    } else {
      next := i + 2;
      out := [0xE0 + u / 4096, 0x80 + u / 64 % 64, 0x80 + u % 64];
    }
  }

  lemma UnitAt(bytes: Bytes, i: nat)
    requires i + 1 < |bytes|
    ensures Unit(bytes[i..]) == bytes[i] as int + 256 * bytes[i + 1] as int
  {
  }

  /** The cases of the first unit. */
  lemma TakenIs(b: Bytes)
    requires |b| >= 2
    ensures !IsSurrogate(Unit(b)) ==> TakeOne(b) == Taken(Unit(b), 2)
    ensures IsLow(Unit(b)) ==> TakeOne(b) == Taken(REPLACEMENT, 2)
    ensures IsHigh(Unit(b)) && (|b| < 4 || !IsLow(Unit(b[2..]))) ==> TakeOne(b) == Taken(REPLACEMENT, 4)
    ensures
      IsHigh(Unit(b)) && |b| >= 4 && IsLow(Unit(b[2..])) ==> TakeOne(b) == Taken(Pair(Unit(b), Unit(b[2..])), 4)
  {
    hide Unit;
  }

  /** Behind a high surrogate: the pair, or a replacement for whatever follows. */
  method SurrogateStep(bytes: Bytes, i: nat, u: int) returns (out: Bytes)
    requires i + 1 < |bytes| && u == Unit(bytes[i..]) && IsHigh(u)
    ensures out == Utf8One(TakeOne(bytes[i..]).scalar) && TakeOne(bytes[i..]).size == 4
  {
    hide TakeOne;
    hide Unit;
    var next := i + 2;
    TakenIs(bytes[i..]);
    if next + 1 < |bytes| {
      var u2 := bytes[next] as int + 256 * bytes[next + 1] as int;
      UnitAt(bytes, next);
      RestOfRest(bytes, i, 2);
      if IsLow(u2) {
        var c := 0x1_0000 + (u - 0xD800) * 0x400 + (u2 - 0xDC00);
        return [0xF0 + c / 262144, 0x80 + c / 4096 % 64, 0x80 + c / 64 % 64, 0x80 + c % 64];
      }
    }
    out := [0xEF, 0xBF, 0xBD];
  }

  /** The scalar path, from position `start` on. */
  method TranscodeScalar(bytes: Bytes, start: nat) returns (out: Bytes)
    requires start <= |bytes|
    ensures out == Utf8(Decoded(bytes[start..]))
  {
    hide *;
    out := [];
    var i := start;
    AtStart(bytes, start);
    while i + 1 < |bytes|
      invariant start <= i && out + Utf8(Decoded(Drop(bytes, i))) == Utf8(Decoded(bytes[start..]))
      decreases |bytes| - i
    {
      var chunk, next := ScalarStep(bytes, i);
      OneStep(out, bytes, i);
      out := out + chunk;
      i := next;
    }
    NothingDecoded(bytes, i);
    assert out + [] == out;
  }

  lemma AtStart(bytes: Bytes, start: nat)
    requires start <= |bytes|
    ensures [] + Utf8(Decoded(Drop(bytes, start))) == Utf8(Decoded(bytes[start..]))
  {
    hide Utf8;
    hide Decoded;
  }

  lemma NothingDecoded(bytes: Bytes, i: nat)
    requires i + 1 >= |bytes|
    ensures Utf8(Decoded(Drop(bytes, i))) == []
  {
    assert Decoded(Drop(bytes, i)) == [];
  }

  lemma OneStep(front: Bytes, bytes: Bytes, i: nat)
    requires i + 1 < |bytes|
    ensures var t := TakeOne(bytes[i..]);
      front + Utf8(Decoded(Drop(bytes, i))) == front + Utf8One(t.scalar) + Utf8(Decoded(Drop(bytes, i + t.size)))
  {
    var t := TakeOne(bytes[i..]);
    var rest := Decoded(Drop(bytes, i + t.size));
    DecodedStep(bytes, i);
    hide *;
    Utf8Step(t.scalar, rest);
    Assoc(front, Utf8One(t.scalar), Utf8(rest));
  }

  lemma DecodedStep(bytes: Bytes, i: nat)
    requires i + 1 < |bytes|
    ensures var t := TakeOne(bytes[i..]);
      Decoded(Drop(bytes, i)) == [t.scalar] + Decoded(Drop(bytes, i + t.size))
  {
    hide TakeOne;
    var t := TakeOne(bytes[i..]);
    assert Drop(bytes, i) == bytes[i..];
    if i + t.size <= |bytes| {
      RestOfRest(bytes, i, t.size);
    }
    assert Drop(bytes[i..], t.size) == Drop(bytes, i + t.size);
  }

  lemma Utf8Step(c: Scalar, rest: Text)
    ensures Utf8([c] + rest) == Utf8One(c) + Utf8(rest)
  {
    hide Utf8One;
    assert ([c] + rest)[1..] == rest;
  }

  /** No byte of the `n` units has its top bit set, and every second byte is zero. */
  predicate AllAscii(bytes: Bytes, i: nat, n: nat)
    requires i + 2 * n <= |bytes|
  {
    (forall k :: i <= k < i + 2 * n ==> bytes[k] < 0x80)
      && (forall k :: i <= k < i + 2 * n && (k - i) % 2 == 1 ==> bytes[k] == 0)
  }

  /** The low bytes of `n` units. */
  function LowBytes(bytes: Bytes, i: nat, n: nat): (r: Bytes)
    requires i + 2 * n <= |bytes|
    decreases n
  {
    if n == 0 then [] else [bytes[i]] + LowBytes(bytes, i + 2, n - 1)
  }

  lemma {:induction false} AsciiUnits(bytes: Bytes, i: nat, n: nat)
    requires i + 2 * n <= |bytes| && AllAscii(bytes, i, n)
    ensures Utf8(Decoded(bytes[i..])) == LowBytes(bytes, i, n) + Utf8(Decoded(bytes[i + 2 * n..]))
    decreases n
  {
    hide Utf8;
    hide Decoded;
    if n > 0 {
      AsciiUnit(bytes, i);
      assert bytes[i + 1] == 0;
      AsciiUnits(bytes, i + 2, n - 1);
      Assoc([bytes[i]], LowBytes(bytes, i + 2, n - 1), Utf8(Decoded(bytes[i + 2 * n..])));
    }
  }

  lemma AsciiUnit(bytes: Bytes, i: nat)
    requires i + 2 <= |bytes| && bytes[i] < 0x80 && bytes[i + 1] == 0
    ensures Utf8(Decoded(bytes[i..])) == [bytes[i]] + Utf8(Decoded(bytes[i + 2..]))
  {
    PlainUnit(bytes, i, bytes[i]);
  }

  /** Eight units at a time while there are sixteen bytes, up to the first surrogate; then the scalar path. */
  method TranscodeUtf16Le(bytes: Bytes) returns (out: Bytes)
    ensures out == Utf8(Decoded(bytes))
  {
    hide TakeOne;
    hide Utf8;
    hide Decoded;
    out := [];
    var i := 0;
    assert bytes[0..] == bytes;
    while i + 16 <= |bytes|
      invariant 0 <= i <= |bytes| && out + Utf8(Decoded(bytes[i..])) == Utf8(Decoded(bytes))
      decreases |bytes| - i
    {
      if AllAscii(bytes, i, 8) {
        AsciiUnits(bytes, i, 8);
        Assoc(out, LowBytes(bytes, i, 8), Utf8(Decoded(bytes[i + 16..])));
        out := out + LowBytes(bytes, i, 8);
        i := i + 16;
      } else {
        var lo, hi := bytes[i] as int, bytes[i + 1] as int;
        var u := lo + 256 * hi;
        if IsSurrogate(u) {
          break;
        }
        var chunk: Bytes;
        if hi == 0 && lo < 0x80 {
          chunk := [lo];
        } else if u < 0x800 {
          chunk := [0xC0 + u / 64, 0x80 + u % 64];
        } else {
          chunk := [0xE0 + u / 4096, 0x80 + u / 64 % 64, 0x80 + u % 64];
        }
        PlainUnit(bytes, i, u);
        Assoc(out, chunk, Utf8(Decoded(bytes[i + 2..])));
        out := out + chunk;
        i := i + 2;
      }
    }
    var rest := TranscodeScalar(bytes, i);
    out := out + rest;
  }

  lemma PlainUnit(bytes: Bytes, i: nat, u: int)
    requires i + 2 <= |bytes| && u == bytes[i] as int + 256 * bytes[i + 1] as int && !IsSurrogate(u)
    ensures Utf8(Decoded(bytes[i..])) == Utf8One(u) + Utf8(Decoded(bytes[i + 2..]))
  {
    assert TakeOne(bytes[i..]) == Taken(u, 2);
    assert Drop(bytes[i..], 2) == bytes[i + 2..];
    hide TakeOne;
    hide Utf8One;
    Utf8Step(u, Decoded(bytes[i + 2..]));
  }

  // -- Text survives --

  lemma PairParts(c: Scalar)
    requires c >= 0x1_0000
    ensures var high, low := 0xD800 + (c - 0x1_0000) / 0x400, 0xDC00 + (c - 0x1_0000) % 0x400;
      IsHigh(high) && IsLow(low) && Pair(high, low) == c
  {
  }

  lemma UnitReadBack(u: int, rest: Bytes)
    requires 0 <= u < 0x1_0000
    ensures Unit(UnitLe(u) + rest) == u && (UnitLe(u) + rest)[2..] == rest
  {
  }

  lemma FirstReadBack(c: Scalar, rest: Bytes)
    ensures var b := Utf16LeOne(c) + rest; |b| >= 2 && TakeOne(b) == Taken(c, |Utf16LeOne(c)|)
  {
    if c < 0x1_0000 {
      UnitReadBack(c, rest);
    } else {
      PairParts(c);
      var high, low := UnitLe(0xD800 + (c - 0x1_0000) / 0x400), UnitLe(0xDC00 + (c - 0x1_0000) % 0x400);
      UnitReadBack(0xD800 + (c - 0x1_0000) / 0x400, low + rest);
      UnitReadBack(0xDC00 + (c - 0x1_0000) % 0x400, rest);
      Assoc(high, low, rest);
    }
  }

  /** UTF-16LE of any text is decoded to it; so transcoding maps it to the text's UTF-8. */
  lemma {:induction false} TextSurvives(s: Text)
    ensures Decoded(Utf16Le(s)) == s
  {
    if s != [] {
      var first, rest := Utf16LeOne(s[0]), Utf16Le(s[1..]);
      FirstReadBack(s[0], rest);
      assert Drop(first + rest, |first|) == rest;
      hide TakeOne;
      hide Utf16LeOne;
      TextSurvives(s[1..]);
    }
  }

  // -- The output is well-formed --

  predicate Within(b: Bytes, i: nat, lo: int, hi: int) {
    i < |b| && lo <= b[i] <= hi
  }

  /** Length of the well-formed sequence at the start of `b` (table 3-7 of the Unicode Standard), 0 if there is none. */
  function SequenceLength(b: Bytes): (n: nat)
    requires b != []
    ensures n <= |b|
  {
    var c := b[0];
    if c <= 0x7F then 1
    else if 0xC2 <= c <= 0xDF && Within(b, 1, 0x80, 0xBF) then 2
    else if 0xE0 <= c <= 0xEF && Within(b, 1, if c == 0xE0 then 0xA0 else 0x80, if c == 0xED then 0x9F else 0xBF)
      && Within(b, 2, 0x80, 0xBF) then 3
    else if 0xF0 <= c <= 0xF4 && Within(b, 1, if c == 0xF0 then 0x90 else 0x80, if c == 0xF4 then 0x8F else 0xBF)
         && Within(b, 2, 0x80, 0xBF) && Within(b, 3, 0x80, 0xBF) then 4
    else 0
  }

  predicate ValidUtf8(b: Bytes)
    decreases |b|
  {
    b == [] || (SequenceLength(b) > 0 && ValidUtf8(b[SequenceLength(b)..]))
  }

  lemma OneIsSequence(c: Scalar, rest: Bytes)
    ensures SequenceLength(Utf8One(c) + rest) == |Utf8One(c)|
  {
    if c < 0x1_0000 {
      ShortIsSequence(c, rest);
    } else {
      var b := Utf8One(c) + rest;
      assert c / 4096 % 64 == c / 4096 - 64 * (c / 262144);
      assert Within(b, 2, 0x80, 0xBF) && Within(b, 3, 0x80, 0xBF);
    }
  }

  lemma ShortIsSequence(c: Scalar, rest: Bytes)
    requires c < 0x1_0000
    ensures SequenceLength(Utf8One(c) + rest) == |Utf8One(c)|
  {
    if c >= 0x800 {
      assert c / 64 % 64 == c / 64 - 64 * (c / 4096);
      assert Within(Utf8One(c) + rest, 2, 0x80, 0xBF);
    }
  }

  lemma {:induction false} Utf8IsValid(s: Text)
    ensures ValidUtf8(Utf8(s))
  {
    if s != [] {
      OneIsSequence(s[0], Utf8(s[1..]));
      assert (Utf8One(s[0]) + Utf8(s[1..]))[|Utf8One(s[0])|..] == Utf8(s[1..]);
      hide Utf8One;
      hide SequenceLength;
      Utf8IsValid(s[1..]);
    }
  }

  // -- The other reader's decoding --

  /** Decoding in which an unmatched surrogate stands alone, as the row reader does it. */
  function DecodedAlone(b: Bytes): (s: Text)
    decreases |b|
  {
    if |b| < 2 then []
    else
      var t := TakeOne(b);
      [t.scalar] + DecodedAlone(Drop(b, if t.scalar < 0x1_0000 then 2 else 4))
  }

  /** Reading on from the start of `b`, a high surrogate that no low one follows is always the last unit. */
  predicate NoneSwallowed(b: Bytes)
    decreases |b|
  {
    |b| < 2 || (!Swallows(b) && NoneSwallowed(Drop(b, TakeOne(b).size)))
  }

  lemma {:induction false} AloneIsLonger(b: Bytes)
    ensures |DecodedAlone(b)| >= |Decoded(b)|
    decreases |b|
  {
    if |b| >= 2 {
      var t := TakeOne(b);
      AloneIsLonger(Drop(b, t.size));
      if t.scalar < 0x1_0000 && t.size == 4 && |b| >= 4 {
        var after := b[2..];
        var t2 := TakeOne(after);
        assert Drop(after, 2) == Drop(b, 4);
        if t2.scalar >= 0x1_0000 {
          assert Drop(Drop(b, 4), 2) == Drop(after, 4);
          AloneIsLonger(Drop(after, 4));
          assert TakeOne(Drop(b, 4)).size == 2;
        }
      }
    }
  }

  predicate Swallows(b: Bytes)
    requires |b| >= 2
  {
    IsHigh(Unit(b)) && |b| >= 4 && !IsLow(Unit(b[2..]))
  }

  /** Without swallowing, both decodings take the same bytes. */
  lemma SameStep(b: Bytes)
    requires |b| >= 2 && !Swallows(b)
    ensures var t := TakeOne(b); var rest := Drop(b, t.size);
      Decoded(b) == [t.scalar] + Decoded(rest) && DecodedAlone(b) == [t.scalar] + DecodedAlone(rest)
      && (NoneSwallowed(b) <==> NoneSwallowed(rest))
  {
    var t := TakeOne(b);
    if t.scalar < 0x1_0000 && t.size == 4 {
      assert DecodedAlone(Drop(b, 2)) == [] == DecodedAlone(Drop(b, 4));
    }
  }

  /** The two readers give the same text exactly if no unit behind an unmatched high surrogate is swallowed. */
  lemma {:induction false} ReadersAgree(b: Bytes)
    ensures Decoded(b) == DecodedAlone(b) <==> NoneSwallowed(b)
    decreases |b|
  {
    if |b| >= 2 {
      if Swallows(b) {
        SwallowedDiffers(b);
      } else {
        hide Decoded;
        hide DecodedAlone;
        hide NoneSwallowed;
        var t := TakeOne(b);
        var rest := Drop(b, t.size);
        hide TakeOne;
        SameStep(b);
        ReadersAgree(rest);
        assert ([t.scalar] + Decoded(rest))[1..] == Decoded(rest);
        assert ([t.scalar] + DecodedAlone(rest))[1..] == DecodedAlone(rest);
      }
    }
  }

  lemma SwallowedDiffers(b: Bytes)
    requires |b| >= 2 && Swallows(b)
    ensures Decoded(b) != DecodedAlone(b)
  {
    var after, rest := b[2..], Drop(b, 4);
    AloneIsLonger(rest);
    FirstIsAlone(b);
    hide TakeOne;
    SameTail(REPLACEMENT, Decoded(rest), DecodedAlone(after));
    if IsHigh(Unit(after)) && |after| >= 4 && IsLow(Unit(after[2..])) {
      PairIsCut(after);
      RestOfRest(b, 2, 2);
    } else {
      StandsAlone(after);
      RestOfRest(b, 2, 2);
    }
  }

  lemma FirstIsAlone(b: Bytes)
    requires |b| >= 2 && Swallows(b)
    ensures Decoded(b) == [REPLACEMENT] + Decoded(Drop(b, 4)) && DecodedAlone(b) == [REPLACEMENT] + DecodedAlone(b[2..])
  {
    assert TakeOne(b) == Taken(REPLACEMENT, 4);
    hide TakeOne;
  }

  lemma StandsAlone(b: Bytes)
    requires |b| >= 2 && !(IsHigh(Unit(b)) && |b| >= 4 && IsLow(Unit(b[2..])))
    ensures DecodedAlone(b) == [TakeOne(b).scalar] + DecodedAlone(b[2..])
  {
    assert TakeOne(b).scalar < 0x1_0000;
    hide TakeOne;
  }

  lemma SameTail(c: Scalar, a: Text, b: Text)
    ensures [c] + a == [c] + b <==> a == b
  {
    assert ([c] + a)[1..] == a && ([c] + b)[1..] == b;
  }

  /** A pair cut in the middle reads differently. */
  lemma PairIsCut(b: Bytes)
    requires |b| >= 4 && IsHigh(Unit(b)) && IsLow(Unit(b[2..]))
    ensures DecodedAlone(b) != Decoded(b[2..])
  {
    assert Decoded(b[2..])[0] == TakeOne(b[2..]).scalar == REPLACEMENT;
    assert DecodedAlone(b)[0] == TakeOne(b).scalar >= 0x1_0000;
  }
}
