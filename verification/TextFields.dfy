// Text in fields of fixed width: exactly which texts come back from a record.

module TextFields {
  import opened Bytes
  import opened Fields
  import opened AsciiField
  import opened Transcode
  import opened RecordLayout
  import opened RecordReader

  // -- Texts with the same UTF-8 are the same --

  lemma Utf8OneInjective(c: Scalar, d: Scalar)
    requires Utf8One(c) == Utf8One(d)
    ensures c == d
  {
    var b := Utf8One(c);
    if |b| == 2 {
      assert c == 64 * (b[0] as int - 0xC0) + (b[1] as int - 0x80) == d;
    } else if |b| == 3 {
      ThreeBytes(c);
      ThreeBytes(d);
    } else if |b| == 4 {
      FourBytesOf(c);
      FourBytesOf(d);
    }
  }

  lemma ThreeBytes(c: Scalar)
    requires 0x800 <= c < 0x1_0000
    ensures
      var b := Utf8One(c);
      |b| == 3 && c == 4096 * (b[0] as int - 0xE0) + 64 * (b[1] as int - 0x80) + (b[2] as int - 0x80)
  {
    assert c / 4096 == c / 64 / 64;
  }

  lemma FourBytesOf(c: Scalar)
    requires c >= 0x1_0000
    ensures
      var b := Utf8One(c);
      && |b| == 4
      && c == 262144 * (b[0] as int - 0xF0) + 4096 * (b[1] as int - 0x80) + 64 * (b[2] as int - 0x80)
         + (b[3] as int - 0x80)
  {
    assert c / 4096 == c / 64 / 64 && c / 262144 == c / 64 / 64 / 64;
  }

  /** No two texts have the same UTF-8. */
  lemma {:induction false} Utf8Injective(s: Text, t: Text)
    ensures Utf8(s) == Utf8(t) <==> s == t
  {
    if Utf8(s) == Utf8(t) {
      if s == [] || t == [] {
        assert s == t == [];
      } else {
        var a, b := Utf8One(s[0]), Utf8One(t[0]);
        OneIsSequence(s[0], Utf8(s[1..]));
        OneIsSequence(t[0], Utf8(t[1..]));
        FrontAndRest(a, Utf8(s[1..]));
        FrontAndRest(b, Utf8(t[1..]));
        hide SequenceLength;
        Utf8OneInjective(s[0], t[0]);
        hide Utf8One;
        Utf8Injective(s[1..], t[1..]);
        assert s == [s[0]] + s[1..] && t == [t[0]] + t[1..];
      }
    }
  }

  // -- Fields of UTF-8 --

  predicate NoNulChar(s: Text) {
    forall i :: 0 <= i < |s| ==> s[i] != 0
  }

  /** What stands before the first NUL of a text's UTF-8 is the UTF-8 of a shorter text. */
  lemma {:induction false} TextUpToNul(s: Text) returns (t: Text)
    ensures UpToNul(Utf8(s)) == Utf8(t)
    ensures NoNul(Utf8(s)) <==> NoNulChar(s)
  {
    if s == [] {
      t := [];
    } else {
      var first, rest := Utf8One(s[0]), Utf8(s[1..]);
      var t' := TextUpToNul(s[1..]);
      FirstUpToNul(s[0], rest);
      NoNulFirst(s[0], rest);
      assert NoNulChar(s) <==> s[0] != 0 && NoNulChar(s[1..]);
      hide UpToNul;
      hide Utf8One;
      if s[0] == 0 {
        t := [];
      } else {
        t := [s[0]] + t';
        assert t[1..] == t';
      }
    }
  }

  lemma FirstUpToNul(c: Scalar, rest: Bytes)
    ensures UpToNul(Utf8One(c) + rest) == if c == 0 then [] else Utf8One(c) + UpToNul(rest)
  {
    var one := Utf8One(c);
    if c != 0 {
      forall i | 0 <= i < |one| ensures one[i] != 0 {
      }
      NotNulFirst(one, rest);
    }
  }

  lemma {:induction false} NotNulFirst(s: Bytes, rest: Bytes)
    requires NoNul(s)
    ensures UpToNul(s + rest) == s + UpToNul(rest)
  {
    if s == [] {
      assert s + rest == rest && s + UpToNul(rest) == UpToNul(rest);
    } else {
      assert (s + rest)[1..] == s[1..] + rest;
      NotNulFirst(s[1..], rest);
      Assoc([s[0]], s[1..], UpToNul(rest));
      assert [s[0]] + s[1..] == s;
    }
  }

  lemma NoNulFirst(c: Scalar, rest: Bytes)
    ensures NoNul(Utf8One(c) + rest) <==> c != 0 && NoNul(rest)
  {
    var one := Utf8One(c);
    if c == 0 {
      assert (one + rest)[0] == 0;
    } else {
      assert NoNul(one);
    }
    hide Utf8One;
    if NoNul(one + rest) {
      assert one == (one + rest)[..|one|] && rest == (one + rest)[|one|..];
    }
  }

  /** The field's width cuts no character of the text in two. */
  ghost predicate CutsBetween(s: Text, width: nat) {
    |Utf8(s)| <= width || exists k :: 0 <= k <= |s| && |Utf8(s[..k])| == width
  }

  lemma {:induction false} Utf8Prefix(s: Text, k: nat)
    requires k <= |s|
    ensures Utf8(s[..k]) <= Utf8(s)
  {
    if k > 0 {
      Utf8Prefix(s[1..], k - 1);
      assert s[..k][1..] == s[1..][..k - 1];
    }
  }

  /** Text in a String field comes back exactly if it fits and has no NUL, unless a character of it is cut. */
  lemma StringSurvives(f: FieldMeta, c: Cell, lossy: Lossy)
    requires f.fieldType == String && Suits(f, c) && KeepsText(lossy) && c.text.Some?
    requires CutsBetween(c.text.value, f.size)
    ensures ReadValue(f, c, lossy) == Value(StringValue(Some(Utf8(c.text.value))))
      <==> |Utf8(c.text.value)| <= f.size && NoNulChar(c.text.value)
  {
    var s := c.text.value;
    var utf8 := Utf8(s);
    var kept := KeptText(s, f.size);
    StringValueIs(f, c, lossy);
    FittedReadBack(utf8, f.size);
    var t := TextUpToNul(kept);
    var t' := TextUpToNul(s);
    hide *;
    LossyKeeps(lossy, t);
    FullLength(Fitted(utf8, f.size), utf8, f.size);
  }

  /** The text of which a field holds the UTF-8. */
  lemma KeptText(s: Text, width: nat) returns (kept: Text)
    requires CutsBetween(s, width)
    ensures Utf8(kept) == if |Utf8(s)| <= width then Utf8(s) else Utf8(s)[..width]
  {
    if |Utf8(s)| <= width {
      kept := s;
    } else {
      var k :| 0 <= k <= |s| && |Utf8(s[..k])| == width;
      Utf8Prefix(s, k);
      hide Utf8;
      kept := s[..k];
    }
  }

  lemma FullLength(field: Bytes, s: Bytes, width: nat)
    ensures UpToNul(field) == s ==> NoNul(s)
  {
    hide UpToNul;
    var t := UpToNul(field);
  }

  lemma LossyKeeps(lossy: Lossy, s: Text)
    requires KeepsText(lossy)
    ensures lossy(Utf8(s)) == Utf8(s)
  {
  }

  /** A text cut inside a character may come back all the same, through the replacement of what is left of it. */
  lemma CutCharacter(f: FieldMeta, c: Cell, lossy: Lossy)
    requires f.fieldType == String && f.size == 2 && c == TextCell(Some([REPLACEMENT]))
    requires lossy([0xEF, 0xBF]) == Utf8([REPLACEMENT])
    ensures Suits(f, c) && c.text.Some? && |Utf8(c.text.value)| > f.size
    ensures ReadValue(f, c, lossy) == Value(StringValue(Some(Utf8(c.text.value))))
  {
    assert Suits(f, c);
    CutReplacement();
    hide *;
    StringValueIs(f, c, lossy);
  }

  lemma CutReplacement()
    ensures Utf8([REPLACEMENT]) == [0xEF, 0xBF, 0xBD] && UpToNul(Fitted(Utf8([REPLACEMENT]), 2)) == [0xEF, 0xBF]
  {
    assert Utf8([REPLACEMENT]) == [0xEF, 0xBF, 0xBD];
    hide Utf8;
    var cut: Bytes := [0xEF, 0xBF];
    assert Fitted([0xEF, 0xBF, 0xBD], 2) == cut;
    NothingCut(cut);
    hide UpToNul;
  }

  // -- Fields of UTF-16 --

  /** A part of a text's UTF-16 is never read as that text. */
  lemma {:induction false} PartIsNotText(s: Text, part: Bytes)
    requires part <= Utf16Le(s) && |part| < |Utf16Le(s)| && |part| % 2 == 0
    ensures DecodedAlone(part) != s && Decoded(part) != s
  {
    if part != [] {
      var one, rest := Utf16LeOne(s[0]), Utf16Le(s[1..]);
      if |part| < |one| {
        assert part == (one + rest)[..2] == one[..2];
        HalfPair(s[0], part);
      } else {
        assert part[..|one|] == (one + rest)[..|one|] == one;
        var part' := part[|one|..];
        assert part == one + part';
        assert part' <= rest by {
          assert rest == (one + rest)[|one|..];
          assert part' == (one + rest)[|one|..|part|];
        }
        PartIsNotText(s[1..], part');
        FirstOf(s[0], part');
        hide *;
        AfterFirst(s, Decoded(part'));
        AfterFirst(s, DecodedAlone(part'));
      }
    }
  }

  lemma AfterFirst(s: Text, rest: Text)
    requires s != []
    ensures s == [s[0]] + rest <==> s[1..] == rest
  {
  }

  lemma FirstOf(c: Scalar, rest: Bytes)
    ensures Decoded(Utf16LeOne(c) + rest) == [c] + Decoded(rest)
    ensures DecodedAlone(Utf16LeOne(c) + rest) == [c] + DecodedAlone(rest)
  {
    var one := Utf16LeOne(c);
    FirstReadBack(c, rest);
    assert Drop(one + rest, |one|) == rest;
    assert |one| == if c < 0x1_0000 then 2 else 4;
    hide TakeOne;
    hide Utf16LeOne;
  }

  lemma HalfPair(c: Scalar, half: Bytes)
    requires |Utf16LeOne(c)| == 4 && half == Utf16LeOne(c)[..2]
    ensures Decoded(half) == DecodedAlone(half) == [REPLACEMENT] && c != REPLACEMENT
  {
    var u := 0xD800 + (c - 0x1_0000) / 0x400;
    assert half == UnitLe(u);
    UnitReadBack(u, []);
    assert half + [] == half;
    assert TakeOne(half) == Taken(REPLACEMENT, 4);
  }

  /** Before the first pair of zero bytes stands an even number of bytes, all of them if no unit is zero. */
  lemma {:induction false} UpToWide(b: Bytes)
    ensures UpToWideNul(b) <= b && |UpToWideNul(b)| % 2 == 0
    decreases |b|
  {
    if |b| >= 2 && !(b[0] == 0 && b[1] == 0) {
      UpToWide(b[2..]);
      assert b == b[..2] + b[2..];
    }
  }

  /** Text in a field of 16-bit units is found up to its first NUL. */
  lemma {:induction false} WideUpToNul(s: Text, padding: Bytes)
    requires padding == Zeros(|padding|)
    ensures UpToWideNul(Utf16Le(s) + padding) == Utf16Le(s) <==> NoNulChar(s)
  {
    if s == [] {
      assert Utf16Le(s) + padding == padding;
    } else {
      var one, rest := Utf16LeOne(s[0]), Utf16Le(s[1..]);
      Assoc(one, rest, padding);
      FirstUpToWideNul(s[0], rest + padding);
      assert NoNulChar(s) <==> s[0] != 0 && NoNulChar(s[1..]);
      WideUpToNul(s[1..], padding);
      hide UpToWideNul;
      hide NoNulChar;
      FrontAndRest(one, rest);
      FrontAndRest(one, UpToWideNul(rest + padding));
    }
  }

  lemma FirstUpToWideNul(c: Scalar, rest: Bytes)
    ensures UpToWideNul(Utf16LeOne(c) + rest) == if c == 0 then [] else Utf16LeOne(c) + UpToWideNul(rest)
  {
    if c < 0x1_0000 {
      NextUnit(c, rest);
    } else {
      var high, low := 0xD800 + (c - 0x1_0000) / 0x400, 0xDC00 + (c - 0x1_0000) % 0x400;
      Assoc(UnitLe(high), UnitLe(low), rest);
      NextUnit(low, rest);
      NextUnit(high, UnitLe(low) + rest);
      Assoc(UnitLe(high), UnitLe(low), UpToWideNul(rest));
    }
  }

  lemma NextUnit(u: int, rest: Bytes)
    requires 0 <= u < 0x1_0000
    ensures UpToWideNul(UnitLe(u) + rest) == if u == 0 then [] else UnitLe(u) + UpToWideNul(rest)
  {
    FrontAndRest(UnitLe(u), rest);
  }

  /** Text in a WString field comes back exactly if its UTF-16 fits and it has no NUL, for both readers. */
  lemma WideStringSurvives(f: FieldMeta, c: Cell, lossy: Lossy)
    requires f.fieldType == WString && Suits(f, c) && c.text.Some?
    ensures ReadValue(f, c, lossy) == Value(StringValue(Some(Utf8(c.text.value))))
      <==> |Utf16Le(c.text.value)| <= 2 * f.size && NoNulChar(c.text.value)
    ensures Utf8(Decoded(UpToWideNul(Fitted(Utf16Le(c.text.value), 2 * f.size)))) == Utf8(c.text.value)
      <==> |Utf16Le(c.text.value)| <= 2 * f.size && NoNulChar(c.text.value)
  {
    var s := c.text.value;
    hide *;
    var found := UpToWideNul(Fitted(Utf16Le(s), 2 * f.size));
    WideFound(s, 2 * f.size);
    WholeIsRead(s, found);
    Utf8Injective(DecodedAlone(found), s);
    Utf8Injective(Decoded(found), s);
    WideValueIs(f, c, lossy);
  }

  lemma WholeIsRead(s: Text, found: Bytes)
    requires found != Utf16Le(s) ==> found <= Utf16Le(s) && |found| < |Utf16Le(s)| && |found| % 2 == 0
    ensures DecodedAlone(found) == s <==> found == Utf16Le(s)
    ensures Decoded(found) == s <==> found == Utf16Le(s)
  {
    hide *;
    if found == Utf16Le(s) {
      WideTextSurvives(s);
      TextSurvives(s);
    } else {
      PartIsNotText(s, found);
    }
  }

  /** What is found is a part of the text's UTF-16, and all of it exactly if it fits and has no NUL. */
  lemma WideFound(s: Text, width: nat)
    requires width % 2 == 0
    ensures
      var wide := Utf16Le(s);
      var found := UpToWideNul(Fitted(wide, width));
      && (found == wide <==> |wide| <= width && NoNulChar(s))
      && (found != wide ==> found <= wide && |found| < |wide| && |found| % 2 == 0)
  {
    var wide := Utf16Le(s);
    var field := Fitted(wide, width);
    UpToWide(field);
    if |wide| <= width {
      WideUpToNul(s, Zeros(width - |wide|));
      WideWithin(s, Zeros(width - |wide|));
    }
    hide Utf16Le;
    hide UpToWideNul;
  }

  lemma {:induction false} WideWithin(s: Text, padding: Bytes)
    requires padding == Zeros(|padding|)
    ensures UpToWideNul(Utf16Le(s) + padding) <= Utf16Le(s)
  {
    if s == [] {
      assert Utf16Le(s) + padding == padding;
    } else {
      var one, rest := Utf16LeOne(s[0]), Utf16Le(s[1..]);
      Assoc(one, rest, padding);
      FirstUpToWideNul(s[0], rest + padding);
      WideWithin(s[1..], padding);
      hide UpToWideNul;
    }
  }

  lemma WideValueIs(f: FieldMeta, c: Cell, lossy: Lossy)
    requires f.fieldType == WString && Suits(f, c) && c.text.Some?
    ensures ReadValue(f, c, lossy)
      == Value(StringValue(Some(Utf8(DecodedAlone(UpToWideNul(Fitted(Utf16Le(c.text.value), 2 * f.size)))))))
  {
    hide Fitted;
    hide Utf8;
    hide UpToNul;
    hide UpToWideNul;
    hide DecodedAlone;
    hide Utf16Le;
  }
}
