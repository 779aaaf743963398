// Text in a field of fixed width: cut to the width, padded with NUL bytes, read up to the first NUL.

module AsciiField {
  import opened Bytes

  /** The text cut to the width of the field, or filled up with NULs. */
  function Fitted(s: Bytes, width: nat): (field: Bytes)
    ensures |field| == width
  {
    if |s| <= width then s + Zeros(width - |s|) else s[..width]
  }

  predicate NoNul(s: Bytes) {
    forall i :: 0 <= i < |s| ==> s[i] != 0
  }

  /** The bytes before the first NUL. */
  function UpToNul(field: Bytes): (s: Bytes)
    ensures s <= field && NoNul(s)
    ensures |s| < |field| ==> field[|s|] == 0
  {
    if field == [] || field[0] == 0 then [] else [field[0]] + UpToNul(field[1..])
  }

  lemma {:induction false} UpToNulIs(s: Bytes, rest: Bytes)
    requires NoNul(s) && (rest == [] || rest[0] == 0)
    ensures UpToNul(s + rest) == s
  {
    if s == [] {
      assert s + rest == rest;
    } else {
      assert (s + rest)[1..] == s[1..] + rest;
      UpToNulIs(s[1..], rest);
    }
  }

  /**
    * Text read back is the text up to a NUL in it, as far as it fits; so it is the text exactly if it
    * fits and has no NUL.
    */
  lemma FittedReadBack(s: Bytes, width: nat)
    ensures UpToNul(Fitted(s, width)) == UpToNul(if |s| <= width then s else s[..width])
    ensures UpToNul(Fitted(s, width)) == s <==> |s| <= width && NoNul(s)
  {
    hide UpToNul;
    var kept := if |s| <= width then s else s[..width];
    KeptReadBack(kept, Fitted(s, width)[|kept|..]);
    assert Fitted(s, width) == kept + Fitted(s, width)[|kept|..];
    var text := UpToNul(kept);
    if NoNul(s) {
      NothingCut(kept);
    }
  }

  lemma NothingCut(s: Bytes)
    requires NoNul(s)
    ensures UpToNul(s) == s
  {
    UpToNulIs(s, []);
    assert s + [] == s;
  }

  lemma KeptReadBack(kept: Bytes, rest: Bytes)
    requires rest == [] || rest[0] == 0
    ensures UpToNul(kept + rest) == UpToNul(kept)
    ensures UpToNul(kept) <= kept && NoNul(UpToNul(kept))
  {
    var text := UpToNul(kept);
    hide UpToNul;
    var back := kept[|text|..];
    assert kept == text + back;
    Assoc(text, back, rest);
    assert back != [] ==> (back + rest)[0] == kept[|text|];
    assert back == [] ==> back + rest == rest;
    UpToNulIs(text, back + rest);
  }
}
