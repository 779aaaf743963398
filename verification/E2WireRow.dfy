// Rows in wire form: the decoder never reads such a record as another row.

module E2WireRow {
  import opened Bytes
  import opened Fields
  import opened E2Record
  import opened E2Framing
  import opened E2Search
  import opened E2Decoder
  import opened E2Wire
  import opened E2Rows

  predicate RowSuits(s: Schema, forms: seq<Form>) {
    |forms| == |s.fields| && forall i :: 0 <= i < |forms| ==> Suits(s.fields[i], forms[i])
  }

  function Flag(s: Schema, i: nat, firstDate: bool): bool
    requires i < |s.fields|
  {
    s.fields[i] == Date && firstDate && s.dateFlag
  }

  /** One field, behind the flag byte where it has one. */
  function FieldBytes(s: Schema, forms: seq<Form>, base: nat, i: nat, firstDate: bool): Bytes
    requires RowSuits(s, forms) && IsBase(base) && i < |forms|
  {
    (if Flag(s, i, firstDate) then [0] else []) + Encoded(s.fields[i], forms[i], base)
  }

  /** The fields from number `i` on, one behind the other. */
  function RowFrom(s: Schema, forms: seq<Form>, base: nat, i: nat, firstDate: bool): Bytes
    requires RowSuits(s, forms) && IsBase(base) && i <= |forms|
    decreases |forms| - i
  {
    if i == |forms| then []
    else FieldBytes(s, forms, base, i, firstDate) + RowFrom(s, forms, base, i + 1, firstDate && s.fields[i] != Date)
  }

  /** The record of a row whose integers are stored with one base. */
  function RowBytes(s: Schema, forms: seq<Form>, base: nat): Bytes
    requires RowSuits(s, forms) && IsBase(base)
  {
    RowFrom(s, forms, base, 0, true)
  }

  function ValuesFrom(s: Schema, forms: seq<Form>, i: nat): (v: Values)
    requires RowSuits(s, forms) && i <= |forms|
    ensures |v| == |forms| - i
    decreases |forms| - i
  {
    if i == |forms| then [] else [Meaning(s.fields[i], forms[i], s.lossy)] + ValuesFrom(s, forms, i + 1)
  }

  lemma OneField(s: Schema, forms: seq<Form>, base: nat, i: nat, firstDate: bool, front: Bytes, rest: Bytes)
    requires RowSuits(s, forms) && IsBase(base) && i < |forms|
    ensures var field := FieldBytes(s, forms, base, i, firstDate);
      DecodeOne(s, front + field + rest, i, |front|, firstDate, base)
        == Ok(Meaning(s.fields[i], forms[i], s.lossy), |front| + |field|)
  {
    hide Encoded;
    hide Meaning;
    hide DecodeAt;
    hide Suits;
    var t, f := s.fields[i], forms[i];
    assert Suits(t, f);
    var part := Encoded(t, f, base);
    var flag: Bytes := if Flag(s, i, firstDate) then [0] else [];
    var record := front + FieldBytes(s, forms, base, i, firstDate) + rest;
    var at := |front| + |flag|;
    assert record == (front + flag) + part + rest;
    MiddleSlice(front + flag, part, rest);
    FormReads(record, at, t, f, base, s.lossy);
    FieldIs(record, |front|, t, Flag(s, i, firstDate), base, s.lossy);
    assert Flag(s, i, firstDate) ==> record[|front|] == 0;
  }

  /** With or without the flag byte, the field itself is decoded behind it. */
  lemma FieldIs(data: Bytes, pos: nat, t: FieldType, flagged: bool, base: nat, lossy: Lossy)
    requires pos + (if flagged then 1 else 0) < |data| && (flagged ==> data[pos] == 0)
    ensures DecodeField(data, pos, t, flagged, base, lossy)
      == DecodeAt(data, pos + if flagged then 1 else 0, t, base, lossy)
  {
    hide DecodeAt;
  }

  /** One pass with the row's base reads the row. */
  lemma {:induction false} RowPass(s: Schema, forms: seq<Form>, base: nat, i: nat, firstDate: bool, front: Bytes)
    requires RowSuits(s, forms) && IsBase(base) && i <= |forms|
    ensures var u := Uniform(s, front + RowFrom(s, forms, base, i, firstDate), base, i, |front|, firstDate);
      u.Some? && u.value.values == ValuesFrom(s, forms, i)
    decreases |forms| - i
  {
    hide *;
    SameCount(s, forms);
    if i == |forms| {
      RowEnds(s, forms, base, firstDate);
      assert front + [] == front;
      PassEnds(s, front, base, |front|, firstDate);
    } else {
      var field := FieldBytes(s, forms, base, i, firstDate);
      var next := firstDate && s.fields[i] != Date;
      var rest := RowFrom(s, forms, base, i + 1, next);
      RowNext(s, forms, base, i, firstDate);
      Assoc(front, field, rest);
      OneField(s, forms, base, i, firstDate, front, rest);
      RowPass(s, forms, base, i + 1, next, front + field);
      UniformStep(s, front + field + rest, base, i, |front|, firstDate);
      AheadIs(Meaning(s.fields[i], forms[i], s.lossy), TwoWidths(s, front + field + rest, i, |front|),
        Uniform(s, front + field + rest, base, i + 1, |front| + |field|, next));
    }
  }

  lemma SameCount(s: Schema, forms: seq<Form>)
    requires RowSuits(s, forms)
    ensures |forms| == |s.fields| && forall i :: 0 <= i < |forms| ==> Suits(s.fields[i], forms[i])
  {
  }

  lemma RowEnds(s: Schema, forms: seq<Form>, base: nat, firstDate: bool)
    requires RowSuits(s, forms) && IsBase(base)
    ensures RowFrom(s, forms, base, |forms|, firstDate) == [] && ValuesFrom(s, forms, |forms|) == []
  {
  }

  lemma RowNext(s: Schema, forms: seq<Form>, base: nat, i: nat, firstDate: bool)
    requires RowSuits(s, forms) && IsBase(base) && i < |forms| && |forms| == |s.fields| && Suits(s.fields[i], forms[i])
    ensures RowFrom(s, forms, base, i, firstDate)
      == FieldBytes(s, forms, base, i, firstDate) + RowFrom(s, forms, base, i + 1, firstDate && s.fields[i] != Date)
    ensures ValuesFrom(s, forms, i) == [Meaning(s.fields[i], forms[i], s.lossy)] + ValuesFrom(s, forms, i + 1)
  {
    hide FieldBytes;
    hide Meaning;
  }

  lemma AheadIs(value: FieldValue, ambiguous: bool, rest: Option<Parsed>)
    ensures rest.Some? ==> Ahead(value, ambiguous, rest).Some?
    ensures rest.Some? ==> Ahead(value, ambiguous, rest).value.values == [value] + rest.value.values
  {
  }

  /** What one pass finds is among the framings. */
  lemma {:induction false} PassIsFraming(s: Schema, record: Bytes, base: nat, i: nat, offset: nat, firstDate: bool)
    requires i <= |s.fields| && IsBase(base)
    ensures var u := Uniform(s, record, base, i, offset, firstDate);
      u.Some? ==> u.value.values in Framings(s, record, base, i, offset, firstDate)
    decreases |s.fields| - i
  {
    hide *;
    var u := Uniform(s, record, base, i, offset, firstDate);
    if i == |s.fields| {
      PassEnds(s, record, base, offset, firstDate);
    } else if u.Some? {
      UniformStep(s, record, base, i, offset, firstDate);
      var d := DecodeOne(s, record, i, offset, firstDate, base);
      var next := firstDate && s.fields[i] != Date;
      var rest := Uniform(s, record, base, i + 1, d.end, next);
      AheadSome(d.value, TwoWidths(s, record, i, offset), rest);
      PassIsFraming(s, record, base, i + 1, d.end, next);
      OwnBase(s, record, base, i, offset);
      var j := AlternativeOf(s, record, base, i, offset, firstDate, base);
      var alternatives := AlternativesAt(s, record, i, offset, firstDate, base);
      InBranch(s, record, base, i, firstDate, alternatives, |alternatives|, j, rest.value.values);
      FramingsAreBranches(s, record, base, i, offset, firstDate);
    }
  }

  lemma AheadSome(value: FieldValue, ambiguous: bool, rest: Option<Parsed>)
    ensures Ahead(value, ambiguous, rest).Some?
      ==> rest.Some? && Ahead(value, ambiguous, rest).value.values == [value] + rest.value.values
  {
  }

  lemma OwnBase(s: Schema, record: Bytes, base: nat, i: nat, offset: nat)
    requires i < |s.fields| && IsBase(base)
    ensures BaseAllowed(s, record, base, i, offset, base)
  {
  }

  /** The row is one of the exact framings of its record. */
  lemma RowIsFraming(s: Schema, forms: seq<Form>, base: nat)
    requires RowSuits(s, forms) && IsBase(base)
    ensures ValuesFrom(s, forms, 0) in AllOf(s, RowBytes(s, forms, base), base)
    ensures EitherFraming(s, RowBytes(s, forms, base), ValuesFrom(s, forms, 0))
  {
    var record := RowBytes(s, forms, base);
    assert [] + record == record;
    RowPass(s, forms, base, 0, true, []);
    PassIsFraming(s, record, base, 0, 0, true);
    FramingsExact(s, record, base, ValuesFrom(s, forms, 0));
    hide Framings;
    hide Uniform;
    hide RowFrom;
    hide ValuesFrom;
    hide IsFraming;
  }

  /**
    * Whatever base the reader prefers: a record in wire form is read as its row, up to equality of
    * floating-point zeros, or refused; never as another row.
    */
  lemma NeverAnotherRow(s: Schema, forms: seq<Form>, base: nat, preferred: nat)
    requires RowSuits(s, forms) && IsBase(base) && IsBase(preferred)
    ensures var a := Accepted(s, RowBytes(s, forms, base), preferred); var row := ValuesFrom(s, forms, 0);
      a.Some? ==> a.value == row || SameAll(a.value, row)
    ensures !HasInt32(s) ==> Accepted(s, RowBytes(s, forms, base), preferred) == Some(ValuesFrom(s, forms, 0))
  {
    hide *;
    var record, row := RowBytes(s, forms, base), ValuesFrom(s, forms, 0);
    if HasInt32(s) {
      RowIsFraming(s, forms, base);
      UniqueIsOneValue(s, record, preferred);
      AcceptedUnique(s, record, preferred);
    } else {
      BaseIsUnused(s, forms, base, preferred, 0, true);
      RowsAreRows(s, forms, base, preferred);
      RowIsFraming(s, forms, preferred);
      OnlyFraming(s, record, preferred, row);
    }
  }

  lemma AcceptedUnique(s: Schema, record: Bytes, base: nat)
    requires HasInt32(s)
    ensures
      var a := Accepted(s, record, base);
      a.Some? ==> Unique(Both(s, record, base)) && a.value == Both(s, record, base)[0]
  {
    hide Unique;
    hide Both;
    hide HasInt32;
  }

  lemma OnlyFraming(s: Schema, record: Bytes, base: nat, row: Values)
    requires !HasInt32(s) && row in AllOf(s, record, base)
    ensures Accepted(s, record, base) == Some(row)
  {
    PassWithoutInt32(s, record, base, 0, 0, true);
    hide Framings;
    hide Uniform;
    hide HasInt32;
  }

  lemma RowsAreRows(s: Schema, forms: seq<Form>, base: nat, other: nat)
    requires RowSuits(s, forms) && IsBase(base) && IsBase(other)
    requires RowFrom(s, forms, base, 0, true) == RowFrom(s, forms, other, 0, true)
    ensures RowBytes(s, forms, base) == RowBytes(s, forms, other)
  {
  }

  /** Without 32-bit integers the base does not matter. */
  lemma {:induction false} BaseIsUnused(s: Schema, forms: seq<Form>, base: nat, other: nat, i: nat, firstDate: bool)
    requires RowSuits(s, forms) && IsBase(base) && IsBase(other) && i <= |forms| && !HasInt32(s)
    ensures RowFrom(s, forms, base, i, firstDate) == RowFrom(s, forms, other, i, firstDate)
    decreases |forms| - i
  {
    hide *;
    SameCount(s, forms);
    if i == |forms| {
      RowEnds(s, forms, base, firstDate);
      RowEnds(s, forms, other, firstDate);
    } else {
      BaseIsUnused(s, forms, base, other, i + 1, firstDate && s.fields[i] != Date);
      SameField(s, forms, base, other, i, firstDate);
      RowNext(s, forms, base, i, firstDate);
      RowNext(s, forms, other, i, firstDate);
    }
  }

  lemma SameField(s: Schema, forms: seq<Form>, base: nat, other: nat, i: nat, firstDate: bool)
    requires RowSuits(s, forms) && IsBase(base) && IsBase(other) && i < |forms| && !HasInt32(s)
    ensures FieldBytes(s, forms, base, i, firstDate) == FieldBytes(s, forms, other, i, firstDate)
  {
    assert s.fields[i] != Int32;
  }
}
