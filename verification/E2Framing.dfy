// Records whose 32-bit integers may be framed in two ways: the search for the one value list that
// all exact framings of a record agree on.

module E2Framing {
  import opened Bytes
  import opened Fields
  import opened E2Record

  type Values = seq<FieldValue>

  datatype Schema = Schema(fields: seq<FieldType>, dateFlag: bool, lossy: Lossy)

  /** The prefix of a 32-bit integer that either three or four bytes may follow. */
  const AMBIGUOUS_PREFIX: byte := 0x09

  predicate IsBase(base: nat) {
    base == 5 || base == 6
  }

  function OtherBase(base: nat): nat {
    if base == 5 then 6 else 5
  }

  function DecodeOne(s: Schema, record: Bytes, i: nat, offset: nat, firstDate: bool, base: nat): (r: Decoded)
    requires i < |s.fields|
    ensures r.Ok? ==> offset < r.end <= |record|
  {
    DecodeField(record, offset, s.fields[i], s.fields[i] == Date && firstDate && s.dateFlag, base, s.lossy)
  }

  predicate TwoWidths(s: Schema, record: Bytes, i: nat, offset: nat)
    requires i < |s.fields|
  {
    s.fields[i] == Int32 && offset < |record| && record[offset] == AMBIGUOUS_PREFIX
  }

  /** Bases to try for a field, the preferred one first. */
  function Bases(s: Schema, record: Bytes, i: nat, offset: nat, base: nat): seq<nat>
    requires i < |s.fields|
  {
    if TwoWidths(s, record, i, offset) then (if base == 5 then [5, 6] else [6, 5]) else [base]
  }

  datatype Alternative = Alternative(value: FieldValue, end: nat)

  predicate Known(alternatives: seq<Alternative>, value: FieldValue, end: nat) {
    exists k :: 0 <= k < |alternatives| && Same(alternatives[k].value, value) && alternatives[k].end == end
  }

  /** The field's decodings under the given bases, without those equal to an earlier one. */
  function Alternatives(s: Schema, record: Bytes, i: nat, offset: nat, firstDate: bool,
      bases: seq<nat>): (a: seq<Alternative>)
    requires i < |s.fields|
    ensures |a| <= |bases|
  {
    if bases == [] then []
    else
      var earlier := Alternatives(s, record, i, offset, firstDate, bases[..|bases| - 1]);
      var d := DecodeOne(s, record, i, offset, firstDate, bases[|bases| - 1]);
      if d.Err? || Known(earlier, d.value, d.end) then earlier else earlier + [Alternative(d.value, d.end)]
  }

  function AlternativesAt(s: Schema, record: Bytes, i: nat, offset: nat, firstDate: bool, base: nat): seq<Alternative>
    requires i < |s.fields|
  {
    Alternatives(s, record, i, offset, firstDate, Bases(s, record, i, offset, base))
  }

  function Prefixed(prefix: Values, lists: seq<Values>): (r: seq<Values>)
    ensures |r| == |lists|
  {
    seq(|lists|, k requires 0 <= k < |lists| => prefix + lists[k])
  }

  /**
    * Value lists of all exact framings of the rest of a record from field `i` at `offset`, where
    * integers have base `base` and ambiguous ones either base; in the order of a depth-first walk.
    */
  function Framings(s: Schema, record: Bytes, base: nat, i: nat, offset: nat, firstDate: bool): (r: seq<Values>)
    requires i <= |s.fields|
    decreases |s.fields| - i, 1, 0
  {
    if i == |s.fields| then (if offset == |record| then [[]] else [])
    else
      var alternatives := AlternativesAt(s, record, i, offset, firstDate, base);
      Branches(s, record, base, i, firstDate, alternatives, |alternatives|)
  }

  /** The framings that continue one of the first `k` alternatives of field `i`. */
  function Branches(s: Schema, record: Bytes, base: nat, i: nat, firstDate: bool, alternatives: seq<Alternative>,
      k: nat): (r: seq<Values>)
    requires i < |s.fields| && k <= |alternatives|
    decreases |s.fields| - i, 0, k
  {
    if k == 0 then []
    else
      Branches(s, record, base, i, firstDate, alternatives, k - 1)
      + Prefixed([alternatives[k - 1].value],
        Framings(s, record, base, i + 1, alternatives[k - 1].end, firstDate && s.fields[i] != Date))
  }

  function AllOf(s: Schema, record: Bytes, base: nat): seq<Values> {
    Framings(s, record, base, 0, 0, true)
  }

  // -- What a framing is --

  predicate BaseAllowed(s: Schema, record: Bytes, base: nat, i: nat, offset: nat, b: nat)
    requires i < |s.fields|
  {
    if TwoWidths(s, record, i, offset) then IsBase(b) else b == base
  }

  /** Field `i` spans the bytes from `offset` to `end` and holds `value`. */
  predicate Spans(s: Schema, record: Bytes, base: nat, i: nat, firstDate: bool, b: nat, offset: nat, end: nat,
      value: FieldValue)
    requires i < |s.fields|
  {
    BaseAllowed(s, record, base, i, offset, b) && DecodeOne(s, record, i, offset, firstDate, b) == Ok(value, end)
  }

  predicate NoDateBefore(s: Schema, from: nat, i: nat)
    requires from <= i <= |s.fields|
  {
    forall j :: from <= j < i ==> s.fields[j] != Date
  }

  /** `offsets` cut the record from field `from` on into fields, with a base for each, without a rest. */
  predicate ExactFrom(s: Schema, record: Bytes, base: nat, from: nat, firstDate: bool, offsets: seq<nat>,
      bases: seq<nat>, values: Values)
    requires from <= |s.fields|
  {
    && |bases| == |values| == |s.fields| - from && |offsets| == |values| + 1 && offsets[|values|] == |record|
    && forall k :: 0 <= k < |values| ==>
         Spans(s, record, base, from + k, firstDate && NoDateBefore(s, from, from + k), bases[k], offsets[k],
           offsets[k + 1], values[k])
  }

  ghost predicate IsFraming(s: Schema, record: Bytes, base: nat, values: Values) {
    exists offsets, bases :: |offsets| > 0 && offsets[0] == 0
      && ExactFrom(s, record, base, 0, true, offsets, bases, values)
  }

  lemma DateBeforeShift(s: Schema, from: nat, i: nat)
    requires from < i <= |s.fields|
    ensures NoDateBefore(s, from, i) <==> s.fields[from] != Date && NoDateBefore(s, from + 1, i)
  {
  }

  lemma ExactCons(s: Schema, record: Bytes, base: nat, from: nat, firstDate: bool, b: nat, offset: nat,
      value: FieldValue, offsets: seq<nat>, bases: seq<nat>, rest: Values)
    requires from < |s.fields| && offsets != [] && Spans(s, record, base, from, firstDate, b, offset, offsets[0], value)
    requires ExactFrom(s, record, base, from + 1, firstDate && s.fields[from] != Date, offsets, bases, rest)
    ensures ExactFrom(s, record, base, from, firstDate, [offset] + offsets, [b] + bases, [value] + rest)
  {
    hide Spans;
    var os, bs, vs := [offset] + offsets, [b] + bases, [value] + rest;
    forall k | 0 <= k < |vs|
      ensures Spans(s, record, base, from + k, firstDate && NoDateBefore(s, from, from + k), bs[k], os[k], os[k + 1],
        vs[k])
    {
      if k > 0 {
        DateBeforeShift(s, from, from + k);
        assert Spans(s, record, base, from + 1 + (k - 1),
          firstDate && s.fields[from] != Date && NoDateBefore(s, from + 1, from + 1 + (k - 1)),
            bases[k - 1], offsets[k - 1], offsets[k], rest[k - 1]);
      }
    }
  }

  lemma ExactTail(s: Schema, record: Bytes, base: nat, from: nat, firstDate: bool, offsets: seq<nat>, bases: seq<nat>,
      values: Values)
    requires from < |s.fields| && ExactFrom(s, record, base, from, firstDate, offsets, bases, values)
    ensures ExactFrom(s, record, base, from + 1, firstDate && s.fields[from] != Date, offsets[1..], bases[1..],
      values[1..])
    ensures Spans(s, record, base, from, firstDate, bases[0], offsets[0], offsets[1], values[0])
  {
    hide Spans;
    var os, bs, vs := offsets[1..], bases[1..], values[1..];
    assert Spans(s, record, base, from + 0, firstDate && NoDateBefore(s, from, from + 0), bases[0], offsets[0],
      offsets[0 + 1], values[0]);
    forall k | 0 <= k < |vs|
      ensures Spans(s, record, base, from + 1 + k,
        firstDate && s.fields[from] != Date && NoDateBefore(s, from + 1, from + 1 + k), bs[k], os[k], os[k + 1], vs[k])
    {
      DateBeforeShift(s, from, from + 1 + k);
      assert Spans(s, record, base, from + (k + 1), firstDate && NoDateBefore(s, from, from + (k + 1)), bases[k + 1],
        offsets[k + 1], offsets[k + 1 + 1], values[k + 1]);
    }
  }

  /** Every alternative is a decoding under one of the bases. */
  lemma {:induction false} AlternativeBase(s: Schema, record: Bytes, i: nat, offset: nat, firstDate: bool,
      bases: seq<nat>, j: nat)
    returns (b: nat)
    requires i < |s.fields| && j < |Alternatives(s, record, i, offset, firstDate, bases)|
    ensures b in bases
    ensures
      var a := Alternatives(s, record, i, offset, firstDate, bases)[j];
      DecodeOne(s, record, i, offset, firstDate, b) == Ok(a.value, a.end)
  {
    hide DecodeOne;
    var front := bases[..|bases| - 1];
    b := bases[|bases| - 1];
    if j < |Alternatives(s, record, i, offset, firstDate, front)| {
      b := AlternativeBase(s, record, i, offset, firstDate, front, j);
    }
  }

  /** Under the two bases an ambiguous integer has different widths. */
  lemma WidthsDiffer(s: Schema, record: Bytes, i: nat, offset: nat, firstDate: bool)
    requires i < |s.fields| && TwoWidths(s, record, i, offset)
    ensures
      var five, six := DecodeOne(s, record, i, offset, firstDate, 5), DecodeOne(s, record, i, offset, firstDate, 6);
      (five.Ok? ==> five.end == offset + 5) && (six.Ok? ==> six.end == offset + 4)
  {
  }

  /** No decoding under an allowed base is dropped. */
  lemma AlternativeOf(s: Schema, record: Bytes, base: nat, i: nat, offset: nat, firstDate: bool, b: nat)
    returns (j: nat)
    requires i < |s.fields| && BaseAllowed(s, record, base, i, offset, b)
    requires DecodeOne(s, record, i, offset, firstDate, b).Ok?
    ensures
      var a, d := AlternativesAt(s, record, i, offset, firstDate, base), DecodeOne(s, record, i, offset, firstDate, b);
      j < |a| && a[j] == Alternative(d.value, d.end)
  {
    hide DecodeOne;
    hide Same;
    var bases := Bases(s, record, i, offset, base);
    if TwoWidths(s, record, i, offset) {
      WidthsDiffer(s, record, i, offset, firstDate);
      assert bases[..1] == [bases[0]] && bases[..1][..0] == [];
      var first := Alternatives(s, record, i, offset, firstDate, [bases[0]]);
      assert [bases[0]][..0] == [];
      var both := Alternatives(s, record, i, offset, firstDate, bases);
      j := if b == bases[0] then 0 else |both| - 1;
    } else {
      assert bases == [b] && bases[..0] == [];
      j := 0;
    }
  }

  lemma {:induction false} BranchOf(s: Schema, record: Bytes, base: nat, i: nat, firstDate: bool,
      alternatives: seq<Alternative>, k: nat, values: Values)
    returns (j: nat)
    requires i < |s.fields| && k <= |alternatives| && values in Branches(s, record, base, i, firstDate, alternatives, k)
    ensures j < k && values != [] && values[0] == alternatives[j].value
    ensures values[1..] in Framings(s, record, base, i + 1, alternatives[j].end, firstDate && s.fields[i] != Date)
    decreases k
  {
    hide Framings;
    var lists := Framings(s, record, base, i + 1, alternatives[k - 1].end, firstDate && s.fields[i] != Date);
    var here := Prefixed([alternatives[k - 1].value], lists);
    if values in here {
      var n :| 0 <= n < |here| && here[n] == values;
      assert values == [alternatives[k - 1].value] + lists[n];
      j := k - 1;
    } else {
      j := BranchOf(s, record, base, i, firstDate, alternatives, k - 1, values);
    }
  }

  lemma {:induction false} InBranch(s: Schema, record: Bytes, base: nat, i: nat, firstDate: bool,
      alternatives: seq<Alternative>, k: nat, j: nat, rest: Values)
    requires i < |s.fields| && j < k <= |alternatives|
    requires rest in Framings(s, record, base, i + 1, alternatives[j].end, firstDate && s.fields[i] != Date)
    ensures [alternatives[j].value] + rest in Branches(s, record, base, i, firstDate, alternatives, k)
    decreases k
  {
    hide Framings;
    if j < k - 1 {
      InBranch(s, record, base, i, firstDate, alternatives, k - 1, j, rest);
    } else {
      var lists := Framings(s, record, base, i + 1, alternatives[j].end, firstDate && s.fields[i] != Date);
      var n :| 0 <= n < |lists| && lists[n] == rest;
      assert Prefixed([alternatives[j].value], lists)[n] == [alternatives[j].value] + rest;
    }
  }

  lemma FramingEnds(s: Schema, record: Bytes, base: nat, offset: nat, firstDate: bool, values: Values)
    requires values in Framings(s, record, base, |s.fields|, offset, firstDate)
    ensures ExactFrom(s, record, base, |s.fields|, firstDate, [offset], [], values)
  {
    assert Framings(s, record, base, |s.fields|, offset, firstDate) == if offset == |record| then [[]] else [];
  }

  lemma BaseIn(s: Schema, record: Bytes, base: nat, i: nat, offset: nat, b: nat)
    requires i < |s.fields| && IsBase(base) && b in Bases(s, record, i, offset, base)
    ensures BaseAllowed(s, record, base, i, offset, b)
  {
  }

  lemma SpansIf(s: Schema, record: Bytes, base: nat, i: nat, firstDate: bool, b: nat, offset: nat, end: nat,
      value: FieldValue)
    requires i < |s.fields| && BaseAllowed(s, record, base, i, offset, b)
    requires DecodeOne(s, record, i, offset, firstDate, b) == Ok(value, end)
    ensures Spans(s, record, base, i, firstDate, b, offset, end, value)
  {
    hide DecodeOne;
    hide BaseAllowed;
  }

  lemma {:induction false} FramingOffsets(s: Schema, record: Bytes, base: nat, i: nat, offset: nat, firstDate: bool,
      values: Values)
    returns (offsets: seq<nat>, bases: seq<nat>)
    requires i <= |s.fields| && IsBase(base) && values in Framings(s, record, base, i, offset, firstDate)
    ensures ExactFrom(s, record, base, i, firstDate, offsets, bases, values) && offsets != [] && offsets[0] == offset
    decreases |s.fields| - i
  {
    hide *;
    if i == |s.fields| {
      FramingEnds(s, record, base, offset, firstDate, values);
      return [offset], [];
    }
    var alternatives := AlternativesAt(s, record, i, offset, firstDate, base);
    FramingsAreBranches(s, record, base, i, offset, firstDate);
    var j := BranchOf(s, record, base, i, firstDate, alternatives, |alternatives|, values);
    var b := BaseOf(s, record, base, i, offset, firstDate, j);
    offsets, bases := FramingOffsets(s, record, base, i + 1, alternatives[j].end, firstDate && s.fields[i] != Date,
      values[1..]);
    SpansIf(s, record, base, i, firstDate, b, offset, offsets[0], values[0]);
    ExactCons(s, record, base, i, firstDate, b, offset, values[0], offsets, bases, values[1..]);
    assert [values[0]] + values[1..] == values;
    offsets, bases := [offset] + offsets, [b] + bases;
  }

  /** The base under which an alternative was decoded. */
  lemma BaseOf(s: Schema, record: Bytes, base: nat, i: nat, offset: nat, firstDate: bool, j: nat) returns (b: nat)
    requires i < |s.fields| && IsBase(base) && j < |AlternativesAt(s, record, i, offset, firstDate, base)|
    ensures BaseAllowed(s, record, base, i, offset, b)
    ensures
      var a := AlternativesAt(s, record, i, offset, firstDate, base)[j];
      DecodeOne(s, record, i, offset, firstDate, b) == Ok(a.value, a.end)
  {
    hide Bases;
    hide Alternatives;
    hide DecodeOne;
    hide BaseAllowed;
    hide IsBase;
    b := AlternativeBase(s, record, i, offset, firstDate, Bases(s, record, i, offset, base), j);
    BaseIn(s, record, base, i, offset, b);
  }

  lemma FramingsAreBranches(s: Schema, record: Bytes, base: nat, i: nat, offset: nat, firstDate: bool)
    requires i < |s.fields|
    ensures var alternatives := AlternativesAt(s, record, i, offset, firstDate, base);
      Framings(s, record, base, i, offset, firstDate)
        == Branches(s, record, base, i, firstDate, alternatives, |alternatives|)
  {
  }

  lemma ExactParts(s: Schema, record: Bytes, base: nat, from: nat, firstDate: bool, offsets: seq<nat>,
      bases: seq<nat>, values: Values)
    requires from <= |s.fields| && ExactFrom(s, record, base, from, firstDate, offsets, bases, values)
    ensures |bases| == |values| == |s.fields| - from && |offsets| == |values| + 1
    ensures from == |s.fields| ==> values in Framings(s, record, base, from, offsets[0], firstDate)
  {
    hide Spans;
  }

  lemma SpanParts(s: Schema, record: Bytes, base: nat, i: nat, firstDate: bool, b: nat, offset: nat, end: nat,
      value: FieldValue)
    requires i < |s.fields| && Spans(s, record, base, i, firstDate, b, offset, end, value)
    ensures BaseAllowed(s, record, base, i, offset, b)
    ensures DecodeOne(s, record, i, offset, firstDate, b) == Ok(value, end)
  {
    hide DecodeOne;
    hide BaseAllowed;
  }

  lemma {:induction false} ExactIsFound(s: Schema, record: Bytes, base: nat, i: nat, firstDate: bool,
      offsets: seq<nat>, bases: seq<nat>, values: Values)
    requires i <= |s.fields| && ExactFrom(s, record, base, i, firstDate, offsets, bases, values)
    ensures offsets != [] && values in Framings(s, record, base, i, offsets[0], firstDate)
    decreases |s.fields| - i
  {
    hide *;
    ExactParts(s, record, base, i, firstDate, offsets, bases, values);
    if i < |s.fields| {
      ExactTail(s, record, base, i, firstDate, offsets, bases, values);
      ExactIsFound(s, record, base, i + 1, firstDate && s.fields[i] != Date, offsets[1..], bases[1..], values[1..]);
      SpanParts(s, record, base, i, firstDate, bases[0], offsets[0], offsets[1], values[0]);
      var alternatives := AlternativesAt(s, record, i, offsets[0], firstDate, base);
      var j := AlternativeOf(s, record, base, i, offsets[0], firstDate, bases[0]);
      InBranch(s, record, base, i, firstDate, alternatives, |alternatives|, j, values[1..]);
      FramingsAreBranches(s, record, base, i, offsets[0], firstDate);
      assert [values[0]] + values[1..] == values;
    }
  }

  /** The walk lists exactly the value lists of exact framings. */
  lemma FramingsExact(s: Schema, record: Bytes, base: nat, values: Values)
    requires IsBase(base)
    ensures values in AllOf(s, record, base) <==> IsFraming(s, record, base, values)
  {
    if values in AllOf(s, record, base) {
      var offsets, bases := FramingOffsets(s, record, base, 0, 0, true, values);
    }
    if IsFraming(s, record, base, values) {
      var offsets, bases :| |offsets| > 0 && offsets[0] == 0
        && ExactFrom(s, record, base, 0, true, offsets, bases, values);
      ExactIsFound(s, record, base, 0, true, offsets, bases, values);
    }
  }
}
