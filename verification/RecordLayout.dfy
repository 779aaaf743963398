// One record: a fixed part with a place for every field, and behind it the values of the fields of
// variable length, which their places point to.

module RecordLayout {
  import opened Bytes
  import opened LittleEndian
  import opened Fields
  import opened AsciiField
  import opened DecimalText
  import opened Calendar
  import opened Transcode
  import RecordScan

  datatype FieldMeta = FieldMeta(fieldType: FieldType, size: nat, scale: nat, offset: nat)

  /**
    * The value of a field as a column holds it: dates, times, timestamps and decimals as integers, floats
    * as their bytes.
    */
  datatype Cell =
    | BoolCell(flag: Option<bool>)
    | IntCell(number: Option<int>)
    | WordCell(word: Option<Bytes>)
    | TextCell(text: Option<Text>)
    | BinaryCell(data: Option<Bytes>)

  function Length(f: FieldMeta): (n: nat)
    ensures n >= 1
  {
    FixedBytes(f.fieldType, f.size)
  }

  /** The column has the type that the field was made for. */
  predicate Suits(f: FieldMeta, c: Cell) {
    match f.fieldType
    case Bool => c.BoolCell?
    case Float => c.WordCell? && (c.word.Some? ==> |c.word.value| == 4)
    case Double => c.WordCell? && (c.word.Some? ==> |c.word.value| == 8)
    case String => c.TextCell?
    case WString => c.TextCell?
    case VString => c.TextCell?
    case VWString => c.TextCell?
    case Blob => c.BinaryCell?
    case SpatialObj => c.BinaryCell?
    case _ => c.IntCell?
  }

  function Extent(fields: seq<FieldMeta>, n: nat): nat
    requires n <= |fields|
  {
    if n == 0 then 0 else Extent(fields, n - 1) + Length(fields[n - 1])
  }

  /** Fields follow each other without gaps. */
  predicate LaidOut(fields: seq<FieldMeta>) {
    forall i :: 0 <= i < |fields| ==> fields[i].offset == Extent(fields, i)
  }

  function FixedSize(fields: seq<FieldMeta>): nat {
    if fields == [] then 0 else fields[|fields| - 1].offset + Length(fields[|fields| - 1])
  }

  predicate HasVar(fields: seq<FieldMeta>) {
    exists i :: 0 <= i < |fields| && IsVariable(fields[i].fieldType)
  }

  predicate Row(fields: seq<FieldMeta>, cells: seq<Cell>) {
    |cells| == |fields| && LaidOut(fields) && forall i :: 0 <= i < |fields| ==> Suits(fields[i], cells[i])
  }

  // -- Fields of fixed length --

  function Flagged(value: Option<Bytes>, width: nat): (b: Bytes)
    requires value.Some? ==> |value.value| == width
    ensures |b| == width + 1
  {
    if value == None then Zeros(width) + [1] else value.value + [0]
  }

  function NumberBytes(number: Option<int>, width: nat): (b: Bytes)
    ensures |b| == width + 1
  {
    Flagged(if number == None then None else Some(Le(number.value, width)), width)
  }

  function TextBytes(text: Option<Bytes>, width: nat): (b: Bytes)
    ensures |b| == width + 1
  {
    Flagged(if text == None then None else Some(Fitted(text.value, width)), width)
  }

  /** The text that a field of numbers or text holds, before it is fitted. */
  function FieldText(f: FieldMeta, c: Cell): Option<Bytes>
    requires Suits(f, c)
  {
    var t := f.fieldType;
    if c.IntCell? && c.number.Some? then
      var v := c.number.value;
      Some(
        if t == FixedDecimal then FormatDecimal(v, f.scale)
        else if t == FieldType.Date then DaysToDateStr(v)
        else if t == Time then NsToTimeStr(v)
        else UsToDatetimeStr(v))
    else if c.TextCell? && c.text.Some? then Some(if t == String then Utf8(c.text.value) else Utf16Le(c.text.value))
    else None
  }

  predicate IsInteger(t: FieldType) {
    t == Byte || t == Int16 || t == Int32 || t == Int64
  }

  function FixedImage(f: FieldMeta, c: Cell): (b: Bytes)
    requires Suits(f, c) && !IsVariable(f.fieldType)
    ensures |b| == Length(f)
  {
    var t := f.fieldType;
    if t == Bool then (if c.flag == None then [2] else if c.flag.value then [1] else [0])
    else if IsInteger(t) then NumberBytes(c.number, Length(f) - 1)
    else if t == Float || t == Double then Flagged(c.word, Length(f) - 1)
    else TextBytes(FieldText(f, c), Length(f) - 1)
  }

  // -- Fields of variable length --

  function VarData(f: FieldMeta, c: Cell): Option<Bytes>
    requires Suits(f, c) && IsVariable(f.fieldType)
  {
    if f.fieldType == VString then (if c.text == None then None else Some(Utf8(c.text.value)))
    else if f.fieldType == VWString then (if c.text == None then None else Some(Utf16Le(c.text.value)))
    else c.data
  }

  function BlockHeader(length: nat): Bytes {
    if length <= 127 then [length * 2 + 1] else U32Le(length * 2)
  }

  function VarBlock(data: Bytes): Bytes {
    BlockHeader(|data|) + data
  }

  predicate Points(f: FieldMeta, c: Cell)
    requires Suits(f, c)
  {
    IsVariable(f.fieldType) && VarData(f, c).Some? && VarData(f, c).value != []
  }

  /** What a field adds to the variable part. */
  function OwnData(fields: seq<FieldMeta>, cells: seq<Cell>, i: nat): Bytes
    requires Row(fields, cells) && i < |fields|
  {
    if Points(fields[i], cells[i]) then VarBlock(VarData(fields[i], cells[i]).value) else []
  }

  /** Variable data of the first `n` fields. */
  function VarUpTo(fields: seq<FieldMeta>, cells: seq<Cell>, n: nat): Bytes
    requires Row(fields, cells) && n <= |fields|
  {
    if n == 0 then [] else VarUpTo(fields, cells, n - 1) + OwnData(fields, cells, n - 1)
  }

  /** Distance from a field to its data, with the top bit set. */
  function Pointer(distance: int): (b: Bytes)
    ensures |b| == 4
  {
    U32Le(distance % TWO_31 + TWO_31)
  }

  /** The place of a field before the pointers are known. */
  function RawImage(f: FieldMeta, c: Cell): (b: Bytes)
    requires Suits(f, c)
    ensures |b| == Length(f)
  {
    if !IsVariable(f.fieldType) then FixedImage(f, c)
    else if VarData(f, c) == None then U32Le(1)
    else U32Le(0)
  }

  function Image(fields: seq<FieldMeta>, cells: seq<Cell>, i: nat): (b: Bytes)
    requires Row(fields, cells) && i < |fields|
    ensures |b| == Length(fields[i])
  {
    if Points(fields[i], cells[i]) then Pointer(FixedSize(fields) + 4 + |VarUpTo(fields, cells, i)| - fields[i].offset)
    else RawImage(fields[i], cells[i])
  }

  function FixedUpTo(fields: seq<FieldMeta>, cells: seq<Cell>, n: nat): (b: Bytes)
    requires Row(fields, cells) && n <= |fields|
    ensures |b| == Extent(fields, n)
  {
    if n == 0 then [] else FixedUpTo(fields, cells, n - 1) + Image(fields, cells, n - 1)
  }

  /** The record of a row. */
  function RecordOf(fields: seq<FieldMeta>, cells: seq<Cell>): Bytes
    requires Row(fields, cells)
  {
    var varData := VarUpTo(fields, cells, |fields|);
    FixedUpTo(fields, cells, |fields|) + if HasVar(fields) then U32Le(|varData|) + varData else []
  }

  lemma FixedSizeIsExtent(fields: seq<FieldMeta>)
    requires LaidOut(fields)
    ensures FixedSize(fields) == Extent(fields, |fields|)
  {
  }

  // -- Building a record in buffers that are used again --

  function Raw(fields: seq<FieldMeta>, cells: seq<Cell>, i: nat): (b: Bytes)
    requires Row(fields, cells) && i < |fields|
    ensures |b| == Length(fields[i])
  {
    RawImage(fields[i], cells[i])
  }

  /** The fixed part from field `n` on, before the pointers are known. */
  function RawFrom(fields: seq<FieldMeta>, cells: seq<Cell>, n: nat): Bytes
    requires Row(fields, cells) && n <= |fields|
    decreases |fields| - n
  {
    if n == |fields| then [] else Raw(fields, cells, n) + RawFrom(fields, cells, n + 1)
  }

  function RawUpTo(fields: seq<FieldMeta>, cells: seq<Cell>, n: nat): (b: Bytes)
    requires Row(fields, cells) && n <= |fields|
    ensures |b| == Extent(fields, n)
  {
    if n == 0 then [] else RawUpTo(fields, cells, n - 1) + Raw(fields, cells, n - 1)
  }

  /** A field whose pointer is to be filled in, and where its data starts in the variable part. */
  datatype Fixup = Fixup(offset: nat, start: nat)

  function OwnFixup(fields: seq<FieldMeta>, cells: seq<Cell>, i: nat): seq<Fixup>
    requires Row(fields, cells) && i < |fields|
  {
    if Points(fields[i], cells[i]) then [Fixup(fields[i].offset, |VarUpTo(fields, cells, i)|)] else []
  }

  function FixupsFrom(fields: seq<FieldMeta>, cells: seq<Cell>, n: nat): seq<Fixup>
    requires Row(fields, cells) && n <= |fields|
    decreases |fields| - n
  {
    if n == |fields| then [] else OwnFixup(fields, cells, n) + FixupsFrom(fields, cells, n + 1)
  }

  predicate InFixed(fixups: seq<Fixup>, size: nat) {
    forall k :: 0 <= k < |fixups| ==> fixups[k].offset + 4 <= size
  }

  function Fixed(fixed: Bytes, fixups: seq<Fixup>, fixedSize: nat): (b: Bytes)
    requires InFixed(fixups, |fixed|)
    ensures |b| == |fixed|
    decreases |fixups|
  {
    if fixups == [] then fixed
    else
      var fix := fixups[0];
      Fixed(Patch(fixed, fix.offset, Pointer(fixedSize + 4 + fix.start - fix.offset)), fixups[1..], fixedSize)
  }

  class RecordBuffers {
    var fixed: Bytes
    var varData: Bytes
    var varFixups: seq<Fixup>
    var recordOut: Bytes

    constructor ()
    {
      fixed, varData, varFixups, recordOut := [], [], [], [];
    }

    /** Write one field into the buffers. */
    method SerializeField(f: FieldMeta, c: Cell)
      requires Suits(f, c) && f.offset + Length(f) <= |fixed|
      modifies this`fixed, this`varData, this`varFixups
      ensures fixed == Patch(old(fixed), f.offset, RawImage(f, c))
      ensures varData == old(varData) + if Points(f, c) then VarBlock(VarData(f, c).value) else []
      ensures varFixups == old(varFixups) + if Points(f, c) then [Fixup(f.offset, |old(varData)|)] else []
    {
      hide FixedImage;
      hide VarData;
      hide Patch;
      if !IsVariable(f.fieldType) {
        fixed := Patch(fixed, f.offset, FixedImage(f, c));
      } else {
        var data := VarData(f, c);
        if data == None {
          fixed := Patch(fixed, f.offset, U32Le(1));
        } else if data.value == [] {
          fixed := Patch(fixed, f.offset, U32Le(0));
        } else {
          varFixups := varFixups + [Fixup(f.offset, |varData|)];
          varData := varData + BlockHeader(|data.value|);
          varData := varData + data.value;
          fixed := Patch(fixed, f.offset, U32Le(0));
        }
      }
    }

    /** Put the record of a row into `recordOut`, whatever the buffers held before. */
    method BuildRecord(fields: seq<FieldMeta>, cells: seq<Cell>)
      requires Row(fields, cells)
      modifies this
      ensures recordOut == RecordOf(fields, cells)
    {
      hide *;
      var fixedSize := FixedSize(fields);
      fixed, varData, varFixups := Zeros(fixedSize), [], [];
      var i := 0;
      NothingSerialized(fields, cells);
      while i < |fields|
        invariant 0 <= i <= |fields| && SoFar(fields, cells, i)
      {
        SerializeNext(fields, cells, i);
        i := i + 1;
      }
      AllSerialized(fields, cells);
      AllFixed(fields, cells);
      if HasVar(fields) {
        FixUp(fixedSize);
      }
      recordOut := fixed;
      if HasVar(fields) {
        recordOut := recordOut + U32Le(|varData|);
        recordOut := recordOut + varData;
      }
      RecordIs(fields, cells);
    }

    /** The first `n` fields are in the buffers. */
    ghost predicate SoFar(fields: seq<FieldMeta>, cells: seq<Cell>, n: nat)
      requires Row(fields, cells) && n <= |fields|
      reads this`fixed, this`varData, this`varFixups
    {
      && Extent(fields, n) <= FixedSize(fields)
      && fixed == RawUpTo(fields, cells, n) + Zeros(FixedSize(fields) - Extent(fields, n))
      && varData == VarUpTo(fields, cells, n)
      && varFixups + FixupsFrom(fields, cells, n) == FixupsFrom(fields, cells, 0)
    }

    lemma NothingSerialized(fields: seq<FieldMeta>, cells: seq<Cell>)
      requires Row(fields, cells) && fixed == Zeros(FixedSize(fields)) && varData == [] && varFixups == []
      ensures SoFar(fields, cells, 0)
    {
      assert [] + fixed == fixed;
      assert [] + FixupsFrom(fields, cells, 0) == FixupsFrom(fields, cells, 0);
    }

    lemma AllSerialized(fields: seq<FieldMeta>, cells: seq<Cell>)
      requires Row(fields, cells) && SoFar(fields, cells, |fields|)
      ensures fixed == RawUpTo(fields, cells, |fields|) && varData == VarUpTo(fields, cells, |fields|)
      ensures varFixups == FixupsFrom(fields, cells, 0)
    {
      FixedSizeIsExtent(fields);
      hide FixedSize;
      assert RawUpTo(fields, cells, |fields|) + [] == RawUpTo(fields, cells, |fields|);
      assert varFixups + [] == varFixups;
    }

    method SerializeNext(fields: seq<FieldMeta>, cells: seq<Cell>, n: nat)
      requires Row(fields, cells) && n < |fields| && SoFar(fields, cells, n)
      modifies this`fixed, this`varData, this`varFixups
      ensures SoFar(fields, cells, n + 1)
    {
      hide *;
      RowAt(fields, cells, n);
      FixedSizeIsExtent(fields);
      ExtentGrows(fields, n + 1);
      ghost var front, width, rest := RawUpTo(fields, cells, n), Length(fields[n]),
        FixedSize(fields) - Extent(fields, n + 1);
      assert fixed == front + Zeros(width + rest) && varData == VarUpTo(fields, cells, n)
        && varFixups + FixupsFrom(fields, cells, n) == FixupsFrom(fields, cells, 0) by {
        SoFarIs(fields, cells, n);
      }
      ZerosSplit(width, rest);
      Assoc(front, Zeros(width), Zeros(rest));
      PatchMiddle(front, Zeros(width), Zeros(rest), Raw(fields, cells, n));
      NextParts(fields, cells, n);
      Assoc(varFixups, OwnFixup(fields, cells, n), FixupsFrom(fields, cells, n + 1));
      SerializeField(fields[n], cells[n]);
      SoFarFrom(fields, cells, n + 1, rest);
    }

    lemma SoFarIs(fields: seq<FieldMeta>, cells: seq<Cell>, n: nat)
      requires Row(fields, cells) && n < |fields| && SoFar(fields, cells, n)
      requires Extent(fields, n + 1) <= FixedSize(fields)
      ensures fixed
        == RawUpTo(fields, cells, n) + Zeros(Length(fields[n]) + (FixedSize(fields) - Extent(fields, n + 1)))
      ensures varData == VarUpTo(fields, cells, n)
      ensures varFixups + FixupsFrom(fields, cells, n) == FixupsFrom(fields, cells, 0)
    {
      hide *;
      RowAt(fields, cells, n);
      SoFarParts(fields, cells, n);
      assert Length(fields[n]) + (FixedSize(fields) - Extent(fields, n + 1)) == FixedSize(fields) - Extent(fields, n);
    }

    lemma SoFarParts(fields: seq<FieldMeta>, cells: seq<Cell>, n: nat)
      requires Row(fields, cells) && n <= |fields| && SoFar(fields, cells, n)
      ensures Extent(fields, n) <= FixedSize(fields)
      ensures fixed == RawUpTo(fields, cells, n) + Zeros(FixedSize(fields) - Extent(fields, n))
      ensures varData == VarUpTo(fields, cells, n)
      ensures varFixups + FixupsFrom(fields, cells, n) == FixupsFrom(fields, cells, 0)
    {
      hide Row;
      hide Extent;
      hide FixedSize;
      hide RawUpTo;
      hide VarUpTo;
      hide FixupsFrom;
    }

    lemma SoFarFrom(fields: seq<FieldMeta>, cells: seq<Cell>, n: nat, rest: nat)
      requires Row(fields, cells) && n <= |fields| && Extent(fields, n) + rest == FixedSize(fields)
      requires fixed == RawUpTo(fields, cells, n) + Zeros(rest)
      requires varData == VarUpTo(fields, cells, n)
      requires varFixups + FixupsFrom(fields, cells, n) == FixupsFrom(fields, cells, 0)
      ensures SoFar(fields, cells, n)
    {
    }

    /** Fill in the pointers, now that the size of the fixed part and all data offsets are known. */
    method FixUp(fixedSize: nat)
      requires InFixed(varFixups, |fixed|)
      modifies this`fixed
      ensures fixed == Fixed(old(fixed), varFixups, fixedSize)
    {
      hide Patch;
      hide Pointer;
      var k := 0;
      assert varFixups[0..] == varFixups;
      while k < |varFixups|
        invariant 0 <= k <= |varFixups| && InFixed(varFixups, |fixed|)
        invariant Fixed(fixed, varFixups[k..], fixedSize) == Fixed(old(fixed), varFixups, fixedSize)
      {
        var fix := varFixups[k];
        assert varFixups[k..][0] == fix && varFixups[k..][1..] == varFixups[k + 1..];
        PatchLength(fixed, fix.offset, Pointer(fixedSize + 4 + fix.start - fix.offset));
        fixed := Patch(fixed, fix.offset, Pointer(fixedSize + 4 + fix.start - fix.offset));
        k := k + 1;
      }
    }
  }

  lemma PatchLength(file: Bytes, at: nat, part: Bytes)
    requires at + |part| <= |file|
    ensures |Patch(file, at, part)| == |file|
  {
  }

  lemma ZerosSplit(a: nat, b: nat)
    ensures Zeros(a + b) == Zeros(a) + Zeros(b) && |Zeros(a)| == a && |Zeros(b)| == b
  {
  }

  lemma {:induction false} ExtentGrows(fields: seq<FieldMeta>, n: nat)
    requires n <= |fields|
    ensures Extent(fields, n) <= Extent(fields, |fields|)
    decreases |fields| - n
  {
    if n < |fields| {
      ExtentGrows(fields, n + 1);
    }
  }

  lemma RowAt(fields: seq<FieldMeta>, cells: seq<Cell>, n: nat)
    requires Row(fields, cells) && n < |fields|
    ensures LaidOut(fields) && |cells| == |fields| && Suits(fields[n], cells[n])
    ensures fields[n].offset == Extent(fields, n)
    ensures Extent(fields, n + 1) == Extent(fields, n) + Length(fields[n])
  {
  }

  /** What field `n` adds to every part. */
  lemma NextParts(fields: seq<FieldMeta>, cells: seq<Cell>, n: nat)
    requires Row(fields, cells) && n < |fields|
    ensures |cells| == |fields| && Suits(fields[n], cells[n])
    ensures Raw(fields, cells, n) == RawImage(fields[n], cells[n]) && |Raw(fields, cells, n)| == Length(fields[n])
    ensures OwnData(fields, cells, n)
      == if Points(fields[n], cells[n]) then VarBlock(VarData(fields[n], cells[n]).value) else []
    ensures OwnFixup(fields, cells, n)
      == if Points(fields[n], cells[n]) then [Fixup(fields[n].offset, |VarUpTo(fields, cells, n)|)] else []
    ensures RawUpTo(fields, cells, n + 1) == RawUpTo(fields, cells, n) + Raw(fields, cells, n)
    ensures FixedUpTo(fields, cells, n + 1) == FixedUpTo(fields, cells, n) + Image(fields, cells, n)
    ensures VarUpTo(fields, cells, n + 1) == VarUpTo(fields, cells, n) + OwnData(fields, cells, n)
    ensures RawFrom(fields, cells, n) == Raw(fields, cells, n) + RawFrom(fields, cells, n + 1)
    ensures FixupsFrom(fields, cells, n) == OwnFixup(fields, cells, n) + FixupsFrom(fields, cells, n + 1)
    ensures |RawUpTo(fields, cells, n)| == |FixedUpTo(fields, cells, n)| == Extent(fields, n)
  {
    hide RawImage;
    hide VarBlock;
    hide Points;
    hide Image;
    hide Length;
  }

  lemma {:induction false} FixupsWithin(fields: seq<FieldMeta>, cells: seq<Cell>, n: nat)
    requires Row(fields, cells) && n <= |fields|
    ensures InFixed(FixupsFrom(fields, cells, n), FixedSize(fields))
    decreases |fields| - n
  {
    hide *;
    if n == |fields| {
      NothingToFix(fields, cells);
    } else {
      RowAt(fields, cells, n);
      FixedSizeIsExtent(fields);
      FixupsWithin(fields, cells, n + 1);
      ExtentGrows(fields, n + 1);
      FirstFixup(fields, cells, n);
      FixupWithin(fields, cells, n);
      WithinAppend(OwnFixup(fields, cells, n), FixupsFrom(fields, cells, n + 1), FixedSize(fields));
    }
  }

  lemma NothingToFix(fields: seq<FieldMeta>, cells: seq<Cell>)
    requires Row(fields, cells)
    ensures InFixed(FixupsFrom(fields, cells, |fields|), FixedSize(fields))
  {
    hide Row;
  }

  lemma FirstFixup(fields: seq<FieldMeta>, cells: seq<Cell>, n: nat)
    requires Row(fields, cells) && n < |fields|
    ensures FixupsFrom(fields, cells, n) == OwnFixup(fields, cells, n) + FixupsFrom(fields, cells, n + 1)
  {
    hide Row;
    hide OwnFixup;
  }

  lemma FixupWithin(fields: seq<FieldMeta>, cells: seq<Cell>, n: nat)
    requires Row(fields, cells) && n < |fields| && Extent(fields, n + 1) <= FixedSize(fields)
    ensures InFixed(OwnFixup(fields, cells, n), FixedSize(fields))
  {
    hide *;
    RowAt(fields, cells, n);
    NextParts(fields, cells, n);
    PointerFits(fields, cells, n);
    InFixedIf(OwnFixup(fields, cells, n), FixedSize(fields));
  }

  lemma PointerFits(fields: seq<FieldMeta>, cells: seq<Cell>, n: nat)
    requires n < |fields| && |cells| == |fields| && Suits(fields[n], cells[n])
    ensures Points(fields[n], cells[n]) ==> Length(fields[n]) == 4
  {
  }

  lemma InFixedIf(fixups: seq<Fixup>, size: nat)
    requires |fixups| <= 1 && (fixups != [] ==> fixups[0].offset + 4 <= size)
    ensures InFixed(fixups, size)
  {
  }

  lemma WithinAppend(a: seq<Fixup>, b: seq<Fixup>, size: nat)
    ensures InFixed(a + b, size) <==> InFixed(a, size) && InFixed(b, size)
  {
    if InFixed(a + b, size) {
      forall k | 0 <= k < |a| ensures a[k].offset + 4 <= size {
        assert (a + b)[k] == a[k];
      }
      forall k | 0 <= k < |b| ensures b[k].offset + 4 <= size {
        assert (a + b)[|a| + k] == b[k];
      }
    }
  }

  lemma {:induction false} RawParts(fields: seq<FieldMeta>, cells: seq<Cell>, n: nat)
    requires Row(fields, cells) && n <= |fields|
    ensures RawUpTo(fields, cells, n) + RawFrom(fields, cells, n) == RawFrom(fields, cells, 0)
    decreases n
  {
    if n > 0 {
      hide *;
      RawParts(fields, cells, n - 1);
      NextParts(fields, cells, n - 1);
      Assoc(RawUpTo(fields, cells, n - 1), Raw(fields, cells, n - 1), RawFrom(fields, cells, n));
    } else {
      hide RawFrom;
      assert [] + RawFrom(fields, cells, 0) == RawFrom(fields, cells, 0);
    }
  }

  /** From field `n` on, the fix-ups turn the raw places into the final ones. */
  lemma {:induction false} FixedFrom(fields: seq<FieldMeta>, cells: seq<Cell>, n: nat)
    requires Row(fields, cells) && n <= |fields|
    ensures var fixed := FixedUpTo(fields, cells, n) + RawFrom(fields, cells, n);
      |fixed| == FixedSize(fields) && InFixed(FixupsFrom(fields, cells, n), FixedSize(fields))
      && Fixed(fixed, FixupsFrom(fields, cells, n), FixedSize(fields)) == FixedUpTo(fields, cells, |fields|)
    decreases |fields| - n
  {
    hide *;
    if n == |fields| {
      FixedAtEnd(fields, cells);
    } else {
      FixupsWithin(fields, cells, n);
      FixedFrom(fields, cells, n + 1);
      FixOne(fields, cells, n);
    }
  }

  lemma FixedAtEnd(fields: seq<FieldMeta>, cells: seq<Cell>)
    requires Row(fields, cells)
    ensures RawFrom(fields, cells, |fields|) == [] && FixupsFrom(fields, cells, |fields|) == []
    ensures FixedUpTo(fields, cells, |fields|) + [] == FixedUpTo(fields, cells, |fields|)
    ensures |FixedUpTo(fields, cells, |fields|)| == FixedSize(fields) && InFixed([], FixedSize(fields))
    ensures Fixed(FixedUpTo(fields, cells, |fields|), [], FixedSize(fields)) == FixedUpTo(fields, cells, |fields|)
  {
    FixedSizeIsExtent(fields);
    hide FixedSize;
    hide Extent;
    hide Image;
    hide Raw;
    hide OwnFixup;
    assert FixedUpTo(fields, cells, |fields|) + [] == FixedUpTo(fields, cells, |fields|);
  }

  /** The fix-up of one field, if it has one. */
  lemma FixOne(fields: seq<FieldMeta>, cells: seq<Cell>, n: nat)
    requires Row(fields, cells) && n < |fields|
    requires InFixed(FixupsFrom(fields, cells, n), FixedSize(fields))
    requires InFixed(FixupsFrom(fields, cells, n + 1), FixedSize(fields))
    requires |FixedUpTo(fields, cells, n + 1) + RawFrom(fields, cells, n + 1)| == FixedSize(fields)
    ensures
      var here, next := FixedUpTo(fields, cells, n) + RawFrom(fields, cells, n),
        FixedUpTo(fields, cells, n + 1) + RawFrom(fields, cells, n + 1);
      |here| == |next|
      && Fixed(here, FixupsFrom(fields, cells, n), FixedSize(fields))
         == Fixed(next, FixupsFrom(fields, cells, n + 1), FixedSize(fields))
  {
    hide *;
    var front, raw, rest := FixedUpTo(fields, cells, n), Raw(fields, cells, n), RawFrom(fields, cells, n + 1);
    var image := Image(fields, cells, n);
    NextParts(fields, cells, n);
    RowAt(fields, cells, n);
    ImageIs(fields, cells, n);
    Assoc(front, raw, rest);
    Assoc(front, image, rest);
    if Points(fields[n], cells[n]) {
      var fix := Fixup(fields[n].offset, |VarUpTo(fields, cells, n)|);
      var fixups := FixupsFrom(fields, cells, n + 1);
      PatchMiddle(front, raw, rest, image);
      FixedStep(front + raw + rest, fix, fixups, FixedSize(fields));
    } else {
      assert [] + FixupsFrom(fields, cells, n + 1) == FixupsFrom(fields, cells, n + 1);
    }
  }

  lemma FixedStep(fixed: Bytes, fix: Fixup, fixups: seq<Fixup>, fixedSize: nat)
    requires InFixed([fix] + fixups, |fixed|)
    ensures fix.offset + 4 <= |fixed| && InFixed(fixups, |fixed|)
    ensures var patched := Patch(fixed, fix.offset, Pointer(fixedSize + 4 + fix.start - fix.offset));
      |patched| == |fixed| && Fixed(fixed, [fix] + fixups, fixedSize) == Fixed(patched, fixups, fixedSize)
  {
    hide Pointer;
    WithinAppend([fix], fixups, |fixed|);
    assert [fix][0] == fix;
    assert ([fix] + fixups)[1..] == fixups;
  }

  lemma ImageIs(fields: seq<FieldMeta>, cells: seq<Cell>, n: nat)
    requires Row(fields, cells) && n < |fields|
    ensures |cells| == |fields| && Suits(fields[n], cells[n]) && |Image(fields, cells, n)| == |Raw(fields, cells, n)|
    ensures Image(fields, cells, n) ==
      if Points(fields[n], cells[n]) then
        Pointer(FixedSize(fields) + 4 + |VarUpTo(fields, cells, n)| - fields[n].offset)
      else Raw(fields, cells, n)
  {
    hide VarUpTo;
    hide FixedSize;
    hide RawImage;
    hide Points;
    hide Length;
    hide LaidOut;
    hide U32Le;
  }

  lemma AllFixed(fields: seq<FieldMeta>, cells: seq<Cell>)
    requires Row(fields, cells)
    ensures var raw, fixups := RawUpTo(fields, cells, |fields|), FixupsFrom(fields, cells, 0);
      |raw| == FixedSize(fields) && InFixed(fixups, |raw|)
      && Fixed(raw, fixups, FixedSize(fields)) == FixedUpTo(fields, cells, |fields|)
      && (!HasVar(fields) ==> fixups == [])
    ensures Fixed(RawUpTo(fields, cells, |fields|), [], FixedSize(fields)) == RawUpTo(fields, cells, |fields|)
  {
    hide *;
    FixedFrom(fields, cells, 0);
    RawParts(fields, cells, |fields|);
    EndParts(fields, cells);
    if !HasVar(fields) {
      NoFixups(fields, cells, 0);
    }
  }

  lemma EndParts(fields: seq<FieldMeta>, cells: seq<Cell>)
    requires Row(fields, cells)
    ensures FixedUpTo(fields, cells, 0) + RawFrom(fields, cells, 0) == RawFrom(fields, cells, 0)
    ensures RawUpTo(fields, cells, |fields|) + RawFrom(fields, cells, |fields|) == RawUpTo(fields, cells, |fields|)
    ensures forall fixed: Bytes, size {:trigger Fixed(fixed, [], size)} :: Fixed(fixed, [], size) == fixed
  {
    hide FixedSize;
    hide Raw;
    assert [] + RawFrom(fields, cells, 0) == RawFrom(fields, cells, 0);
    assert RawUpTo(fields, cells, |fields|) + [] == RawUpTo(fields, cells, |fields|);
  }

  lemma NoFixup(fields: seq<FieldMeta>, cells: seq<Cell>, n: nat)
    requires Row(fields, cells) && n < |fields| && !HasVar(fields)
    ensures OwnFixup(fields, cells, n) == []
  {
    assert !IsVariable(fields[n].fieldType);
    hide VarUpTo;
    hide VarData;
    hide Suits;
    hide LaidOut;
    hide HasVar;
  }

  lemma {:induction false} NoFixups(fields: seq<FieldMeta>, cells: seq<Cell>, n: nat)
    requires Row(fields, cells) && n <= |fields| && !HasVar(fields)
    ensures FixupsFrom(fields, cells, n) == []
    decreases |fields| - n
  {
    hide *;
    if n < |fields| {
      NoFixup(fields, cells, n);
      NoFixups(fields, cells, n + 1);
      NextParts(fields, cells, n);
      assert [] + FixupsFrom(fields, cells, n + 1) == FixupsFrom(fields, cells, n + 1);
    } else {
      FixedAtEnd(fields, cells);
    }
  }

  lemma RecordIs(fields: seq<FieldMeta>, cells: seq<Cell>)
    requires Row(fields, cells)
    ensures var fixed, varData := FixedUpTo(fields, cells, |fields|), VarUpTo(fields, cells, |fields|);
      RecordOf(fields, cells) == if HasVar(fields) then fixed + U32Le(|varData|) + varData else fixed
  {
    hide FixedUpTo;
    hide VarUpTo;
    hide HasVar;
    hide U32Le;
    var fixed, varData := FixedUpTo(fields, cells, |fields|), VarUpTo(fields, cells, |fields|);
    Assoc(fixed, U32Le(|varData|), varData);
    assert fixed + [] == fixed;
  }
}
