// Reading the fields of a record back.

module RecordReader {
  import opened Bytes
  import opened LittleEndian
  import opened Fields
  import opened AsciiField
  import opened Transcode
  import opened RecordLayout
  import RecordScan

  /** Data of a field of variable length: null or out of the record, found, or a slice that panics. */
  datatype Located = Missing | Found(data: Bytes) | Panic

  function LocateVarData(record: Bytes, start: nat): Located
    requires start + 4 <= |record|
  {
    var v := FromU32Le(record[start..start + 4]);
    if v == 0 then Found([])
    else if v == 1 then Missing
    else if IsTiny(v) then
      // One to seven bytes, said to be inside the fixed part itself.
      if start + v / 0x1000_0000 > |record| then Panic else Found(record[start..start + v / 0x1000_0000])
    else LocateBlock(record, start + v % TWO_31)
  }

  /** The top bit is clear, and of bits 28 and 29 one is set. */
  predicate IsTiny(v: nat) {
    v < TWO_31 && v / 0x1000_0000 % 4 != 0
  }

  function LocateBlock(record: Bytes, block: nat): Located {
    if block >= |record| then Missing
    else if record[block] % 2 == 1 then
      var end := block + 1 + record[block] as int / 2;
      if end > |record| then Missing else Found(record[block + 1..end])
    else if block + 4 > |record| then Missing
    else
      var end := block + 4 + FromU32Le(record[block..block + 4]) / 2;
      if end > |record| then Missing else Found(record[block + 4..end])
  }

  // -- Variable-length fields are read back --

  lemma SliceOfAppend(a: Bytes, b: Bytes, at: nat, n: nat)
    ensures at + n <= |a| ==> (a + b)[at..at + n] == a[at..at + n]
    ensures at == |a| && n == |b| ==> (a + b)[at..at + n] == b
  {
  }

  lemma {:induction false} ImageAt(fields: seq<FieldMeta>, cells: seq<Cell>, i: nat, n: nat)
    requires Row(fields, cells) && i < n <= |fields|
    ensures var at := fields[i].offset; var fixed := FixedUpTo(fields, cells, n);
      at + Length(fields[i]) <= |fixed| && fixed[at..at + Length(fields[i])] == Image(fields, cells, i)
    decreases n
  {
    hide *;
    RowAt(fields, cells, i);
    NextParts(fields, cells, n - 1);
    ImageIs(fields, cells, n - 1);
    NextParts(fields, cells, i);
    ImageIs(fields, cells, i);
    var front, image := FixedUpTo(fields, cells, n - 1), Image(fields, cells, n - 1);
    if i == n - 1 {
      SliceOfAppend(front, image, |front|, |image|);
    } else {
      ImageAt(fields, cells, i, n - 1);
      SliceOfAppend(front, image, fields[i].offset, Length(fields[i]));
    }
  }

  lemma {:induction false} VarPrefix(fields: seq<FieldMeta>, cells: seq<Cell>, i: nat, n: nat)
    requires Row(fields, cells) && i <= n <= |fields|
    ensures VarUpTo(fields, cells, i) <= VarUpTo(fields, cells, n)
    decreases n
  {
    hide *;
    if i < n {
      VarPrefix(fields, cells, i, n - 1);
      NextParts(fields, cells, n - 1);
    }
  }

  /** A block in a record is found, at any place, if its length fits. */
  lemma BlockFound(front: Bytes, data: Bytes, rest: Bytes)
    requires data != [] && |data| < TWO_31
    ensures LocateBlock(front + VarBlock(data) + rest, |front|) == Found(data)
  {
    var header := BlockHeader(|data|);
    var record := front + VarBlock(data) + rest;
    assert record == front + header + (data + rest);
    assert record == (front + header) + data + rest;
    MiddleSlice(front, header, data + rest);
    MiddleSlice(front + header, data, rest);
    assert record[|front|] == header[0];
    hide VarBlock;
    if |data| > 127 {
      LongHeader(record, |front|, data);
    }
  }

  lemma LongHeader(record: Bytes, at: nat, data: Bytes)
    requires 127 < |data| < TWO_31 && at + 4 + |data| <= |record|
    requires record[at..at + 4] == U32Le(|data| * 2) && record[at] == U32Le(|data| * 2)[0]
    requires record[at + 4..at + 4 + |data|] == data
    ensures LocateBlock(record, at) == Found(data)
  {
    hide *;
    DoubleReadBack(|data|);
    EvenBlock(record, at, |data|);
  }

  lemma DoubleReadBack(n: nat)
    requires n < TWO_31
    ensures FromU32Le(U32Le(n * 2)) == n * 2 && U32Le(n * 2)[0] % 2 == 0
  {
    hide U32Le;
    hide FromU32Le;
    U32RoundTrip(n * 2);
    EvenFirst(n * 2);
  }

  lemma EvenBlock(record: Bytes, at: nat, n: nat)
    requires at + 4 + n <= |record| && record[at] % 2 == 0 && FromU32Le(record[at..at + 4]) == n * 2
    ensures LocateBlock(record, at) == Found(record[at + 4..at + 4 + n])
  {
    hide FromU32Le;
  }

  lemma EvenFirst(n: nat)
    requires n % 2 == 0
    ensures U32Le(n)[0] % 2 == 0
  {
    var half := n / 2;
    assert n % 0x100 == 2 * (half - 128 * (n / 0x100));
  }

  /** A pointer to a block leads to it. */
  lemma PointerFound(record: Bytes, at: nat, distance: nat)
    requires at + 4 <= |record| && record[at..at + 4] == Pointer(distance) && distance < TWO_31
    ensures LocateVarData(record, at) == LocateBlock(record, at + distance)
  {
    hide LocateBlock;
    hide Pointer;
    hide FromU32Le;
    PointerValue(distance);
    LocatedThrough(record, at, distance);
  }

  lemma PointerValue(distance: nat)
    requires distance < TWO_31
    ensures FromU32Le(Pointer(distance)) == distance + TWO_31
  {
    hide U32Le;
    hide FromU32Le;
    U32RoundTrip(distance + TWO_31);
  }

  lemma LocatedThrough(record: Bytes, at: nat, distance: nat)
    requires at + 4 <= |record| && distance < TWO_31 && FromU32Le(record[at..at + 4]) == distance + TWO_31
    ensures LocateVarData(record, at) == LocateBlock(record, at + distance)
  {
    hide FromU32Le;
    hide LocateBlock;
  }

  lemma ConstantFound(record: Bytes, at: nat, v: nat)
    requires at + 4 <= |record| && v <= 1 && record[at..at + 4] == U32Le(v)
    ensures LocateVarData(record, at) == if v == 1 then Missing else Found([])
  {
    U32RoundTrip(v);
    hide U32Le;
    hide FromU32Le;
  }

  /** The record around the data of field `i`. */
  lemma DataAt(fields: seq<FieldMeta>, cells: seq<Cell>, i: nat) returns (front: Bytes, rest: Bytes)
    requires Row(fields, cells) && i < |fields| && HasVar(fields)
    ensures RecordOf(fields, cells) == front + OwnData(fields, cells, i) + rest
    ensures |front| == FixedSize(fields) + 4 + |VarUpTo(fields, cells, i)|
  {
    hide *;
    RowAt(fields, cells, i);
    FixedSizeIsExtent(fields);
    RecordIs(fields, cells);
    NextParts(fields, cells, i);
    VarPrefix(fields, cells, i + 1, |fields|);
    FixedAtEnd(fields, cells);
    var fixed, all := FixedUpTo(fields, cells, |fields|), VarUpTo(fields, cells, |fields|);
    var size, before, own := U32Le(|all|), VarUpTo(fields, cells, i), OwnData(fields, cells, i);
    U32Length(|all|);
    rest := all[|before| + |own|..];
    front := fixed + size + before;
    assert all == before + own + rest;
    Regroup(fixed + size, before, own, rest);
  }

  lemma U32Length(n: int)
    ensures |U32Le(n)| == 4
  {
  }

  lemma Regroup(a: Bytes, b: Bytes, c: Bytes, d: Bytes)
    ensures a + (b + c + d) == a + b + c + d
  {
  }

  /** The place of field `i` in the record. */
  lemma PlaceInRecord(fields: seq<FieldMeta>, cells: seq<Cell>, i: nat)
    requires Row(fields, cells) && i < |fields|
    ensures var record, at := RecordOf(fields, cells), fields[i].offset;
      at + Length(fields[i]) <= |record| && record[at..at + Length(fields[i])] == Image(fields, cells, i)
    ensures fields[i].offset + Length(fields[i]) <= FixedSize(fields)
  {
    hide *;
    ImageAt(fields, cells, i, |fields|);
    RecordIs(fields, cells);
    FixedAtEnd(fields, cells);
    var fixed, varData := FixedUpTo(fields, cells, |fields|), VarUpTo(fields, cells, |fields|);
    Assoc(fixed, U32Le(|varData|), varData);
    SliceOfAppend(fixed, U32Le(|varData|) + varData, fields[i].offset, Length(fields[i]));
  }

  /** The pointer of a field leads to its data. */
  lemma PointerReadBack(fields: seq<FieldMeta>, cells: seq<Cell>, i: nat)
    requires Row(fields, cells) && i < |fields| && |RecordOf(fields, cells)| < TWO_31
    requires |cells| == |fields| && Suits(fields[i], cells[i]) && Points(fields[i], cells[i])
    ensures fields[i].offset + 4 <= |RecordOf(fields, cells)|
    ensures LocateVarData(RecordOf(fields, cells), fields[i].offset) == Found(VarData(fields[i], cells[i]).value)
  {
    hide *;
    PointsIsVariable(fields, cells, i);
    PlaceInRecord(fields, cells, i);
    PlaceIs(fields, cells, i);
    ImageIs(fields, cells, i);
    var front, rest := DataAt(fields, cells, i);
    var record, data, at := RecordOf(fields, cells), VarData(fields[i], cells[i]).value, fields[i].offset;
    BlockIsLonger(data);
    PointerFound(record, at, |front| - at);
    BlockFound(front, data, rest);
  }

  /** Null, empty or not: the data of every field of variable length is read back from the record. */
  lemma VarReadBack(fields: seq<FieldMeta>, cells: seq<Cell>, i: nat)
    requires Row(fields, cells) && i < |fields| && IsVariable(fields[i].fieldType)
    requires |RecordOf(fields, cells)| < TWO_31
    ensures |cells| == |fields| && Suits(fields[i], cells[i])
    ensures fields[i].offset + 4 <= |RecordOf(fields, cells)|
    ensures var data := VarData(fields[i], cells[i]);
      LocateVarData(RecordOf(fields, cells), fields[i].offset) == if data == None then Missing else Found(data.value)
  {
    hide *;
    PlaceIs(fields, cells, i);
    if Points(fields[i], cells[i]) {
      PointerReadBack(fields, cells, i);
    } else {
      PlaceInRecord(fields, cells, i);
      FourBytes(fields[i]);
      ConstantFound(RecordOf(fields, cells), fields[i].offset, if VarData(fields[i], cells[i]) == None then 1 else 0);
    }
  }

  lemma PointsIsVariable(fields: seq<FieldMeta>, cells: seq<Cell>, i: nat)
    requires Row(fields, cells) && i < |fields| && |cells| == |fields| && Suits(fields[i], cells[i])
    requires Points(fields[i], cells[i])
    ensures IsVariable(fields[i].fieldType) && HasVar(fields) && Length(fields[i]) == 4
  {
  }

  lemma FourBytes(f: FieldMeta)
    ensures IsVariable(f.fieldType) ==> Length(f) == 4
  {
  }

  lemma BlockIsLonger(data: Bytes)
    ensures |VarBlock(data)| > |data|
  {
  }

  /** The place of a field of variable length. */
  lemma PlaceIs(fields: seq<FieldMeta>, cells: seq<Cell>, i: nat)
    requires Row(fields, cells) && i < |fields| && IsVariable(fields[i].fieldType)
    ensures |cells| == |fields| && Suits(fields[i], cells[i])
    ensures var data := VarData(fields[i], cells[i]);
      && (Points(fields[i], cells[i]) <==> data.Some? && data.value != [])
      && (data == None ==> Image(fields, cells, i) == U32Le(1))
      && (data == Some([]) ==> Image(fields, cells, i) == U32Le(0))
      && (Points(fields[i], cells[i]) ==> OwnData(fields, cells, i) == VarBlock(data.value))
  {
    hide VarData;
    hide U32Le;
    hide VarBlock;
    hide VarUpTo;
    hide FixedSize;
  }

  // -- Every field is read back --

  predicate IsNull(image: Bytes)
    requires image != []
  {
    image[|image| - 1] == 1
  }

  function Payload(image: Bytes): (b: Bytes)
    requires image != []
    ensures |b| == |image| - 1
  {
    image[..|image| - 1]
  }

  /** The bytes before the first pair of zero bytes. */
  function UpToWideNul(b: Bytes): (s: Bytes)
    decreases |b|
  {
    if |b| < 2 || (b[0] == 0 && b[1] == 0) then [] else b[..2] + UpToWideNul(b[2..])
  }

  function TextOf(image: Bytes, lossy: Lossy): Option<Bytes>
    requires image != []
  {
    if IsNull(image) then None else Some(lossy(UpToNul(Payload(image))))
  }

  function IntOf(image: Bytes): Option<int>
    requires image != []
  {
    if IsNull(image) then None else Some(SignedLe(Payload(image)))
  }

  /** The value in the place of a field of fixed length. */
  function FixedValue(t: FieldType, image: Bytes, lossy: Lossy): FieldValue
    requires image != [] && !IsVariable(t) && (t == Byte ==> |image| == 2)
  {
    match t
    case Bool => BoolValue(if image[0] == 2 then None else Some(image[0] == 1))
    case Byte => ByteValue(if IsNull(image) then None else Some(image[0]))
    case Int16 => Int16Value(IntOf(image))
    case Int32 => Int32Value(IntOf(image))
    case Int64 => Int64Value(IntOf(image))
    case Float => FloatValue(if IsNull(image) then None else Some(Payload(image)))
    case Double => DoubleValue(if IsNull(image) then None else Some(Payload(image)))
    case FixedDecimal => DecimalValue(TextOf(image, lossy))
    case String => StringValue(TextOf(image, lossy))
    case WString => StringValue(if IsNull(image) then None else Some(Utf8(DecodedAlone(UpToWideNul(Payload(image))))))
    case Date => DateValue(TextOf(image, lossy))
    case Time => TimeValue(TextOf(image, lossy))
    case DateTime => DateTimeValue(TextOf(image, lossy))
  }

  datatype Extracted = Value(value: FieldValue) | TooShort | Panicked

  function VarValue(t: FieldType, located: Located, lossy: Lossy): Extracted {
    if located == Panic then Panicked
    else
      var data := if located == Missing then None else Some(located.data);
      if t == VString then Value(StringValue(if data == None then None else Some(lossy(data.value))))
      else if t == VWString then Value(StringValue(if data == None then None else Some(Utf8(DecodedAlone(data.value)))))
      else Value(BlobValue(data))
  }

  /** One field of a record. */
  function ExtractField(record: Bytes, f: FieldMeta, lossy: Lossy): Extracted {
    if f.offset + Length(f) > |record| then TooShort
    else if IsVariable(f.fieldType) then VarValue(f.fieldType, LocateVarData(record, f.offset), lossy)
    else Value(FixedValue(f.fieldType, record[f.offset..f.offset + Length(f)], lossy))
  }

  method ExtractAllFields(record: Bytes, fields: seq<FieldMeta>, lossy: Lossy) returns (values: seq<Extracted>)
    ensures |values| <= |fields|
    ensures forall i :: 0 <= i < |values| ==> values[i] == ExtractField(record, fields[i], lossy)
    ensures |values| < |fields| ==> values != [] && !values[|values| - 1].Value?
    ensures forall i :: 0 <= i < |values| - 1 ==> values[i].Value?
  {
    hide ExtractField;
    values := [];
    for i := 0 to |fields|
      invariant |values| == i
      invariant forall k :: 0 <= k < i ==> values[k] == ExtractField(record, fields[k], lossy) && values[k].Value?
    {
      var v := ExtractField(record, fields[i], lossy);
      values := values + [v];
      if !v.Value? {
        return;
      }
    }
  }

  /** Integers are in the range of their field. */
  predicate InRange(f: FieldMeta, c: Cell)
    requires Suits(f, c)
  {
    RecordLayout.IsInteger(f.fieldType) && c.number.Some? ==>
      var p := Power256(Length(f) - 1);
      if f.fieldType == Byte then 0 <= c.number.value < p else -(p as int) <= 2 * c.number.value < p
  }

  /** Well-formed text stays as it is. */
  ghost predicate KeepsText(lossy: Lossy) {
    forall s: Text :: lossy(Utf8(s)) == Utf8(s)
  }

  /**
    * What a reader gets for a cell of a fixed-length field: numbers as they are, text as far as it fits
    * and up to a NUL.
    */
  function CellValue(f: FieldMeta, c: Cell, lossy: Lossy): FieldValue
    requires Suits(f, c) && !IsVariable(f.fieldType)
  {
    var text := FieldText(f, c);
    var kept := if text == None then None else Some(lossy(UpToNul(Fitted(text.value, Length(f) - 1))));
    match f.fieldType
    case Bool => BoolValue(c.flag)
    case Byte => ByteValue(c.number)
    case Int16 => Int16Value(c.number)
    case Int32 => Int32Value(c.number)
    case Int64 => Int64Value(c.number)
    case Float => FloatValue(c.word)
    case Double => DoubleValue(c.word)
    case FixedDecimal => DecimalValue(kept)
    case String => StringValue(kept)
    case WString => StringValue(if text == None then None
      else Some(Utf8(DecodedAlone(UpToWideNul(Fitted(text.value, Length(f) - 1))))))
    case Date => DateValue(kept)
    case Time => TimeValue(kept)
    case DateTime => DateTimeValue(kept)
  }

  lemma FlaggedReadBack(value: Option<Bytes>, width: nat)
    requires value.Some? ==> |value.value| == width
    ensures
      var image := Flagged(value, width);
      IsNull(image) == (value == None) && (value.Some? ==> Payload(image) == value.value)
  {
  }

  lemma NumberReadBack(f: FieldMeta, c: Cell)
    requires Suits(f, c) && RecordLayout.IsInteger(f.fieldType) && InRange(f, c)
    ensures var image := FixedImage(f, c); |image| == Length(f) && IsNull(image) == (c.number == None)
    ensures c.number.Some? && f.fieldType != Byte ==> SignedLe(Payload(FixedImage(f, c))) == c.number.value
    ensures c.number.Some? && f.fieldType == Byte ==> FixedImage(f, c)[0] == c.number.value
  {
    var w := Length(f) - 1;
    FlaggedReadBack(if c.number == None then None else Some(Le(c.number.value, w)), w);
    if c.number.Some? && f.fieldType != Byte {
      SignedReadBack(c.number.value, w);
    }
    hide SignedLe;
    hide Power256;
  }

  lemma TextFieldReadBack(f: FieldMeta, c: Cell)
    requires Suits(f, c) && !IsVariable(f.fieldType) && f.fieldType != Bool && !RecordLayout.IsInteger(f.fieldType)
    requires f.fieldType != Float && f.fieldType != Double
    ensures var image, text := FixedImage(f, c), FieldText(f, c);
      |image| == Length(f) && IsNull(image) == (text == None)
        && (text.Some? ==> Payload(image) == Fitted(text.value, Length(f) - 1))
  {
    hide FieldText;
    hide Fitted;
    var text, w := FieldText(f, c), Length(f) - 1;
    FlaggedReadBack(if text == None then None else Some(Fitted(text.value, w)), w);
    hide Flagged;
  }

  lemma WordReadBack(f: FieldMeta, c: Cell)
    requires Suits(f, c) && (f.fieldType == Float || f.fieldType == Double)
    ensures
      var image := FixedImage(f, c);
      |image| == Length(f) && IsNull(image) == (c.word == None) && (c.word.Some? ==> Payload(image) == c.word.value)
  {
    FlaggedReadBack(c.word, Length(f) - 1);
  }

  /** A field of fixed length gives back the cell's value. */
  lemma FixedReadBack(f: FieldMeta, c: Cell, lossy: Lossy)
    requires Suits(f, c) && !IsVariable(f.fieldType) && InRange(f, c)
    ensures |FixedImage(f, c)| == Length(f)
    ensures FixedValue(f.fieldType, FixedImage(f, c), lossy) == CellValue(f, c, lossy)
  {
    if RecordLayout.IsInteger(f.fieldType) {
      NumberReadBack(f, c);
    } else if f.fieldType == Float || f.fieldType == Double {
      WordReadBack(f, c);
    } else if f.fieldType != Bool {
      TextFieldReadBack(f, c);
      hide FixedImage;
    }
    hide IsNull;
    hide Payload;
    hide SignedLe;
    hide FieldText;
    hide Fitted;
    hide UpToNul;
    hide UpToWideNul;
    hide DecodedAlone;
    hide Utf8;
    hide NumberBytes;
    hide Flagged;
  }

  /** What a reader gets for a cell of any field. */
  function ReadValue(f: FieldMeta, c: Cell, lossy: Lossy): Extracted
    requires Suits(f, c)
  {
    if !IsVariable(f.fieldType) then Value(CellValue(f, c, lossy))
    else
      var data := VarData(f, c);
      VarValue(f.fieldType, if data == None then Missing else Found(data.value), lossy)
  }

  /** Every field of a record gives back the value of its cell. */
  lemma FieldReadBack(fields: seq<FieldMeta>, cells: seq<Cell>, i: nat, lossy: Lossy)
    requires Row(fields, cells) && i < |fields| && |RecordOf(fields, cells)| < TWO_31
    requires |cells| == |fields| && Suits(fields[i], cells[i]) && InRange(fields[i], cells[i])
    ensures ExtractField(RecordOf(fields, cells), fields[i], lossy) == ReadValue(fields[i], cells[i], lossy)
  {
    hide *;
    var record, f := RecordOf(fields, cells), fields[i];
    PlaceInRecord(fields, cells, i);
    if IsVariable(f.fieldType) {
      VarReadBack(fields, cells, i);
    } else {
      PlainImage(fields, cells, i);
      FixedReadBack(f, cells[i], lossy);
    }
    ExtractIs(record, f, lossy);
    ReadValueIs(f, cells[i], lossy);
  }

  lemma PlainImage(fields: seq<FieldMeta>, cells: seq<Cell>, i: nat)
    requires Row(fields, cells) && i < |fields| && !IsVariable(fields[i].fieldType)
    ensures |cells| == |fields| && Suits(fields[i], cells[i])
    ensures Image(fields, cells, i) == FixedImage(fields[i], cells[i])
  {
    hide FixedImage;
    hide FixedSize;
    hide VarUpTo;
  }

  lemma ExtractIs(record: Bytes, f: FieldMeta, lossy: Lossy)
    requires f.offset + Length(f) <= |record|
    ensures IsVariable(f.fieldType) ==> Length(f) == 4
    ensures IsVariable(f.fieldType)
      ==> ExtractField(record, f, lossy) == VarValue(f.fieldType, LocateVarData(record, f.offset), lossy)
    ensures !IsVariable(f.fieldType) ==> (
      ExtractField(record, f, lossy)
      == Value(FixedValue(f.fieldType, record[f.offset..f.offset + Length(f)], lossy)))
  {
    hide FixedValue;
    hide VarValue;
    hide LocateVarData;
  }

  lemma ReadValueIs(f: FieldMeta, c: Cell, lossy: Lossy)
    requires Suits(f, c)
    ensures !IsVariable(f.fieldType) ==> ReadValue(f, c, lossy) == Value(CellValue(f, c, lossy))
    ensures IsVariable(f.fieldType) ==>
      ReadValue(f, c, lossy)
        == VarValue(f.fieldType, if VarData(f, c) == None then Missing else Found(VarData(f, c).value), lossy)
  {
    hide CellValue;
    hide VarValue;
    hide VarData;
  }

  // -- Text and binary data of variable length come back unchanged --

  lemma WideTextSurvives(s: Text)
    ensures DecodedAlone(Utf16Le(s)) == s
    decreases |s|
  {
    if s != [] {
      var first, rest := Utf16LeOne(s[0]), Utf16Le(s[1..]);
      FirstReadBack(s[0], rest);
      assert Drop(first + rest, |first|) == rest;
      hide TakeOne;
      WideTextSurvives(s[1..]);
    }
  }

  lemma VariableCellsSurvive(f: FieldMeta, c: Cell, lossy: Lossy)
    requires Suits(f, c) && IsVariable(f.fieldType) && KeepsText(lossy)
    ensures c.TextCell?
      ==> ReadValue(f, c, lossy) == Value(StringValue(if c.text == None then None else Some(Utf8(c.text.value))))
    ensures c.BinaryCell? ==> ReadValue(f, c, lossy) == Value(BlobValue(c.data))
  {
    hide Utf8;
    hide Utf16Le;
    hide DecodedAlone;
    hide CellValue;
    if c.TextCell? && c.text.Some? {
      WideTextSurvives(c.text.value);
    }
  }

  lemma StringValueIs(f: FieldMeta, c: Cell, lossy: Lossy)
    requires f.fieldType == String && Suits(f, c) && c.TextCell? && c.text.Some?
    ensures ReadValue(f, c, lossy) == Value(StringValue(Some(lossy(UpToNul(Fitted(Utf8(c.text.value), f.size))))))
  {
    hide Fitted;
    hide Utf8;
    hide UpToNul;
    hide UpToWideNul;
    hide DecodedAlone;
  }

  // -- Records of a schema are records for the scanner --

  function FormatOf(fields: seq<FieldMeta>): RecordScan.Format {
    RecordScan.Format(FixedSize(fields), HasVar(fields))
  }

  lemma FormatValid(fields: seq<FieldMeta>)
    requires fields != [] && LaidOut(fields)
    ensures RecordScan.Valid(FormatOf(fields))
  {
  }

  lemma RecordsAreWellFormed(fields: seq<FieldMeta>, cells: seq<Cell>)
    requires fields != [] && LaidOut(fields) && Row(fields, cells) && |VarUpTo(fields, cells, |fields|)| < TWO_32
    ensures RecordScan.Valid(FormatOf(fields)) && RecordScan.WellFormed(FormatOf(fields), RecordOf(fields, cells))
  {
    hide *;
    FormatValid(fields);
    FixedAtEnd(fields, cells);
    RecordIs(fields, cells);
    FormatIs(fields);
    AssembledIsWellFormed(FormatOf(fields), FixedUpTo(fields, cells, |fields|), VarUpTo(fields, cells, |fields|));
  }

  lemma FormatIs(fields: seq<FieldMeta>)
    ensures FormatOf(fields).fixedSize == FixedSize(fields) && FormatOf(fields).hasVar == HasVar(fields)
  {
  }

  lemma AssembledIsWellFormed(format: RecordScan.Format, fixed: Bytes, varData: Bytes)
    requires RecordScan.Valid(format) && |fixed| == format.fixedSize && |varData| < TWO_32
    ensures RecordScan.WellFormed(format, if format.hasVar then fixed + U32Le(|varData|) + varData else fixed)
  {
    U32RoundTrip(|varData|);
    MiddleSlice(fixed, U32Le(|varData|), varData);
    hide U32Le;
    hide FromU32Le;
  }
}
