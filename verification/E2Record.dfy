// Decoding one field of a compact (E2) record: every type starts with a prefix byte that says
// whether the field is null, how many bytes follow and where large values are kept.

module E2Record {
  import opened Bytes
  import opened Digits
  import opened Fields
  import opened Calendar
  import opened LittleEndian

  datatype DecodeError = UnexpectedEof | InvalidDateFlag(flag: byte) | InvalidPrefix(prefix: byte)

  /** A value and the position behind its last byte. */
  datatype Decoded = Ok(value: FieldValue, end: nat) | Err(error: DecodeError)

  /** Stands for "the whole block" in a blob reference. */
  const WHOLE_BLOCK: nat := 0xFFFF_FFFF_FFFF_FFFF

  const OLE_EPOCH_OFFSET: int := 25569

  const NULL_STRING: byte := 0x41
  const NULL_BOOL: byte := 0x43
  const NULL_SPATIAL: byte := 0x43
  const NULL_INT16: byte := 0x45
  const NULL_BYTE: byte := 0x47
  const NULL_DOUBLE: byte := 0x48
  const NULL_INT32: byte := 0x49
  const NULL_INT64: byte := 0x4A
  const NULL_FLOAT: byte := 0x4B
  const NULL_DOUBLE_ALT: byte := 0x4C
  const NULL_FIXED_DECIMAL: byte := 0x4C
  const NULL_DATE: byte := 0x4D
  const NULL_DATETIME: byte := 0x4E
  const NULL_TIME: byte := 0x4F

  datatype IntTarget = AsByte | AsInt16 | AsInt32 | AsInt64

  function Width(t: IntTarget): nat {
    match t
    case AsByte => 1
    case AsInt16 => 2
    case AsInt32 => 4
    case AsInt64 => 8
  }

  function NullOf(t: IntTarget): byte {
    match t
    case AsByte => NULL_BYTE
    case AsInt16 => NULL_INT16
    case AsInt32 => NULL_INT32
    case AsInt64 => NULL_INT64
  }

  function IntValue(t: IntTarget, v: Option<int>): FieldValue {
    match t
    case AsByte => ByteValue(v)
    case AsInt16 => Int16Value(v)
    case AsInt32 => Int32Value(v)
    case AsInt64 => Int64Value(v)
  }

  /**
    * The bytes filled up with zeros to the width of the target, read as a two's complement number; bytes
    * are unsigned.
    */
  function ToTarget(t: IntTarget, b: Bytes): int {
    var v := FromLe(b);
    if t != AsByte && |b| == Width(t) && b[|b| - 1] >= 0x80 then v - Power256(|b|) else v
  }

  function DecodeBool(data: Bytes, pos: nat): Decoded
    requires pos < |data|
  {
    var b := data[pos];
    if b == 0x14 then Ok(BoolValue(Some(false)), pos + 1)
    else if b == 0x15 then Ok(BoolValue(Some(true)), pos + 1)
    else if b == NULL_BOOL then Ok(BoolValue(None), pos + 1)
    else Err(InvalidPrefix(b))
  }

  function DecodeCompactInt(data: Bytes, pos: nat, base: nat, t: IntTarget): Decoded
    requires pos < |data|
  {
    var prefix := data[pos];
    if prefix == NullOf(t) then Ok(IntValue(t, None), pos + 1)
    else if prefix < base || prefix - base > Width(t) then Err(InvalidPrefix(prefix))
    else
      var end := pos + 1 + (prefix - base);
      if prefix == base then Ok(IntValue(t, Some(0)), pos + 1)
      else if end > |data| then Err(UnexpectedEof)
      else Ok(IntValue(t, Some(ToTarget(t, data[pos + 1..end]))), end)
  }

  function DecodeFloat(data: Bytes, pos: nat): Decoded
    requires pos < |data|
  {
    var prefix := data[pos];
    if prefix == NULL_FLOAT then Ok(FloatValue(None), pos + 1)
    else if prefix < 0x07 then Err(InvalidPrefix(prefix))
    else if prefix == 0x07 then Ok(FloatValue(Some(Zeros(4))), pos + 1)
    else
      var n := prefix - 0x07;
      var end := pos + 1 + n;
      if n > 4 then Err(InvalidPrefix(prefix))
      else if end > |data| then Err(UnexpectedEof)
      else Ok(FloatValue(Some(data[pos + 1..end] + Zeros(4 - n))), end)
  }

  function DecodeDouble(data: Bytes, pos: nat): Decoded
    requires pos < |data|
  {
    var prefix := data[pos];
    if prefix == NULL_DOUBLE || prefix == NULL_DOUBLE_ALT then Ok(DoubleValue(None), pos + 1)
    else if prefix < 0x06 then Err(InvalidPrefix(prefix))
    else if prefix == 0x06 then Ok(DoubleValue(Some(Zeros(8))), pos + 1)
    else
      var n := prefix - 0x04;
      var end := pos + 1 + n;
      if n > 8 then Err(InvalidPrefix(prefix))
      else if end > |data| then Err(UnexpectedEof)
      else Ok(DoubleValue(Some(data[pos + 1..end] + Zeros(8 - n))), end)
  }

  /** Bytes with their length: one byte 0x80 + length. */
  function ShortSpan(data: Bytes, pos: nat): Option<nat>
    requires pos < |data| && data[pos] >= 0x80
  {
    var end := pos + 1 + (data[pos] - 0x80);
    if end > |data| then None else Some(end)
  }

  /** Bytes behind a prefix and a 16-bit length. */
  function LongSpan(data: Bytes, pos: nat): Option<nat>
    requires pos < |data|
  {
    if pos + 3 > |data| then None
    else
      var end := pos + 3 + (data[pos + 1] as int) + 0x100 * (data[pos + 2] as int);
      if end > |data| then None else Some(end)
  }

  /** Reference by offset and length into the last blob block. */
  function SliceRef(data: Bytes, pos: nat): Decoded
    requires pos < |data|
  {
    if pos + 9 > |data| then Err(UnexpectedEof)
    else Ok(BlobRef(FromU32Le(data[pos + 1..pos + 5]), FromU32Le(data[pos + 5..pos + 9])), pos + 9)
  }

  /** Reference to a whole blob block by its file offset. */
  function BlockRef(data: Bytes, pos: nat): Decoded
    requires pos < |data|
  {
    if pos + 9 > |data| then Err(UnexpectedEof)
    else Ok(BlobRef(FromU64Le(data[pos + 1..pos + 9]), WHOLE_BLOCK), pos + 9)
  }

  function DecodeString(data: Bytes, pos: nat, lossy: Lossy): Decoded
    requires pos < |data|
  {
    var prefix := data[pos];
    if prefix == 0x00 || prefix == NULL_STRING then Ok(StringValue(None), pos + 1)
    else if prefix >= 0x80 then
      var end := ShortSpan(data, pos);
      if end == None then Err(UnexpectedEof) else Ok(StringValue(Some(lossy(data[pos + 1..end.value]))), end.value)
    else if prefix == 0x01 then
      var end := LongSpan(data, pos);
      if end == None then Err(UnexpectedEof) else Ok(StringValue(Some(lossy(data[pos + 3..end.value]))), end.value)
    else if prefix == 0x11 then SliceRef(data, pos)
    else Err(InvalidPrefix(prefix))
  }

  function DecodeBlob(data: Bytes, pos: nat): Decoded
    requires pos < |data|
  {
    var prefix := data[pos];
    if prefix == 0x00 || prefix == NULL_STRING then Ok(BlobValue(None), pos + 1)
    else if prefix >= 0x80 then
      var end := ShortSpan(data, pos);
      if end == None then Err(UnexpectedEof) else Ok(BlobValue(Some(data[pos + 1..end.value])), end.value)
    else if prefix == 0x01 || prefix == 0x02 then
      var end := LongSpan(data, pos);
      if end == None then Err(UnexpectedEof) else Ok(BlobValue(Some(data[pos + 3..end.value])), end.value)
    else if prefix == 0x11 then SliceRef(data, pos)
    else if prefix == 0x12 then BlockRef(data, pos)
    else Err(InvalidPrefix(prefix))
  }

  function DecodeSpatial(data: Bytes, pos: nat): Decoded
    requires pos < |data|
  {
    var prefix := data[pos];
    if prefix == 0x00 || prefix == NULL_SPATIAL then Ok(BlobValue(None), pos + 1)
    else if prefix >= 0x80 then
      var end := ShortSpan(data, pos);
      if end == None then Err(UnexpectedEof) else Ok(BlobValue(Some(data[pos + 1..end.value])), end.value)
    else if prefix == 0x03 then
      var end := LongSpan(data, pos);
      if end == None then Err(UnexpectedEof) else Ok(BlobValue(Some(data[pos + 3..end.value])), end.value)
    else if prefix == 0x13 then BlockRef(data, pos)
    else Err(InvalidPrefix(prefix))
  }

  // -- Packed decimals --

  function Nibble(packed: Bytes, i: nat): int
    requires i / 2 < |packed|
  {
    if i % 2 == 0 then packed[i / 2] / 16 else packed[i / 2] % 16
  }

  /** The first nibble among the first `n` that is no decimal digit, or the digits. */
  datatype Unpacked = Digits(text: Bytes) | BadNibble(nibble: byte)

  function Unpack(packed: Bytes, n: nat): (u: Unpacked)
    requires n <= 2 * |packed|
    ensures u.Digits? ==> |u.text| == n && AllDigits(u.text)
  {
    if n == 0 then Digits([])
    else
      var u := Unpack(packed, n - 1);
      var nibble := Nibble(packed, n - 1);
      if u.BadNibble? then u else if nibble > 9 then BadNibble(nibble) else Digits(u.text + [DigitOf(nibble)])
  }

  method UnpackDigits(packed: Bytes, n: nat) returns (u: Unpacked)
    requires n <= 2 * |packed|
    ensures u == Unpack(packed, n)
  {
    var text: Bytes := [];
    var i := 0;
    while i < n
      invariant 0 <= i <= n && Unpack(packed, i) == Digits(text)
    {
      var nibble := Nibble(packed, i);
      if nibble > 9 {
        BadNibbleStays(packed, i + 1, n);
        return BadNibble(nibble);
      }
      text := text + [DigitOf(nibble)];
      i := i + 1;
    }
    u := Digits(text);
  }

  lemma {:induction false} BadNibbleStays(packed: Bytes, i: nat, n: nat)
    requires i <= n <= 2 * |packed| && Unpack(packed, i).BadNibble?
    ensures Unpack(packed, n) == Unpack(packed, i)
    decreases n
  {
    if i < n {
      BadNibbleStays(packed, i, n - 1);
    }
  }

  function TrimZeros(s: Bytes): (t: Bytes)
    ensures |t| <= |s|
  {
    if s != [] && s[0] == ASCII_ZERO then TrimZeros(s[1..]) else s
  }

  /** Decimal text of the digits, with `scale` of them behind the point. */
  function DecimalText(digits: Bytes, scale: nat, negative: bool): Bytes {
    var significant := TrimZeros(digits);
    var whole := if significant == [] then [ASCII_ZERO] else significant;
    var filled := if scale > 0 && |whole| <= scale then Repeat(ASCII_ZERO, scale + 1 - |whole|) + whole else whole;
    var pointed := if scale > 0 then filled[..|filled| - scale] + [ASCII_DOT] + filled[|filled| - scale..] else filled;
    if negative && pointed != [ASCII_ZERO] then [ASCII_MINUS] + pointed else pointed
  }

  function DecodeFixedDecimal(data: Bytes, pos: nat): Decoded
    requires pos < |data|
  {
    var prefix := data[pos];
    if prefix == 0x00 || prefix == NULL_FIXED_DECIMAL then Ok(DecimalValue(None), pos + 1)
    else if prefix != 0x04 || pos + 3 > |data| then Err(InvalidPrefix(prefix))
    else
      var digits, signScale := data[pos + 1] as int, data[pos + 2];
      var end := pos + 3 + (digits / 2 + 1);
      if end > |data| then Err(UnexpectedEof)
      else
        var u := Unpack(data[pos + 3..end], digits + 1);
        if u.BadNibble? then Err(InvalidPrefix(u.nibble))
        else Ok(DecimalValue(Some(DecimalText(u.text, signScale % 128, signScale >= 128))), end)
  }

  // -- Dates and times --

  function DaySerialText(serial: int): Bytes {
    DateText(DaysToCivil32(Wrap32(serial - OLE_EPOCH_OFFSET)))
  }

  function DecodeDate(data: Bytes, pos: nat): Decoded
    requires pos < |data|
  {
    var prefix := data[pos];
    if prefix == NULL_DATE then Ok(DateValue(None), pos + 1)
    else if prefix < 0x0A then Err(InvalidPrefix(prefix))
    else
      var end := pos + 1 + (prefix - 0x0A);
      if prefix == 0x0A then Ok(DateValue(Some(DaySerialText(0))), pos + 1)
      else if prefix - 0x0A > 4 then Err(InvalidPrefix(prefix))
      else if end > |data| then Err(UnexpectedEof)
      else Ok(DateValue(Some(DaySerialText(FromLe(data[pos + 1..end])))), end)
  }

  /** The low 24 bits count hundredths of a second, the next 24 bits days. */
  function PackedDateTimeText(raw: nat): Bytes {
    DaySerialText(raw / 0x100_0000 % 0x100_0000) + [SPACE] + TimeText(raw % 0x100_0000 / 100)
  }

  function DecodeDateTime(data: Bytes, pos: nat): Decoded
    requires pos < |data|
  {
    var prefix := data[pos];
    if prefix == NULL_DATETIME then Ok(DateTimeValue(None), pos + 1)
    else if prefix < 0x08 then Err(InvalidPrefix(prefix))
    else
      var end := pos + 1 + (prefix - 0x08);
      if prefix == 0x08 then Ok(DateTimeValue(Some(PackedDateTimeText(0))), pos + 1)
      else if prefix - 0x08 > 6 then Err(InvalidPrefix(prefix))
      else if end > |data| then Err(UnexpectedEof)
      else Ok(DateTimeValue(Some(PackedDateTimeText(FromLe(data[pos + 1..end])))), end)
  }

  function DecodeTime(data: Bytes, pos: nat): Decoded
    requires pos < |data|
  {
    var prefix := data[pos];
    if prefix == NULL_TIME then Ok(TimeValue(None), pos + 1)
    else if prefix < 0x0C then Err(InvalidPrefix(prefix))
    else
      var end := pos + 1 + (prefix - 0x0C);
      if prefix == 0x0C then Ok(TimeValue(Some(TimeText(0))), pos + 1)
      else if prefix - 0x0C > 4 then Err(InvalidPrefix(prefix))
      else if end > |data| then Err(UnexpectedEof)
      else Ok(TimeValue(Some(TimeText(FromLe(data[pos + 1..end]) / 100))), end)
  }

  // -- Dispatch --

  function DecodeAt(data: Bytes, pos: nat, t: FieldType, base: nat, lossy: Lossy): (r: Decoded)
    requires pos < |data|
  {
    match t
    case Bool => DecodeBool(data, pos)
    case Byte => DecodeCompactInt(data, pos, 6, AsByte)
    case Int16 => DecodeCompactInt(data, pos, 6, AsInt16)
    case Int32 => DecodeCompactInt(data, pos, base, AsInt32)
    case Int64 => DecodeCompactInt(data, pos, 6, AsInt64)
    case Float => DecodeFloat(data, pos)
    case Double => DecodeDouble(data, pos)
    case FixedDecimal => DecodeFixedDecimal(data, pos)
    case String => DecodeString(data, pos, lossy)
    case WString => DecodeString(data, pos, lossy)
    case VString => DecodeString(data, pos, lossy)
    case VWString => DecodeString(data, pos, lossy)
    case Date => DecodeDate(data, pos)
    case DateTime => DecodeDateTime(data, pos)
    case Time => DecodeTime(data, pos)
    case Blob => DecodeBlob(data, pos)
    case SpatialObj => DecodeSpatial(data, pos)
  }

  /** Decode one field; `flagged` says that a zero byte stands before it (the first date of some files). */
  function DecodeField(data: Bytes, offset: nat, t: FieldType, flagged: bool, base: nat, lossy: Lossy): (r: Decoded)
    ensures r.Ok? ==> offset < r.end <= |data|
  {
    if offset >= |data| then Err(UnexpectedEof)
    else if !flagged then DecodeAtWithin(data, offset, t, base, lossy); DecodeAt(data, offset, t, base, lossy)
    else if data[offset] != 0x00 then Err(InvalidDateFlag(data[offset]))
    else if offset + 1 >= |data| then Err(UnexpectedEof)
    else DecodeAtWithin(data, offset + 1, t, base, lossy); DecodeAt(data, offset + 1, t, base, lossy)
  }

  lemma DecodeAtWithin(data: Bytes, pos: nat, t: FieldType, base: nat, lossy: Lossy)
    requires pos < |data|
    ensures var r := DecodeAt(data, pos, t, base, lossy); r.Ok? ==> pos < r.end <= |data|
  {
  }
}
