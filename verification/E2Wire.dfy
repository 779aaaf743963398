// The wire forms of compact fields: what the bytes of a field look like for a value, and that the
// decoder reads every form as its value.

module E2Wire {
  import opened Bytes
  import opened LittleEndian
  import opened Digits
  import opened Fields
  import opened Calendar
  import opened E2Record

  /**
    * A way to store a value. Numbers say how many bytes they take; floating-point numbers and
    * bytes are held as they are; `prefix` is the marker of a long form.
    */
  datatype Form =
    | NullForm(marker: byte)
    | BoolForm(flag: bool)
    | IntForm(number: int, size: nat)
    | WordForm(word: Bytes, size: nat)
    | ShortForm(data: Bytes)
    | LongForm(prefix: byte, data: Bytes)
    | SliceForm(offset: nat, length: nat)
    | BlockForm(prefix: byte, offset: nat)
    | SerialForm(serial: nat, size: nat)
    | DecimalForm(digits: seq<nat>, scale: nat, negative: bool)

  predicate IsText(t: FieldType) {
    t == String || t == WString || t == VString || t == VWString
  }

  predicate IsNumber(t: FieldType) {
    t == Byte || t == Int16 || t == Int32 || t == Int64
  }

  function Target(t: FieldType): IntTarget
    requires IsNumber(t)
  {
    if t == Byte then AsByte else if t == Int16 then AsInt16 else if t == Int32 then AsInt32 else AsInt64
  }

  /** Markers that stand for null. */
  predicate NullMarker(t: FieldType, m: byte) {
    match t
    case Bool => m == NULL_BOOL
    case Byte => m == NULL_BYTE
    case Int16 => m == NULL_INT16
    case Int32 => m == NULL_INT32
    case Int64 => m == NULL_INT64
    case Float => m == NULL_FLOAT
    case Double => m == NULL_DOUBLE || m == NULL_DOUBLE_ALT
    case FixedDecimal => m == 0 || m == NULL_FIXED_DECIMAL
    case String => m == 0 || m == NULL_STRING
    case WString => m == 0 || m == NULL_STRING
    case VString => m == 0 || m == NULL_STRING
    case VWString => m == 0 || m == NULL_STRING
    case Date => m == NULL_DATE
    case Time => m == NULL_TIME
    case DateTime => m == NULL_DATETIME
    case Blob => m == 0 || m == NULL_STRING
    case SpatialObj => m == 0 || m == NULL_SPATIAL
  }

  /** A number is stored in full width as a two's complement number, in less as an unsigned one. */
  predicate FitsIn(t: IntTarget, v: int, size: nat) {
    size <= Width(t) &&
    if size == Width(t) && t != AsByte then -(Power256(size) as int) <= 2 * v < Power256(size)
    else 0 <= v < Power256(size)
  }

  predicate LongPrefix(t: FieldType, prefix: byte) {
    if IsText(t) then prefix == 0x01
    else if t == Blob then prefix == 0x01 || prefix == 0x02 else t == SpatialObj && prefix == 0x03
  }

  /** Bytes that dates and times can take at most, and their first prefix. */
  function SerialBase(t: FieldType): byte {
    if t == FieldType.Date then 0x0A else if t == DateTime then 0x08 else 0x0C
  }

  function SerialWidth(t: FieldType): nat {
    if t == DateTime then 6 else 4
  }

  predicate Suits(t: FieldType, f: Form) {
    match f
    case NullForm(m) => NullMarker(t, m)
    case BoolForm(_) => t == Bool
    case IntForm(v, n) => IsNumber(t) && FitsIn(Target(t), v, n)
    case WordForm(w, n) =>
      || (t == Float && |w| == 4 && n <= 4 && w[n..] == Zeros(4 - n))
      || (t == Double && |w| == 8 && (n == 0 || 3 <= n <= 8) && w[n..] == Zeros(8 - n))
    case ShortForm(data) => (IsText(t) || t == Blob || t == SpatialObj) && |data| <= 127
    case LongForm(prefix, data) => LongPrefix(t, prefix) && |data| < 0x1_0000
    case SliceForm(o, n) => (IsText(t) || t == Blob) && o < TWO_32 && n < TWO_32
    case BlockForm(prefix, o) => ((t == Blob && prefix == 0x12) || (t == SpatialObj && prefix == 0x13))
      && o < TWO_32 * TWO_32
    case SerialForm(v, n) => (t == FieldType.Date || t == DateTime || t == Time) && n <= SerialWidth(t)
      && v < Power256(n)
    case DecimalForm(digits, scale, _) =>
      t == FixedDecimal && 1 <= |digits| <= 256 && scale < 128 && forall i :: 0 <= i < |digits| ==> digits[i] < 10
  }

  /** Two digits a byte, the first one in the upper half. */
  function Packed(digits: seq<nat>): (b: Bytes)
    requires forall i :: 0 <= i < |digits| ==> digits[i] < 10
    ensures |b| == (|digits| + 1) / 2
  {
    if digits == [] then []
    else if |digits| == 1 then [digits[0] * 16]
    else [digits[0] * 16 + digits[1]] + Packed(digits[2..])
  }

  function Text(digits: seq<nat>): (s: Bytes)
    requires forall i :: 0 <= i < |digits| ==> digits[i] < 10
    ensures |s| == |digits| && AllDigits(s)
  {
    seq(|digits|, i requires 0 <= i < |digits| => DigitOf(digits[i]))
  }

  function Encoded(t: FieldType, f: Form, base: nat): Bytes
    requires Suits(t, f) && (base == 5 || base == 6)
  {
    match f
    case NullForm(m) => [m]
    case BoolForm(b) => [if b then 0x15 else 0x14]
    case IntForm(v, n) => [(if t == Int32 then base else 6) + n] + Le(v, n)
    case WordForm(w, n) => [(if t == Float then 7 + n else if n == 0 then 6 else 4 + n)] + w[..n]
    case ShortForm(data) => [0x80 + |data|] + data
    case LongForm(prefix, data) => [prefix] + Le(|data|, 2) + data
    case SliceForm(o, n) => [0x11] + U32Le(o) + U32Le(n)
    case BlockForm(prefix, o) => [prefix] + U64Le(o)
    case SerialForm(v, n) => [SerialBase(t) as int + n] + Le(v, n)
    case DecimalForm(digits, scale, negative) =>
      [0x04, |digits| - 1, scale + if negative then 0x80 else 0] + Packed(digits)
  }

  /** The null value of a type. */
  function NullValue(t: FieldType): FieldValue {
    if t == Bool then BoolValue(None)
    else if IsNumber(t) then IntValue(Target(t), None)
    else if t == Float then FloatValue(None)
    else if t == Double then DoubleValue(None)
    else if t == FixedDecimal then DecimalValue(None)
    else if IsText(t) then StringValue(None)
    else if t == FieldType.Date then DateValue(None)
    else if t == Time then TimeValue(None)
    else if t == DateTime then DateTimeValue(None)
    else BlobValue(None)
  }

  /** The value that a form stands for. */
  function Meaning(t: FieldType, f: Form, lossy: Lossy): FieldValue
    requires Suits(t, f)
  {
    match f
    case NullForm(_) => NullValue(t)
    case BoolForm(b) => BoolValue(Some(b))
    case IntForm(v, _) => IntValue(Target(t), Some(v))
    case WordForm(w, _) => if t == Float then FloatValue(Some(w)) else DoubleValue(Some(w))
    case ShortForm(data) => if IsText(t) then StringValue(Some(lossy(data))) else BlobValue(Some(data))
    case LongForm(_, data) => if IsText(t) then StringValue(Some(lossy(data))) else BlobValue(Some(data))
    case SliceForm(o, n) => BlobRef(o, n)
    case BlockForm(_, o) => BlobRef(o, WHOLE_BLOCK)
    case SerialForm(v, _) =>
      if t == FieldType.Date then DateValue(Some(DaySerialText(v)))
      else if t == DateTime then DateTimeValue(Some(PackedDateTimeText(v)))
      else TimeValue(Some(TimeText(v / 100)))
    case DecimalForm(digits, scale, negative) => DecimalValue(Some(DecimalText(Text(digits), scale, negative)))
  }

  /** The decoder reads the form at `pos` and stops behind it. */
  predicate Reads(data: Bytes, pos: nat, t: FieldType, f: Form, base: nat, lossy: Lossy)
    requires Suits(t, f) && (base == 5 || base == 6)
  {
    pos < |data| && DecodeAt(data, pos, t, base, lossy) == Ok(Meaning(t, f, lossy), pos + |Encoded(t, f, base)|)
  }

  // -- The decoder reads every form --

  /** `part` stands in `data` at `pos`. */
  predicate StandsAt(data: Bytes, pos: nat, part: Bytes) {
    pos + |part| <= |data| && data[pos..pos + |part|] == part
  }

  lemma PartAt(data: Bytes, pos: nat, part: Bytes, i: nat, j: nat)
    requires StandsAt(data, pos, part) && i <= j <= |part|
    ensures data[pos + i..pos + j] == part[i..j]
    ensures i < j ==> data[pos + i] == part[i]
  {
    var whole := data[pos..pos + |part|];
    assert |whole[i..j]| == |data[pos + i..pos + j]|;
    assert forall k :: 0 <= k < j - i ==> whole[i..j][k] == data[pos + i..pos + j][k];
  }

  lemma PrefixAt(data: Bytes, pos: nat, part: Bytes)
    requires StandsAt(data, pos, part) && part != []
    ensures pos < |data| && data[pos] == part[0] && data[pos + 1..pos + |part|] == part[1..]
  {
    PartAt(data, pos, part, 0, 1);
    PartAt(data, pos, part, 1, |part|);
  }

  /** The decoder that a type is dispatched to. */
  lemma Dispatch(data: Bytes, pos: nat, t: FieldType, base: nat, lossy: Lossy)
    requires pos < |data|
    ensures IsNumber(t)
      ==> DecodeAt(data, pos, t, base, lossy) == DecodeCompactInt(data, pos, if t == Int32 then base else 6, Target(t))
    ensures IsText(t) ==> DecodeAt(data, pos, t, base, lossy) == DecodeString(data, pos, lossy)
    ensures t == Blob ==> DecodeAt(data, pos, t, base, lossy) == DecodeBlob(data, pos)
    ensures t == SpatialObj ==> DecodeAt(data, pos, t, base, lossy) == DecodeSpatial(data, pos)
  {
    hide DecodeCompactInt;
    hide DecodeString;
    hide DecodeBlob;
    hide DecodeSpatial;
    hide DecodeBool;
    hide DecodeFloat;
    hide DecodeDouble;
    hide DecodeFixedDecimal;
    hide DecodeDate;
    hide DecodeDateTime;
    hide DecodeTime;
  }

  lemma DispatchWords(data: Bytes, pos: nat, t: FieldType, base: nat, lossy: Lossy)
    requires pos < |data|
    ensures t == Bool ==> DecodeAt(data, pos, t, base, lossy) == DecodeBool(data, pos)
    ensures t == Float ==> DecodeAt(data, pos, t, base, lossy) == DecodeFloat(data, pos)
    ensures t == Double ==> DecodeAt(data, pos, t, base, lossy) == DecodeDouble(data, pos)
    ensures t == FixedDecimal ==> DecodeAt(data, pos, t, base, lossy) == DecodeFixedDecimal(data, pos)
    ensures t == FieldType.Date ==> DecodeAt(data, pos, t, base, lossy) == DecodeDate(data, pos)
    ensures t == DateTime ==> DecodeAt(data, pos, t, base, lossy) == DecodeDateTime(data, pos)
    ensures t == Time ==> DecodeAt(data, pos, t, base, lossy) == DecodeTime(data, pos)
  {
    hide DecodeCompactInt;
    hide DecodeString;
    hide DecodeBlob;
    hide DecodeSpatial;
    hide DecodeBool;
    hide DecodeFloat;
    hide DecodeDouble;
    hide DecodeFixedDecimal;
    hide DecodeDate;
    hide DecodeDateTime;
    hide DecodeTime;
  }

  lemma NullNumber(data: Bytes, pos: nat, t: IntTarget, base: nat)
    requires pos < |data| && data[pos] == NullOf(t)
    ensures DecodeCompactInt(data, pos, base, t) == Ok(IntValue(t, None), pos + 1)
  {
  }

  lemma NullTimes(data: Bytes, pos: nat)
    requires pos < |data|
    ensures data[pos] == NULL_DATE ==> DecodeDate(data, pos) == Ok(DateValue(None), pos + 1)
    ensures data[pos] == NULL_TIME ==> DecodeTime(data, pos) == Ok(TimeValue(None), pos + 1)
    ensures data[pos] == NULL_DATETIME ==> DecodeDateTime(data, pos) == Ok(DateTimeValue(None), pos + 1)
  {
    hide DaySerialText;
    hide PackedDateTimeText;
    hide TimeText;
    hide FromLe;
  }

  lemma NullWords(data: Bytes, pos: nat)
    requires pos < |data|
    ensures data[pos] == NULL_BOOL ==> DecodeBool(data, pos) == Ok(BoolValue(None), pos + 1)
    ensures data[pos] == NULL_FLOAT ==> DecodeFloat(data, pos) == Ok(FloatValue(None), pos + 1)
    ensures data[pos] == NULL_DOUBLE || data[pos] == NULL_DOUBLE_ALT
      ==> DecodeDouble(data, pos) == Ok(DoubleValue(None), pos + 1)
    ensures data[pos] == 0 || data[pos] == NULL_FIXED_DECIMAL
      ==> DecodeFixedDecimal(data, pos) == Ok(DecimalValue(None), pos + 1)
  {
    hide Zeros;
    hide Unpack;
    hide DecimalText;
  }

  lemma NullData(data: Bytes, pos: nat, lossy: Lossy)
    requires pos < |data|
    ensures data[pos] == 0 || data[pos] == NULL_STRING
      ==> DecodeString(data, pos, lossy) == Ok(StringValue(None), pos + 1)
    ensures data[pos] == 0 || data[pos] == NULL_STRING ==> DecodeBlob(data, pos) == Ok(BlobValue(None), pos + 1)
    ensures data[pos] == 0 || data[pos] == NULL_SPATIAL ==> DecodeSpatial(data, pos) == Ok(BlobValue(None), pos + 1)
  {
    hide ShortSpan;
    hide LongSpan;
    hide SliceRef;
    hide BlockRef;
  }

  lemma NullDecodes(data: Bytes, pos: nat, t: FieldType, base: nat, lossy: Lossy)
    requires pos < |data| && NullMarker(t, data[pos])
    ensures DecodeAt(data, pos, t, base, lossy) == Ok(NullValue(t), pos + 1)
  {
    hide DecodeAt;
    hide DecodeBool;
    hide DecodeCompactInt;
    hide DecodeFloat;
    hide DecodeDouble;
    hide DecodeFixedDecimal;
    hide DecodeString;
    hide DecodeDate;
    hide DecodeDateTime;
    hide DecodeTime;
    hide DecodeBlob;
    hide DecodeSpatial;
    hide IntValue;
    if IsNumber(t) {
      Dispatch(data, pos, t, base, lossy);
      NullNumber(data, pos, Target(t), if t == Int32 then base else 6);
    } else if t == FieldType.Date || t == Time || t == DateTime {
      DispatchWords(data, pos, t, base, lossy);
      NullTimes(data, pos);
    } else if t == Bool || t == Float || t == Double || t == FixedDecimal {
      DispatchWords(data, pos, t, base, lossy);
      NullWords(data, pos);
    } else {
      Dispatch(data, pos, t, base, lossy);
      NullData(data, pos, lossy);
    }
  }

  /** What it takes to read a form. */
  lemma ReadsIf(data: Bytes, pos: nat, t: FieldType, f: Form, base: nat, lossy: Lossy)
    requires Suits(t, f) && (base == 5 || base == 6) && pos < |data|
    requires DecodeAt(data, pos, t, base, lossy) == Ok(Meaning(t, f, lossy), pos + |Encoded(t, f, base)|)
    ensures Reads(data, pos, t, f, base, lossy)
  {
    hide Meaning;
    hide Encoded;
    hide DecodeAt;
  }

  lemma NullIs(t: FieldType, f: Form, base: nat, lossy: Lossy)
    requires Suits(t, f) && (base == 5 || base == 6) && f.NullForm?
    ensures Encoded(t, f, base) == [f.marker] && NullMarker(t, f.marker) && Meaning(t, f, lossy) == NullValue(t)
  {
    hide NullMarker;
    hide NullValue;
  }

  lemma NullReads(data: Bytes, pos: nat, t: FieldType, f: Form, base: nat, lossy: Lossy)
    requires Suits(t, f) && (base == 5 || base == 6) && f.NullForm? && StandsAt(data, pos, Encoded(t, f, base))
    ensures Reads(data, pos, t, f, base, lossy)
  {
    hide *;
    NullIs(t, f, base, lossy);
    PrefixAt(data, pos, [f.marker]);
    NullDecodes(data, pos, t, base, lossy);
    ReadsIf(data, pos, t, f, base, lossy);
  }

  lemma BoolReads(data: Bytes, pos: nat, t: FieldType, f: Form, base: nat, lossy: Lossy)
    requires Suits(t, f) && (base == 5 || base == 6) && f.BoolForm? && StandsAt(data, pos, Encoded(t, f, base))
    ensures Reads(data, pos, t, f, base, lossy)
  {
    hide DaySerialText;
    hide PackedDateTimeText;
    hide TimeText;
    hide DecimalText;
    hide Unpack;
    hide FromLe;
    hide ToTarget;
    hide Le;
    hide Packed;
    hide Text;
    hide U32Le;
    hide U64Le;
    hide FromU32Le;
    hide FromU64Le;
    hide Zeros;
    hide Power256;
    PrefixAt(data, pos, Encoded(t, f, base));
  }

  /** A number that fits is read back from its bytes. */
  lemma PayloadReads(t: IntTarget, v: int, n: nat)
    requires FitsIn(t, v, n)
    ensures ToTarget(t, Le(v, n)) == v
  {
    if n == Width(t) && t != AsByte {
      SignedReadBack(v, n);
    } else if n > 0 {
      UnsignedReadBack(v, n);
    }
  }

  lemma IntIs(t: FieldType, f: Form, base: nat, lossy: Lossy)
    requires Suits(t, f) && (base == 5 || base == 6) && f.IntForm?
    ensures IsNumber(t) && FitsIn(Target(t), f.number, f.size)
    ensures Encoded(t, f, base) == [((if t == Int32 then base else 6) + f.size) as byte] + Le(f.number, f.size)
    ensures Meaning(t, f, lossy) == IntValue(Target(t), Some(f.number))
  {
    hide FitsIn;
    hide Le;
    hide IntValue;
  }

  lemma IntReads(data: Bytes, pos: nat, t: FieldType, f: Form, base: nat, lossy: Lossy)
    requires Suits(t, f) && (base == 5 || base == 6) && f.IntForm? && StandsAt(data, pos, Encoded(t, f, base))
    ensures Reads(data, pos, t, f, base, lossy)
  {
    hide *;
    IntIs(t, f, base, lossy);
    var own := if t == Int32 then base else 6;
    var v, n := f.number, f.size;
    FitsWidth(Target(t), v, n);
    var part: Bytes := [(own + n) as byte] + Le(v, n);
    FrontAndRest([(own + n) as byte], Le(v, n));
    PrefixAt(data, pos, part);
    WithinData(data, pos, part);
    PayloadReads(Target(t), v, n);
    CompactReads(data, pos, own, Target(t), v, n);
    Dispatch(data, pos, t, base, lossy);
    ReadsIf(data, pos, t, f, base, lossy);
  }

  lemma FitsWidth(t: IntTarget, v: int, n: nat)
    requires FitsIn(t, v, n)
    ensures n <= Width(t) <= 8 && |Le(v, n)| == n
  {
  }

  lemma CompactReads(data: Bytes, pos: nat, base: nat, t: IntTarget, v: int, n: nat)
    requires pos + 1 + n <= |data| && (base == 5 || base == 6) && data[pos] == base + n && n <= Width(t)
    requires data[pos + 1..pos + 1 + n] == Le(v, n) && ToTarget(t, Le(v, n)) == v
    ensures DecodeCompactInt(data, pos, base, t) == Ok(IntValue(t, Some(v)), pos + 1 + n)
  {
    hide ToTarget;
    if n == 0 {
      assert ToTarget(t, []) == 0 by {
        EmptyTarget(t);
      }
      assert Le(v, n) == [];
    }
  }

  lemma EmptyTarget(t: IntTarget)
    ensures ToTarget(t, []) == 0
  {
  }

  lemma WordIs(t: FieldType, f: Form, base: nat, lossy: Lossy)
    requires Suits(t, f) && (base == 5 || base == 6) && f.WordForm?
    ensures
      && f.size <= |f.word| && f.word == f.word[..f.size] + Zeros(|f.word| - f.size)
      && Encoded(t, f, base) == [WordPrefix(t, f.size)] + f.word[..f.size]
      && Meaning(t, f, lossy) == (if t == Float then FloatValue(Some(f.word)) else DoubleValue(Some(f.word)))
    ensures f.size <= 8 && (t == Float || t == Double)
    ensures if t == Float then |f.word| == 4 else |f.word| == 8 && (f.size == 0 || f.size >= 3)
  {
    FrontAndRest(f.word[..f.size], f.word[f.size..]);
    hide Zeros;
  }

  function WordPrefix(t: FieldType, n: nat): byte
    requires n <= 8
  {
    if t == Float then 7 + n else if n == 0 then 6 else 4 + n
  }

  lemma FloatDecodes(data: Bytes, pos: nat, w: Bytes, n: nat)
    requires |w| == 4 && n <= 4 && w == w[..n] + Zeros(4 - n) && pos + 1 + n <= |data|
    requires data[pos] == 7 + n && data[pos + 1..pos + 1 + n] == w[..n]
    ensures DecodeFloat(data, pos) == Ok(FloatValue(Some(w)), pos + 1 + n)
  {
    hide Zeros;
    assert n == 0 ==> w[..n] + Zeros(4) == Zeros(4);
  }

  lemma DoubleDecodes(data: Bytes, pos: nat, w: Bytes, n: nat)
    requires |w| == 8 && (n == 0 || 3 <= n <= 8) && w == w[..n] + Zeros(8 - n) && pos + 1 + n <= |data|
    requires data[pos] == (if n == 0 then 6 else 4 + n) && data[pos + 1..pos + 1 + n] == w[..n]
    ensures DecodeDouble(data, pos) == Ok(DoubleValue(Some(w)), pos + 1 + n)
  {
    hide Zeros;
    assert n == 0 ==> w[..n] + Zeros(8) == Zeros(8);
  }

  lemma WordReads(data: Bytes, pos: nat, t: FieldType, f: Form, base: nat, lossy: Lossy)
    requires Suits(t, f) && (base == 5 || base == 6) && f.WordForm? && StandsAt(data, pos, Encoded(t, f, base))
    ensures Reads(data, pos, t, f, base, lossy)
  {
    hide *;
    WordIs(t, f, base, lossy);
    var w, n := f.word, f.size;
    var part: Bytes := [WordPrefix(t, n)] + w[..n];
    FrontAndRest([WordPrefix(t, n)], w[..n]);
    PrefixAt(data, pos, part);
    WithinData(data, pos, part);
    WordPrefixIs(t, n);
    DispatchWords(data, pos, t, base, lossy);
    if t == Float {
      FloatDecodes(data, pos, w, n);
    } else {
      DoubleDecodes(data, pos, w, n);
    }
    ReadsIf(data, pos, t, f, base, lossy);
  }

  lemma WordPrefixIs(t: FieldType, n: nat)
    requires n <= 8
    ensures WordPrefix(t, n) == if t == Float then 7 + n else if n == 0 then 6 else 4 + n
  {
  }

  lemma ShortIs(t: FieldType, f: Form, base: nat, lossy: Lossy)
    requires Suits(t, f) && (base == 5 || base == 6) && f.ShortForm?
    ensures |f.data| <= 127 && Encoded(t, f, base) == [0x80 + |f.data|] + f.data
    ensures (IsText(t) || t == Blob || t == SpatialObj)
    ensures Meaning(t, f, lossy) == if IsText(t) then StringValue(Some(lossy(f.data))) else BlobValue(Some(f.data))
  {
    hide IsText;
  }

  lemma ShortReads(data: Bytes, pos: nat, t: FieldType, f: Form, base: nat, lossy: Lossy)
    requires Suits(t, f) && (base == 5 || base == 6) && f.ShortForm? && StandsAt(data, pos, Encoded(t, f, base))
    ensures Reads(data, pos, t, f, base, lossy)
  {
    hide *;
    ShortIs(t, f, base, lossy);
    var part: Bytes := [0x80 + |f.data|] + f.data;
    PrefixAt(data, pos, part);
    assert part[1..] == f.data;
    WithinData(data, pos, part);
    Dispatch(data, pos, t, base, lossy);
    ShortDecodes(data, pos, f.data, lossy);
    ReadsIf(data, pos, t, f, base, lossy);
  }

  lemma WithinData(data: Bytes, pos: nat, part: Bytes)
    requires StandsAt(data, pos, part)
    ensures pos + |part| <= |data|
  {
  }

  lemma ShortDecodes(data: Bytes, pos: nat, payload: Bytes, lossy: Lossy)
    requires |payload| <= 127 && pos + 1 + |payload| <= |data|
    requires data[pos] == 0x80 + |payload| && data[pos + 1..pos + 1 + |payload|] == payload
    ensures var end := pos + 1 + |payload|;
      DecodeString(data, pos, lossy) == Ok(StringValue(Some(lossy(payload))), end)
      && DecodeBlob(data, pos) == Ok(BlobValue(Some(payload)), end)
      && DecodeSpatial(data, pos) == Ok(BlobValue(Some(payload)), end)
  {
    hide LongSpan;
    hide SliceRef;
    hide BlockRef;
  }

  lemma LengthBytes(n: nat)
    requires n < 0x1_0000
    ensures Le(n, 2) == [n % 0x100, n / 0x100]
  {
    assert Le(n / 0x100, 1) == [n / 0x100 % 0x100] + Le(n / 0x100 / 0x100, 0);
  }

  lemma LongIs(t: FieldType, f: Form, base: nat, lossy: Lossy)
    requires Suits(t, f) && (base == 5 || base == 6) && f.LongForm?
    ensures |f.data| < 0x1_0000 && Encoded(t, f, base) == [f.prefix] + Le(|f.data|, 2) + f.data
    ensures |Encoded(t, f, base)| == 3 + |f.data|
    ensures
      || (IsText(t) && f.prefix == 0x01)
      || (t == Blob && (f.prefix == 0x01 || f.prefix == 0x02))
      || (t == SpatialObj && f.prefix == 0x03)
    ensures IsText(t) ==> t != Blob && t != SpatialObj
    ensures Meaning(t, f, lossy) == if IsText(t) then StringValue(Some(lossy(f.data))) else BlobValue(Some(f.data))
  {
    hide Le;
  }

  lemma LongDecodes(data: Bytes, pos: nat, payload: Bytes, lossy: Lossy)
    requires pos + 3 + |payload| <= |data| && LongSpan(data, pos) == Some(pos + 3 + |payload|)
    requires data[pos + 3..pos + 3 + |payload|] == payload
    ensures
      var end := pos + 3 + |payload|;
      && (data[pos] == 0x01 ==> DecodeString(data, pos, lossy) == Ok(StringValue(Some(lossy(payload))), end))
      && (data[pos] == 0x01 || data[pos] == 0x02 ==> DecodeBlob(data, pos) == Ok(BlobValue(Some(payload)), end))
      && (data[pos] == 0x03 ==> DecodeSpatial(data, pos) == Ok(BlobValue(Some(payload)), end))
  {
    hide LongSpan;
    hide ShortSpan;
    hide SliceRef;
    hide BlockRef;
  }

  lemma LongReads(data: Bytes, pos: nat, t: FieldType, f: Form, base: nat, lossy: Lossy)
    requires Suits(t, f) && (base == 5 || base == 6) && f.LongForm? && StandsAt(data, pos, Encoded(t, f, base))
    ensures Reads(data, pos, t, f, base, lossy)
  {
    hide *;
    LongIs(t, f, base, lossy);
    LongSpanAt(data, pos, f.prefix, f.data);
    Dispatch(data, pos, t, base, lossy);
    LongDecodes(data, pos, f.data, lossy);
    ReadsIf(data, pos, t, f, base, lossy);
  }

  lemma LongSpanAt(data: Bytes, pos: nat, prefix: byte, payload: Bytes)
    requires |payload| < 0x1_0000 && StandsAt(data, pos, [prefix] + Le(|payload|, 2) + payload)
    ensures pos < |data| && data[pos] == prefix && |Le(|payload|, 2)| == 2
    ensures
      var end := pos + 3 + |payload|;
      end <= |data| && LongSpan(data, pos) == Some(end) && data[pos + 3..end] == payload
  {
    var n := |payload|;
    LengthBytes(n);
    hide Le;
    var part: Bytes := [prefix, n % 0x100, n / 0x100] + payload;
    assert [prefix] + Le(n, 2) + payload == part;
    PrefixAt(data, pos, part);
    PartAt(data, pos, part, 1, 2);
    PartAt(data, pos, part, 2, 3);
    PartAt(data, pos, part, 3, |part|);
    assert part[3..] == payload && part[3..|part|] == payload;
  }

  lemma SliceIs(t: FieldType, f: Form, base: nat, lossy: Lossy)
    requires Suits(t, f) && (base == 5 || base == 6) && f.SliceForm?
    ensures f.offset < TWO_32 && f.length < TWO_32 && (IsText(t) || t == Blob)
    ensures Encoded(t, f, base) == [0x11] + U32Le(f.offset) + U32Le(f.length)
    ensures Meaning(t, f, lossy) == BlobRef(f.offset, f.length)
  {
    hide U32Le;
    hide IsText;
  }

  lemma SliceAt(data: Bytes, pos: nat, offset: nat, length: nat)
    requires offset < TWO_32 && length < TWO_32 && StandsAt(data, pos, [0x11] + U32Le(offset) + U32Le(length))
    ensures pos + 9 <= |data| && data[pos] == 0x11
    ensures FromU32Le(data[pos + 1..pos + 5]) == offset && FromU32Le(data[pos + 5..pos + 9]) == length
    ensures |[0x11] + U32Le(offset) + U32Le(length)| == 9
  {
    hide U32Le;
    hide FromU32Le;
    var part := [0x11] + U32Le(offset) + U32Le(length);
    MiddleSlice([0x11], U32Le(offset), U32Le(length));
    FrontAndRest([0x11] + U32Le(offset), U32Le(length));
    PrefixAt(data, pos, part);
    PartAt(data, pos, part, 1, 5);
    PartAt(data, pos, part, 5, 9);
    U32RoundTrip(offset);
    U32RoundTrip(length);
  }

  lemma SliceDecodes(data: Bytes, pos: nat, lossy: Lossy)
    requires pos + 9 <= |data| && data[pos] == 0x11
    ensures
      var ref := BlobRef(FromU32Le(data[pos + 1..pos + 5]), FromU32Le(data[pos + 5..pos + 9]));
      DecodeString(data, pos, lossy) == Ok(ref, pos + 9) && DecodeBlob(data, pos) == Ok(ref, pos + 9)
  {
    hide FromU32Le;
    hide ShortSpan;
    hide LongSpan;
    hide BlockRef;
  }

  lemma SliceReads(data: Bytes, pos: nat, t: FieldType, f: Form, base: nat, lossy: Lossy)
    requires Suits(t, f) && (base == 5 || base == 6) && f.SliceForm? && StandsAt(data, pos, Encoded(t, f, base))
    ensures Reads(data, pos, t, f, base, lossy)
  {
    hide *;
    SliceIs(t, f, base, lossy);
    SliceAt(data, pos, f.offset, f.length);
    Dispatch(data, pos, t, base, lossy);
    SliceDecodes(data, pos, lossy);
    ReadsIf(data, pos, t, f, base, lossy);
  }

  lemma BlockIs(t: FieldType, f: Form, base: nat, lossy: Lossy)
    requires Suits(t, f) && (base == 5 || base == 6) && f.BlockForm?
    ensures f.offset < TWO_32 * TWO_32 && ((t == Blob && f.prefix == 0x12) || (t == SpatialObj && f.prefix == 0x13))
    ensures Encoded(t, f, base) == [f.prefix] + U64Le(f.offset) && |Encoded(t, f, base)| == 9
    ensures Meaning(t, f, lossy) == BlobRef(f.offset, WHOLE_BLOCK)
  {
    hide IsText;
  }

  lemma BlockAt(data: Bytes, pos: nat, prefix: byte, offset: nat)
    requires offset < TWO_32 * TWO_32 && StandsAt(data, pos, [prefix] + U64Le(offset))
    ensures pos + 9 <= |data| && data[pos] == prefix && FromU64Le(data[pos + 1..pos + 9]) == offset
  {
    hide U64Le;
    hide FromU64Le;
    var part := [prefix] + U64Le(offset);
    FrontAndRest([prefix], U64Le(offset));
    PrefixAt(data, pos, part);
    U64RoundTrip(offset);
  }

  lemma BlockDecodes(data: Bytes, pos: nat)
    requires pos + 9 <= |data|
    ensures
      var ref := BlobRef(FromU64Le(data[pos + 1..pos + 9]), WHOLE_BLOCK);
      && (data[pos] == 0x12 ==> DecodeBlob(data, pos) == Ok(ref, pos + 9))
      && (data[pos] == 0x13 ==> DecodeSpatial(data, pos) == Ok(ref, pos + 9))
  {
    hide FromU64Le;
    hide ShortSpan;
    hide LongSpan;
    hide SliceRef;
  }

  lemma BlockReads(data: Bytes, pos: nat, t: FieldType, f: Form, base: nat, lossy: Lossy)
    requires Suits(t, f) && (base == 5 || base == 6) && f.BlockForm? && StandsAt(data, pos, Encoded(t, f, base))
    ensures Reads(data, pos, t, f, base, lossy)
  {
    hide *;
    BlockIs(t, f, base, lossy);
    BlockAt(data, pos, f.prefix, f.offset);
    Dispatch(data, pos, t, base, lossy);
    BlockDecodes(data, pos);
    ReadsIf(data, pos, t, f, base, lossy);
  }

  lemma SerialReads(data: Bytes, pos: nat, t: FieldType, f: Form, base: nat, lossy: Lossy)
    requires Suits(t, f) && (base == 5 || base == 6) && f.SerialForm? && StandsAt(data, pos, Encoded(t, f, base))
    ensures Reads(data, pos, t, f, base, lossy)
  {
    hide Le;
    hide FromLe;
    hide DaySerialText;
    hide PackedDateTimeText;
    hide TimeText;
    hide DecodeDate;
    hide DecodeDateTime;
    hide DecodeTime;
    hide Power256;
    PrefixAt(data, pos, Encoded(t, f, base));
    SerialBack(f.serial, f.size);
    SerialDecodes(data, pos, t, f.serial, f.size);
  }

  lemma SerialBack(v: nat, n: nat)
    requires v < Power256(n)
    ensures |Le(v, n)| == n && FromLe(Le(v, n)) == v && (n == 0 ==> v == 0)
  {
    if n > 0 {
      UnsignedReadBack(v, n);
    }
  }

  lemma SerialDecodes(data: Bytes, pos: nat, t: FieldType, v: nat, n: nat)
    requires (t == FieldType.Date || t == DateTime || t == Time) && n <= SerialWidth(t)
    requires pos + 1 + n <= |data| && data[pos] == SerialBase(t) as int + n && (n == 0 ==> v == 0)
    requires FromLe(data[pos + 1..pos + 1 + n]) == v
    ensures t == FieldType.Date ==> DecodeDate(data, pos) == Ok(DateValue(Some(DaySerialText(v))), pos + 1 + n)
    ensures t == DateTime ==> DecodeDateTime(data, pos) == Ok(DateTimeValue(Some(PackedDateTimeText(v))), pos + 1 + n)
    ensures t == Time ==> DecodeTime(data, pos) == Ok(TimeValue(Some(TimeText(v / 100))), pos + 1 + n)
  {
    hide FromLe;
    hide DaySerialText;
    hide PackedDateTimeText;
    hide TimeText;
  }

  // -- Packed digits --

  lemma {:induction false} NibbleOf(digits: seq<nat>, i: nat)
    requires i < |digits| && forall k :: 0 <= k < |digits| ==> digits[k] < 10
    ensures i / 2 < |Packed(digits)| && Nibble(Packed(digits), i) == digits[i]
    decreases |digits|
  {
    if i >= 2 {
      NibbleOf(digits[2..], i - 2);
      assert Packed(digits)[1..] == Packed(digits[2..]);
      assert Packed(digits)[i / 2] == Packed(digits[2..])[(i - 2) / 2];
    }
  }

  lemma {:induction false} UnpackPacked(digits: seq<nat>, n: nat)
    requires n <= |digits| && forall k :: 0 <= k < |digits| ==> digits[k] < 10
    ensures n <= 2 * |Packed(digits)| && Unpack(Packed(digits), n) == Digits(Text(digits[..n]))
    decreases n
  {
    if n > 0 {
      UnpackPacked(digits, n - 1);
      NibbleOf(digits, n - 1);
      hide Packed;
      hide Nibble;
      assert Text(digits[..n]) == Text(digits[..n - 1]) + [DigitOf(digits[n - 1])];
    }
  }

  lemma DecimalReads(data: Bytes, pos: nat, t: FieldType, f: Form, base: nat, lossy: Lossy)
    requires Suits(t, f) && (base == 5 || base == 6) && f.DecimalForm? && StandsAt(data, pos, Encoded(t, f, base))
    ensures Reads(data, pos, t, f, base, lossy)
  {
    hide Packed;
    hide Unpack;
    hide DecimalText;
    hide Text;
    hide DecodeFixedDecimal;
    DecimalDecodes(data, pos, f.digits, f.scale, f.negative);
  }

  lemma DecimalDecodes(data: Bytes, pos: nat, digits: seq<nat>, scale: nat, negative: bool)
    requires 1 <= |digits| <= 256 && scale < 128 && forall i :: 0 <= i < |digits| ==> digits[i] < 10
    requires StandsAt(data, pos, [0x04, |digits| - 1, scale + if negative then 0x80 else 0] + Packed(digits))
    ensures pos < |data| && DecodeFixedDecimal(data, pos)
      == Ok(DecimalValue(Some(DecimalText(Text(digits), scale, negative))), pos + 3 + |Packed(digits)|)
  {
    hide *;
    var n := |digits|;
    PackedLength(digits);
    UnpackPacked(digits, n);
    assert digits[..n] == digits;
    DecimalParts(data, pos, n - 1, scale + if negative then 0x80 else 0, Packed(digits));
    SignScale(scale, negative);
    UnpackedDecodes(data, pos, n - 1, scale + if negative then 0x80 else 0, Text(digits));
  }

  lemma DecimalParts(data: Bytes, pos: nat, last: byte, signScale: byte, packed: Bytes)
    requires StandsAt(data, pos, [0x04, last, signScale] + packed)
    ensures pos + 3 + |packed| <= |data| && data[pos] == 0x04 && data[pos + 1] == last && data[pos + 2] == signScale
    ensures data[pos + 3..pos + 3 + |packed|] == packed
  {
    var part: Bytes := [0x04, last, signScale] + packed;
    PrefixAt(data, pos, part);
    PartAt(data, pos, part, 1, 2);
    PartAt(data, pos, part, 2, 3);
    PartAt(data, pos, part, 3, |part|);
    assert part[3..|part|] == packed;
  }

  lemma SignScale(scale: nat, negative: bool)
    requires scale < 128
    ensures var b := scale + if negative then 0x80 else 0; b % 128 == scale && (b >= 128 <==> negative)
  {
  }

  lemma UnpackedDecodes(data: Bytes, pos: nat, last: nat, signScale: byte, text: Bytes)
    requires pos + 3 + (last / 2 + 1) <= |data| && data[pos] == 0x04 && data[pos + 1] == last
    requires data[pos + 2] == signScale
    requires Unpack(data[pos + 3..pos + 3 + (last / 2 + 1)], last + 1) == Digits(text)
    ensures DecodeFixedDecimal(data, pos)
      == Ok(DecimalValue(Some(DecimalText(text, signScale % 128, signScale >= 128))), pos + 3 + (last / 2 + 1))
  {
    hide Unpack;
    hide DecimalText;
  }

  lemma PackedLength(digits: seq<nat>)
    requires |digits| >= 1 && forall i :: 0 <= i < |digits| ==> digits[i] < 10
    ensures |Packed(digits)| == (|digits| - 1) / 2 + 1
  {
  }

  /** The decoder reads every form as its value, wherever it stands, and stops behind it. */
  lemma FormReads(data: Bytes, pos: nat, t: FieldType, f: Form, base: nat, lossy: Lossy)
    requires Suits(t, f) && (base == 5 || base == 6) && StandsAt(data, pos, Encoded(t, f, base))
    ensures Reads(data, pos, t, f, base, lossy)
  {
    hide *;
    match f
    case NullForm(_) => NullReads(data, pos, t, f, base, lossy);
    case BoolForm(_) => BoolReads(data, pos, t, f, base, lossy);
    case IntForm(_, _) => IntReads(data, pos, t, f, base, lossy);
    case WordForm(_, _) => WordReads(data, pos, t, f, base, lossy);
    case ShortForm(_) => ShortReads(data, pos, t, f, base, lossy);
    case LongForm(_, _) => LongReads(data, pos, t, f, base, lossy);
    case SliceForm(_, _) => SliceReads(data, pos, t, f, base, lossy);
    case BlockForm(_, _) => BlockReads(data, pos, t, f, base, lossy);
    case SerialForm(_, _) => SerialReads(data, pos, t, f, base, lossy);
    case DecimalForm(_, _, _) => DecimalReads(data, pos, t, f, base, lossy);
  }
}
