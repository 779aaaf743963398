// Columns of numbers, decimals, dates and times built straight from the records, and exactly which
// of the numbers written come back in them.

module ScalarColumns {
  import opened Bytes
  import opened LittleEndian
  import opened Digits
  import opened Fields
  import opened AsciiField
  import opened Calendar
  import opened DecimalText
  import opened RecordLayout
  import opened RecordReader
  import opened TableFile
  import Transcode

  predicate IsScalar(t: FieldType) {
    RecordLayout.IsInteger(t) || t == FixedDecimal || t == FieldType.Date || t == Time || t == DateTime
  }

  /** The number pushed for the place of a field in a record; None is null. */
  function Pushed(f: FieldMeta, place: Bytes): Option<int>
    requires IsScalar(f.fieldType) && |place| == Length(f)
  {
    var n := |place| - 1;
    if place[n] == 1 then None
    else match f.fieldType
      case Byte => Some(place[0])
      case FixedDecimal => Some(UnscaledOf(UpToNul(place[..n]), f.scale))
      case Date => ParseDate(place[..n])
      case Time => ParseTime(place[..n])
      case DateTime => ParseDatetime(place[..n])
      case _ => Some(SignedLe(place[..n]))
  }

  /** Text that is no UTF-8 counts as a zero. */
  function UnscaledOf(text: Bytes, scale: nat): int {
    Parsed(if Transcode.ValidUtf8(text) then text else [ASCII_ZERO], scale)
  }

  function PushedFromRecord(record: Bytes, f: FieldMeta): Option<int>
    requires IsScalar(f.fieldType) && f.offset + Length(f) <= |record|
  {
    Pushed(f, record[f.offset..f.offset + Length(f)])
  }

  /** The precision that the width of a decimal field was made for. */
  function Precision(f: FieldMeta): int {
    f.size - 1 - if f.scale > 0 then 1 else 0
  }

  /** The number is one that the column's type holds. */
  predicate InColumn(f: FieldMeta, v: int)
    requires IsScalar(f.fieldType)
  {
    if f.fieldType == FixedDecimal then
      1 <= Precision(f) && f.scale <= Precision(f) && Magnitude(v) < Pow10(Precision(f))
    else if f.fieldType == FieldType.Date then IsI32(v)
    else if f.fieldType == Time || f.fieldType == DateTime then
      -0x8000_0000_0000_0000 <= v < 0x8000_0000_0000_0000
    else RecordReader.InRange(f, IntCell(Some(v)))
  }

  /**
    * Whole seconds below 100 hours, whole seconds and days of the years 0 to 9999, and decimals
    * that keep their last digit come back; so do all integers.
    */
  predicate Returns(f: FieldMeta, v: int)
    requires IsScalar(f.fieldType)
  {
    match f.fieldType
    case FixedDecimal => f.scale < Precision(f) || v >= 0 || v % 10 == 0
    case Date => 0 <= DaysToCivil(v).year <= 9999
    case Time => 0 <= v < 360_000 * 1_000_000_000 && v % 1_000_000_000 == 0
    case DateTime => 0 <= DaysToCivil(v / 86_400_000_000).year <= 9999 && v % 1_000_000 == 0
    case _ => true
  }

  // -- Only the first bytes of a text are parsed --

  lemma DigitsOfPrefix(b: Bytes, pos: nat, w: nat, n: nat)
    requires pos + w <= n <= |b|
    ensures ParseDigits(b[..n], pos, w) == ParseDigits(b, pos, w)
  {
    assert b[..n][pos..pos + w] == b[pos..pos + w];
  }

  lemma DateOfPrefix(b: Bytes, n: nat)
    requires 10 <= n <= |b|
    ensures ParseDate(b[..n]) == ParseDate(b)
  {
    DigitsOfPrefix(b, 0, 4, n);
    DigitsOfPrefix(b, 5, 2, n);
    DigitsOfPrefix(b, 8, 2, n);
    hide ParseDigits;
  }

  lemma ClockOfPrefix(b: Bytes, pos: nat, n: nat)
    requires pos + 8 <= n <= |b|
    ensures ParseClock(b[..n], pos) == ParseClock(b, pos)
  {
    DigitsOfPrefix(b, pos, 2, n);
    DigitsOfPrefix(b, pos + 3, 2, n);
    DigitsOfPrefix(b, pos + 6, 2, n);
    hide ParseDigits;
  }

  /** Whatever text of at least that length is cut to the field's width. */
  lemma FittedIsPrefix(text: Bytes, width: nat)
    requires width <= |text|
    ensures Fitted(text, width) == text[..width]
  {
    if |text| == width {
      assert text + Zeros(0) == text[..width];
    }
  }

  // -- Dates and times --

  lemma DayReturns(days: int)
    requires IsI32(days)
    ensures ParseDate(Fitted(DaysToDateStr(days), 10)) == Some(days) <==> 0 <= DaysToCivil(days).year <= 9999
  {
    hide *;
    var text := DaysToDateStr(days);
    FittedIsPrefix(text, 10);
    DateOfPrefix(text, 10);
    DateRoundTrip(days, []);
    assert text + [] == text;
  }

  lemma TimeReturns(ns: int)
    ensures ParseTime(Fitted(NsToTimeStr(ns), 8)) == Some(ns)
      <==> 0 <= ns < 360_000 * 1_000_000_000 && ns % 1_000_000_000 == 0
  {
    hide *;
    var text := NsToTimeStr(ns);
    FittedIsPrefix(text, 8);
    TimeOfPrefix(text);
    TimeRoundTrip(ns, []);
    assert text + [] == text;
    TimeIsWhole(text);
    SecondsOf(ns);
  }

  lemma TimeOfPrefix(b: Bytes)
    requires 8 <= |b|
    ensures ParseTime(b[..8]) == ParseTime(b)
  {
    ClockOfPrefix(b, 0, 8);
    hide ParseClock;
  }

  lemma TimeIsWhole(b: Bytes)
    ensures ParseTime(b).Some? ==> ParseTime(b).value % 1_000_000_000 == 0
  {
    hide ParseClock;
  }

  lemma SecondsOf(ns: int)
    ensures ns % 1_000_000_000 == 0 ==> TruncatedSeconds(ns) * 1_000_000_000 == ns
  {
  }

  lemma TimestampReturns(us: int)
    requires -0x8000_0000_0000_0000 <= us < 0x8000_0000_0000_0000
    ensures ParseDatetime(Fitted(UsToDatetimeStr(us), 19)) == Some(us)
      <==> 0 <= DaysToCivil(us / 86_400_000_000).year <= 9999 && us % 1_000_000 == 0
  {
    hide *;
    var text := UsToDatetimeStr(us);
    FittedIsPrefix(text, 19);
    TimestampOfPrefix(text);
    DatetimeRoundTrip(us, []);
    assert text + [] == text;
    TimestampIsWhole(text);
  }

  lemma TimestampOfPrefix(b: Bytes)
    requires 19 <= |b|
    ensures ParseDatetime(b[..19]) == ParseDatetime(b)
  {
    hide ParseDate;
    hide ParseClock;
    DateOfPrefix(b, 19);
    ClockOfPrefix(b, 11, 19);
  }

  lemma TimestampIsWhole(b: Bytes)
    ensures ParseDatetime(b).Some? ==> ParseDatetime(b).value % 1_000_000 == 0
  {
    if ParseDatetime(b).Some? {
      WholeSeconds(ParseDate(b).value, ParseClock(b, 11).value);
    }
    hide ParseDate;
    hide ParseClock;
  }

  lemma WholeSeconds(days: int, clock: int)
    ensures (days * 86_400_000_000 + clock * 1_000_000) % 1_000_000 == 0
  {
    assert days * 86_400_000_000 + clock * 1_000_000 == (days * 86_400 + clock) * 1_000_000;
  }

  // -- Decimals --

  predicate Ascii(b: Bytes) {
    forall i :: 0 <= i < |b| ==> b[i] < 0x80
  }

  lemma {:induction false} AsciiIsValid(b: Bytes)
    requires Ascii(b)
    ensures Transcode.ValidUtf8(b)
    decreases |b|
  {
    if b != [] {
      AsciiIsValid(b[1..]);
    }
  }

  lemma FormatIsAscii(v: int, scale: nat)
    ensures Ascii(FormatDecimal(v, scale))
  {
    hide Decimal;
    hide Padded;
    hide WholePart;
    hide FractionPart;
    DigitsAreAscii(Decimal(WholePart(v, scale)));
    DigitsAreAscii(Padded(FractionPart(v, scale), scale));
  }

  lemma DigitsAreAscii(s: Bytes)
    requires AllDigits(s)
    ensures Ascii(s)
  {
  }

  lemma UnscaledReturns(v: int, f: FieldMeta)
    requires f.fieldType == FixedDecimal && InColumn(f, v)
    ensures UnscaledOf(UpToNul(Fitted(FormatDecimal(v, f.scale), f.size)), f.scale) == v <==> Returns(f, v)
  {
    hide *;
    DecimalInColumn(f, v);
    FormatIsAscii(v, f.scale);
    FieldIsAscii(FormatDecimal(v, f.scale), f.size);
    UnscaledIs(UpToNul(Fitted(FormatDecimal(v, f.scale), f.size)), f.scale);
    DecimalRoundTrip(v, Precision(f), f.scale);
    ReadBackIs(v, Precision(f), f.scale);
  }

  lemma DecimalInColumn(f: FieldMeta, v: int)
    requires f.fieldType == FixedDecimal && InColumn(f, v)
    ensures 1 <= Precision(f) && f.scale <= Precision(f) && Magnitude(v) < Pow10(Precision(f))
    ensures f.size == Width(Precision(f), f.scale)
    ensures Returns(f, v) <==> f.scale < Precision(f) || v >= 0 || v % 10 == 0
  {
    hide Pow10;
    hide Magnitude;
  }

  lemma FieldIsAscii(text: Bytes, width: nat)
    requires Ascii(text)
    ensures Ascii(UpToNul(Fitted(text, width)))
  {
    assert Ascii(Fitted(text, width));
    hide Fitted;
    hide UpToNul;
  }

  lemma UnscaledIs(text: Bytes, scale: nat)
    requires Ascii(text)
    ensures UnscaledOf(text, scale) == Parsed(text, scale)
  {
    AsciiIsValid(text);
    hide Parsed;
  }

  lemma ReadBackIs(v: int, precision: nat, scale: nat)
    ensures ReadBack(v, precision, scale)
      == Parsed(UpToNul(Fitted(FormatDecimal(v, scale), Width(precision, scale))), scale)
  {
    hide Parsed;
    hide UpToNul;
    hide Fitted;
    hide FormatDecimal;
  }

  // -- Any number --

  lemma PlaceReturns(f: FieldMeta, c: Cell)
    requires IsScalar(f.fieldType) && Suits(f, c) && (c.number.Some? ==> InColumn(f, c.number.value))
    ensures Pushed(f, FixedImage(f, c)) == c.number <==> (c.number.Some? ==> Returns(f, c.number.value))
  {
    if RecordLayout.IsInteger(f.fieldType) {
      IntegerReturns(f, c);
    } else {
      TextFieldReadBack(f, c);
      NullOrText(f, FixedImage(f, c));
      CellText(f, c);
      hide *;
      if c.number.Some? {
        TextReturns(f, c.number.value);
      }
    }
  }

  lemma IntegerReturns(f: FieldMeta, c: Cell)
    requires RecordLayout.IsInteger(f.fieldType) && Suits(f, c) && (c.number.Some? ==> InColumn(f, c.number.value))
    ensures Pushed(f, FixedImage(f, c)) == c.number && (c.number.Some? ==> Returns(f, c.number.value))
  {
    NumberReadBack(f, c);
    hide SignedLe;
    hide FixedImage;
    hide Power256;
  }

  /** The number that a text stands for. */
  function Meant(f: FieldMeta, text: Bytes): Option<int>
    requires IsScalar(f.fieldType) && !RecordLayout.IsInteger(f.fieldType) && |text| == Length(f) - 1
  {
    match f.fieldType
    case FixedDecimal => Some(UnscaledOf(UpToNul(text), f.scale))
    case Date => ParseDate(text)
    case Time => ParseTime(text)
    case DateTime => ParseDatetime(text)
  }

  lemma NullOrText(f: FieldMeta, place: Bytes)
    requires IsScalar(f.fieldType) && !RecordLayout.IsInteger(f.fieldType) && |place| == Length(f)
    ensures Pushed(f, place) == if IsNull(place) then None else Meant(f, Payload(place))
  {
    hide ParseDate;
    hide ParseTime;
    hide ParseDatetime;
    hide UnscaledOf;
    hide UpToNul;
  }

  /** The text written for a number. */
  function TextFor(f: FieldMeta, v: int): Bytes
    requires IsScalar(f.fieldType) && !RecordLayout.IsInteger(f.fieldType)
  {
    match f.fieldType
    case FixedDecimal => FormatDecimal(v, f.scale)
    case Date => DaysToDateStr(v)
    case Time => NsToTimeStr(v)
    case DateTime => UsToDatetimeStr(v)
  }

  lemma CellText(f: FieldMeta, c: Cell)
    requires IsScalar(f.fieldType) && !RecordLayout.IsInteger(f.fieldType) && Suits(f, c)
    ensures FieldText(f, c) == if c.number == None then None else Some(TextFor(f, c.number.value))
  {
    hide FormatDecimal;
    hide DaysToDateStr;
    hide NsToTimeStr;
    hide UsToDatetimeStr;
  }

  lemma TextReturns(f: FieldMeta, v: int)
    requires IsScalar(f.fieldType) && !RecordLayout.IsInteger(f.fieldType) && InColumn(f, v)
    ensures Meant(f, Fitted(TextFor(f, v), Length(f) - 1)) == Some(v) <==> Returns(f, v)
  {
    hide ParseDate;
    hide ParseTime;
    hide ParseDatetime;
    hide UnscaledOf;
    hide UpToNul;
    hide FormatDecimal;
    hide DaysToDateStr;
    hide NsToTimeStr;
    hide UsToDatetimeStr;
    hide DaysToCivil;
    hide Fitted;
    hide Pow10;
    hide Magnitude;
    hide RecordReader.InRange;
    hide Precision;
    match f.fieldType {
      case FixedDecimal =>
        UnscaledReturns(v, f);
      case Date =>
        DayReturns(v);
      case Time =>
        TimeReturns(v);
      case DateTime =>
        TimestampReturns(v);
    }
  }

  /** The number written for a field is pushed for its column exactly if it is one that comes back. */
  lemma NumberReturns(fields: seq<FieldMeta>, cells: seq<Cell>, i: nat)
    requires Row(fields, cells) && i < |fields| && |cells| == |fields|
    requires var f, c := fields[i], cells[i];
      IsScalar(f.fieldType) && Suits(f, c) && (c.number.Some? ==> InColumn(f, c.number.value))
    ensures fields[i].offset + Length(fields[i]) <= |RecordOf(fields, cells)|
    ensures PushedFromRecord(RecordOf(fields, cells), fields[i]) == cells[i].number
      <==> (cells[i].number.Some? ==> Returns(fields[i], cells[i].number.value))
  {
    hide *;
    ScalarIsFixed(fields[i]);
    PlaceInRecord(fields, cells, i);
    PlainImage(fields, cells, i);
    PushedIs(RecordOf(fields, cells), fields[i]);
    PlaceReturns(fields[i], cells[i]);
  }

  lemma ScalarIsFixed(f: FieldMeta)
    requires IsScalar(f.fieldType)
    ensures !IsVariable(f.fieldType)
  {
  }

  lemma PushedIs(record: Bytes, f: FieldMeta)
    requires IsScalar(f.fieldType) && f.offset + Length(f) <= |record|
    ensures PushedFromRecord(record, f) == Pushed(f, record[f.offset..f.offset + Length(f)])
  {
    hide Pushed;
  }

  // -- What the widths of fields are made for --

  /** Integer fields hold exactly the numbers of their type. */
  lemma IntegerWidths(f: FieldMeta, v: int)
    requires RecordLayout.IsInteger(f.fieldType)
    ensures InColumn(f, v) <==> (
      match f.fieldType
      case Byte => 0 <= v < 0x100
      case Int16 => -0x8000 <= v < 0x8000
      case Int32 => -TWO_31 <= v < TWO_31
      case Int64 => -0x8000_0000_0000_0000 <= v < 0x8000_0000_0000_0000)
  {
    assert Power256(1) == 0x100 && Power256(2) == 0x1_0000;
    assert Power256(4) == TWO_32 by {
      assert Power256(3) == 0x100_0000;
    }
    assert Power256(8) == 0x1_0000_0000_0000_0000 by {
      assert Power256(5) == 0x100_0000_0000 && Power256(6) == 0x1_0000_0000_0000 && Power256(7) == 0x100_0000_0000_0000;
    }
    hide Power256;
  }

  /**
    * The text of a day, a time or a timestamp that comes back fills its field, and the text of a
    * decimal fits into its field unless all its digits are a negative fraction.
    */
  lemma TextWidths(f: FieldMeta, v: int)
    requires IsScalar(f.fieldType) && !RecordLayout.IsInteger(f.fieldType) && InColumn(f, v)
    ensures f.fieldType != FixedDecimal && Returns(f, v) ==> |TextFor(f, v)| == Length(f) - 1
    ensures f.fieldType == FixedDecimal ==> (
      |TextFor(f, v)| <= Length(f) - 1 <==> f.scale < Precision(f) || v >= 0)
  {
    hide FormatDecimal;
    hide DaysToDateStr;
    hide NsToTimeStr;
    hide UsToDatetimeStr;
    hide DaysToCivil;
    hide Pow10;
    hide Magnitude;
    hide RecordReader.InRange;
    match f.fieldType {
      case FixedDecimal =>
        FormatFits(v, Precision(f), f.scale);
      case Date =>
        if Returns(f, v) {
          DayLength(v);
        }
      case Time =>
        if Returns(f, v) {
          TimeLength(v);
        }
      case DateTime =>
        if Returns(f, v) {
          TimestampLength(v);
        }
    }
  }

  lemma DayLength(days: int)
    requires IsI32(days) && 0 <= DaysToCivil(days).year <= 9999
    ensures |DaysToDateStr(days)| == 10
  {
    hide DaysToCivil;
    hide DateText;
    YearRange(days);
    DateTextOf(days, []);
  }

  lemma TimeLength(ns: int)
    requires 0 <= ns < 360_000 * 1_000_000_000
    ensures |NsToTimeStr(ns)| == 8
  {
    hide TimeText;
    ClockTextParses([], TruncatedSeconds(ns), []);
  }

  lemma TimestampLength(us: int)
    requires -0x8000_0000_0000_0000 <= us < 0x8000_0000_0000_0000
    requires 0 <= DaysToCivil(us / 86_400_000_000).year <= 9999
    ensures |UsToDatetimeStr(us)| == 19
  {
    hide *;
    var days, clock := us / 86_400_000_000, us / 1_000_000 % 86400;
    TimestampText(us);
    DayLength(days);
    ClockTextParses([], clock, []);
  }

  lemma TimestampText(us: int)
    requires -0x8000_0000_0000_0000 <= us < 0x8000_0000_0000_0000
    ensures var days := us / 86_400_000_000;
      && IsI32(days)
      && UsToDatetimeStr(us) == DaysToDateStr(days) + [SPACE] + TimeText(us / 1_000_000 % 86400)
  {
    hide DateText;
    hide TimeText;
    hide DaysToCivil32;
    var secs := us / 1_000_000;
    assert secs / 86400 == us / 86_400_000_000;
    assert Wrap32(secs / 86400) == secs / 86400;
  }

  // -- A column of a table --

  /** The numbers pushed for one field of some records. */
  function Column(records: seq<Bytes>, f: FieldMeta): (column: seq<Option<int>>)
    requires IsScalar(f.fieldType) && forall i :: 0 <= i < |records| ==> f.offset + Length(f) <= |records[i]|
    ensures |column| == |records|
  {
    seq(|records|, i requires 0 <= i < |records| => PushedFromRecord(records[i], f))
  }

  /** The numbers written to the column are of its type. */
  ghost predicate Holds(fields: seq<FieldMeta>, rows: seq<seq<Cell>>, k: nat) {
    && k < |fields| && IsScalar(fields[k].fieldType)
    && forall i :: 0 <= i < |rows| ==> Row(fields, rows[i]) && NumberFits(fields[k], rows[i][k])
  }

  predicate NumberFits(f: FieldMeta, c: Cell)
    requires IsScalar(f.fieldType) && Suits(f, c)
  {
    c.number.Some? ==> InColumn(f, c.number.value)
  }

  predicate NumberComesBack(f: FieldMeta, c: Cell)
    requires IsScalar(f.fieldType) && Suits(f, c)
  {
    c.number.Some? ==> Returns(f, c.number.value)
  }

  /** The column as it was written. */
  function Written(fields: seq<FieldMeta>, rows: seq<seq<Cell>>, k: nat): (column: seq<Option<int>>)
    requires Holds(fields, rows, k)
    ensures |column| == |rows|
  {
    seq(|rows|, i requires 0 <= i < |rows| => rows[i][k].number)
  }

  /** A column is the one that was written exactly if every number in it is one that comes back. */
  lemma ColumnReturns(fields: seq<FieldMeta>, rows: seq<seq<Cell>>, k: nat)
    requires Holds(fields, rows, k)
    ensures var records := RecordsOf(fields, rows);
      && (forall i :: 0 <= i < |records| ==> fields[k].offset + Length(fields[k]) <= |records[i]|)
      && (Column(records, fields[k]) == Written(fields, rows, k)
          <==> forall i :: 0 <= i < |rows| ==> NumberComesBack(fields[k], rows[i][k]))
  {
    hide RecordOf;
    hide PushedFromRecord;
    hide InColumn;
    hide Returns;
    var records, f := RecordsOf(fields, rows), fields[k];
    forall i | 0 <= i < |rows|
      ensures f.offset + Length(f) <= |records[i]|
      ensures PushedFromRecord(records[i], f) == rows[i][k].number <==> NumberComesBack(f, rows[i][k])
    {
      assert Row(fields, rows[i]) && NumberFits(f, rows[i][k]);
      NumberReturns(fields, rows[i], k);
    }
    var pushed, written := Column(records, f), Written(fields, rows, k);
    if pushed == written {
      forall i | 0 <= i < |rows| ensures NumberComesBack(f, rows[i][k]) {
        assert pushed[i] == written[i];
      }
    }
  }
}
