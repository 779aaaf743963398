// Field types, their place in the fixed part of a record, and the values of fields.

module Fields {
  import opened Bytes

  datatype FieldType =
    | Bool | Byte | Int16 | Int32 | Int64 | Float | Double | FixedDecimal
    | String | WString | VString | VWString | Date | Time | DateTime | Blob | SpatialObj

  /** Bytes of the fixed part that a field takes up, for its declared size. */
  function FixedBytes(t: FieldType, size: nat): (n: nat)
    ensures n >= 1
  {
    match t
    case Bool => 1
    case Byte => 2
    case Int16 => 3
    case Int32 => 5
    case Int64 => 9
    case Float => 5
    case Double => 9
    case FixedDecimal => size + 1
    case String => size + 1
    case WString => size * 2 + 1
    case VString => 4
    case VWString => 4
    case Date => 11
    case Time => 9
    case DateTime => 20
    case Blob => 4
    case SpatialObj => 4
  }

  predicate IsVariable(t: FieldType) {
    t == VString || t == VWString || t == Blob || t == SpatialObj
  }

  /** Values of fields; None is null. Floating-point numbers are held as their little-endian bytes, text as UTF-8. */
  datatype FieldValue =
    | BoolValue(flag: Option<bool>)
    | ByteValue(octet: Option<int>)
    | Int16Value(int16: Option<int>)
    | Int32Value(int32: Option<int>)
    | Int64Value(int64: Option<int>)
    | FloatValue(float: Option<Bytes>)
    | DoubleValue(double: Option<Bytes>)
    | DecimalValue(decimal: Option<Bytes>)
    | StringValue(text: Option<Bytes>)
    | DateValue(date: Option<Bytes>)
    | TimeValue(time: Option<Bytes>)
    | DateTimeValue(dateTime: Option<Bytes>)
    | BlobValue(blob: Option<Bytes>)
    | BlobRef(offset: nat, length: nat)

  /** Replaces malformed UTF-8, as the standard library does it. */
  type Lossy = Bytes -> Bytes

  // Equality of values is that of the code: floating-point numbers compare as IEEE 754 numbers,
  // so a NaN differs from itself and the two zeros are equal.

  predicate IsNaN(w: Bytes) {
    (|w| == 4 && w[3] % 128 == 127 && w[2] >= 128 && !(w[2] == 128 && w[1] == 0 && w[0] == 0)) ||
    (|w| == 8 && w[7] % 128 == 127 && w[6] >= 240 && !(w[6] == 240 && forall i :: 0 <= i < 6 ==> w[i] == 0))
  }

  predicate IsZero(w: Bytes) {
    w != [] && w[|w| - 1] % 128 == 0 && forall i :: 0 <= i < |w| - 1 ==> w[i] == 0
  }

  predicate SameFloat(a: Bytes, b: Bytes) {
    |a| == |b| && !IsNaN(a) && !IsNaN(b) && (a == b || (IsZero(a) && IsZero(b)))
  }

  predicate SameWord(a: Option<Bytes>, b: Option<Bytes>) {
    if a.Some? && b.Some? then SameFloat(a.value, b.value) else a == b
  }

  predicate Same(a: FieldValue, b: FieldValue) {
    match (a, b)
    case (FloatValue(x), FloatValue(y)) => SameWord(x, y)
    case (DoubleValue(x), DoubleValue(y)) => SameWord(x, y)
    case _ => a == b
  }

  predicate SameAll(a: seq<FieldValue>, b: seq<FieldValue>) {
    |a| == |b| && forall i :: 0 <= i < |a| ==> Same(a[i], b[i])
  }

  lemma SameSymmetric(a: FieldValue, b: FieldValue)
    ensures Same(a, b) == Same(b, a)
  {
  }

  lemma SameTransitive(a: FieldValue, b: FieldValue, c: FieldValue)
    requires Same(a, b) && Same(b, c)
    ensures Same(a, c)
  {
  }

  /** Equality of value lists is symmetric and transitive, but not reflexive. */
  lemma SameAllSymmetric(a: seq<FieldValue>, b: seq<FieldValue>)
    ensures SameAll(a, b) == SameAll(b, a)
  {
    forall i | 0 <= i < |a| && |a| == |b| ensures Same(a[i], b[i]) == Same(b[i], a[i]) {
      SameSymmetric(a[i], b[i]);
    }
  }

  lemma SameAllTransitive(a: seq<FieldValue>, b: seq<FieldValue>, c: seq<FieldValue>)
    requires SameAll(a, b) && SameAll(b, c)
    ensures SameAll(a, c)
  {
    forall i | 0 <= i < |a| ensures Same(a[i], c[i]) {
      SameTransitive(a[i], b[i], c[i]);
    }
  }

  lemma SameNonFloat(a: FieldValue)
    ensures Same(a, a) <==>
      !(a.FloatValue? && a.float.Some? && IsNaN(a.float.value))
        && !(a.DoubleValue? && a.double.Some? && IsNaN(a.double.value))
  {
  }
}
