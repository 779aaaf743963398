// Cutting a byte stream into records: one at a time, or as many as a buffer holds.

module RecordScan {
  import opened Bytes

  /** What the schema says about record sizes; every field takes at least one fixed byte. */
  datatype Format = Format(fixedSize: nat, hasVar: bool)

  predicate Valid(f: Format) {
    f.fixedSize >= 1
  }

  /** Size of the record at the start of `data`, if all of it is there. */
  function FirstRecord(f: Format, data: Bytes): (n: Option<nat>)
    requires Valid(f)
    ensures n.Some? ==> 1 <= n.value <= |data|
  {
    if f.hasVar then
      if f.fixedSize + 4 > |data| then None
      else
        var end := f.fixedSize + 4 + FromU32Le(data[f.fixedSize..f.fixedSize + 4]);
        if end > |data| then None else Some(end)
    else if f.fixedSize > |data| then None else Some(f.fixedSize)
  }

  /** The complete records at the start of `data`. */
  function Parse(f: Format, data: Bytes): (records: seq<Bytes>)
    requires Valid(f)
    decreases |data|
  {
    match FirstRecord(f, data)
    case None => []
    case Some(n) => [data[..n]] + Parse(f, data[n..])
  }

  /** What is left behind the complete records. */
  function Tail(f: Format, data: Bytes): (tail: Bytes)
    requires Valid(f)
    decreases |data|
  {
    match FirstRecord(f, data)
    case None => data
    case Some(n) => Tail(f, data[n..])
  }

  lemma FirstRecordGrows(f: Format, a: Bytes, b: Bytes)
    requires Valid(f) && FirstRecord(f, a).Some?
    ensures FirstRecord(f, a + b) == FirstRecord(f, a)
  {
    if f.hasVar {
      assert (a + b)[f.fixedSize..f.fixedSize + 4] == a[f.fixedSize..f.fixedSize + 4];
    }
  }

  /** Scanning may stop anywhere and go on with the tail and more data. */
  lemma {:induction false} ParseConcat(f: Format, a: Bytes, b: Bytes)
    requires Valid(f)
    ensures Parse(f, a + b) == Parse(f, a) + Parse(f, Tail(f, a) + b)
    ensures Tail(f, a + b) == Tail(f, Tail(f, a) + b)
    decreases |a|
  {
    match FirstRecord(f, a) {
      case None =>
      case Some(n) =>
        FirstRecordGrows(f, a, b);
        assert (a + b)[..n] == a[..n] && (a + b)[n..] == a[n..] + b;
        ParseConcat(f, a[n..], b);
    }
  }

  lemma {:induction false} ParseSplits(f: Format, data: Bytes)
    requires Valid(f)
    ensures data == Flatten(Parse(f, data)) + Tail(f, data)
    ensures FirstRecord(f, Tail(f, data)).None? && Parse(f, Tail(f, data)) == []
    ensures Tail(f, Tail(f, data)) == Tail(f, data)
    decreases |data|
  {
    match FirstRecord(f, data) {
      case None =>
      case Some(n) =>
        ParseSplits(f, data[n..]);
        var rest := Parse(f, data[n..]);
        assert ([data[..n]] + rest)[1..] == rest;
        Assoc(data[..n], Flatten(rest), Tail(f, data));
    }
  }

  /** The record is exactly as long as its own size fields say. */
  predicate WellFormed(f: Format, rec: Bytes)
    requires Valid(f)
  {
    FirstRecord(f, rec) == Some(|rec|)
  }

  lemma WellFormedSize(f: Format, rec: Bytes)
    requires Valid(f) && WellFormed(f, rec)
    ensures
      if f.hasVar then
        && f.fixedSize + 4 <= |rec|
        && |rec| == f.fixedSize + 4 + FromU32Le(rec[f.fixedSize..f.fixedSize + 4])
      else |rec| == f.fixedSize
  {
    hide FromU32Le;
  }

  predicate AllWellFormed(f: Format, records: seq<Bytes>)
    requires Valid(f)
  {
    forall i :: 0 <= i < |records| ==> WellFormed(f, records[i])
  }

  /** Scanning a run of well-formed records gives them back. */
  lemma {:induction false} ParseFlatten(f: Format, records: seq<Bytes>, more: Bytes)
    requires Valid(f) && AllWellFormed(f, records)
    ensures Parse(f, Flatten(records) + more) == records + Parse(f, more)
    ensures Tail(f, Flatten(records) + more) == Tail(f, more)
    decreases |records|
  {
    if records == [] {
      assert Flatten(records) + more == more;
    } else {
      var r, rest := records[0], records[1..];
      assert WellFormed(f, records[0]);
      Assoc(r, Flatten(rest), more);
      FirstRecordGrows(f, r, Flatten(rest) + more);
      var data := r + (Flatten(rest) + more);
      assert data[..|r|] == r && data[|r|..] == Flatten(rest) + more;
      ParseFlatten(f, rest, more);
      assert records == [r] + rest;
      Assoc([r], rest, Parse(f, more));
    }
  }

  // -- Record bounds --

  /** Fixed-size records are addressed arithmetically, variable-size ones by their end offsets. */
  datatype Bounds = Fixed(fixedSize: nat) | Variable(ends: seq<nat>)

  function RecordSlice(bounds: Bounds, data: Bytes, i: nat): Option<Bytes>
    requires bounds.Variable? ==> i + 1 < |bounds.ends| && bounds.ends[i] <= bounds.ends[i + 1]
  {
    var start, end := if bounds.Fixed? then i * bounds.fixedSize else bounds.ends[i],
                      if bounds.Fixed? then i * bounds.fixedSize + bounds.fixedSize else bounds.ends[i + 1];
    if end > |data| then None else Some(data[start..end])
  }

  /** Number of records a scan found. */
  ghost predicate ScanOf(f: Format, data: Bytes, ends: seq<nat>)
    requires Valid(f)
  {
    && |ends| == |Parse(f, data)| + 1 && ends[0] == 0
    && (forall i :: 0 <= i < |ends| ==> ends[i] <= |data|)
    && (forall i :: 0 <= i < |ends| - 1 ==> ends[i] <= ends[i + 1] && data[ends[i]..ends[i + 1]] == Parse(f, data)[i])
    && data[ends[|ends| - 1]..] == Tail(f, data)
  }

  /** Where the variable-size record starting at `offset` ends, if it ends inside `data`. */
  method NextEnd(data: Bytes, fixedSize: nat, offset: nat) returns (end: Option<nat>)
    requires fixedSize >= 1 && offset <= |data|
    ensures match FirstRecord(Format(fixedSize, true), data[offset..])
      case None => end == None
      case Some(n) => end == Some(offset + n)
  {
    var varStart := offset + fixedSize;
    if varStart + 4 > |data| {
      return None;
    }
    assert data[offset..][fixedSize..fixedSize + 4] == data[varStart..varStart + 4];
    var e := varStart + 4 + FromU32Le(data[varStart..varStart + 4]);
    return if e > |data| then None else Some(e);
  }

  lemma ParseAt(f: Format, data: Bytes, offset: nat, n: nat)
    requires Valid(f) && offset <= |data| && FirstRecord(f, data[offset..]) == Some(n)
    ensures Parse(f, data[offset..]) == [data[offset..offset + n]] + Parse(f, data[offset + n..])
    ensures Tail(f, data[offset..]) == Tail(f, data[offset + n..])
  {
    assert data[offset..][..n] == data[offset..offset + n] && data[offset..][n..] == data[offset + n..];
  }

  /** End offsets of the complete variable-size records in `data`, starting with 0. */
  method ScanPartial(data: Bytes, fixedSize: nat) returns (ends: seq<nat>)
    requires fixedSize >= 1
    ensures ScanOf(Format(fixedSize, true), data, ends)
  {
    hide FirstRecord;
    ghost var f := Format(fixedSize, true);
    ends := [0];
    ghost var found: seq<Bytes> := [];
    assert data[0..] == data;
    var end := NextEnd(data, fixedSize, 0);
    while end.Some?
      invariant |ends| == |found| + 1 && ends[0] == 0
      invariant forall i :: 0 <= i < |ends| ==> ends[i] <= ends[|ends| - 1] <= |data|
      invariant forall i :: 0 <= i < |found| ==> ends[i] <= ends[i + 1] && data[ends[i]..ends[i + 1]] == found[i]
      invariant var rest := data[ends[|ends| - 1]..];
        && Parse(f, data) == found + Parse(f, rest) && Tail(f, data) == Tail(f, rest)
        && (match FirstRecord(f, rest) case None => end == None case Some(n) => end == Some(ends[|ends| - 1] + n))
      decreases |data| - ends[|ends| - 1]
    {
      var offset := ends[|ends| - 1];
      ParseAt(f, data, offset, end.value - offset);
      Assoc(found, [data[offset..end.value]], Parse(f, data[end.value..]));
      found := found + [data[offset..end.value]];
      ends := ends + [end.value];
      end := NextEnd(data, fixedSize, end.value);
    }
    assert found + [] == found;
  }

  /** Dividing by the record size finds the same records as scanning. */
  lemma {:induction false} FixedScan(fixedSize: nat, data: Bytes)
    requires fixedSize >= 1
    ensures
      var f, n := Format(fixedSize, false), |data| / fixedSize;
      && n * fixedSize <= |data| && |Parse(f, data)| == n && Tail(f, data) == data[n * fixedSize..]
      && forall i :: 0 <= i < n ==> RecordSlice(Fixed(fixedSize), data, i) == Some(Parse(f, data)[i])
    decreases |data|
  {
    hide RecordSlice;
    hide Parse;
    hide Tail;
    var f, n := Format(fixedSize, false), |data| / fixedSize;
    if fixedSize <= |data| {
      var rest := data[fixedSize..];
      FixedScan(fixedSize, rest);
      DivideOnce(|data|, fixedSize);
      FixedFirst(fixedSize, data);
      RestOfRest(data, fixedSize, (n - 1) * fixedSize);
      forall i | 0 <= i < n ensures RecordSlice(Fixed(fixedSize), data, i) == Some(Parse(f, data)[i]) {
        if i > 0 {
          assert RecordSlice(Fixed(fixedSize), rest, i - 1) == Some(Parse(f, rest)[i - 1]);
          FixedSliceShift(fixedSize, data, i, n);
        }
      }
    } else {
      DivideNone(|data|, fixedSize);
      FixedNone(fixedSize, data);
    }
  }

  lemma FixedFirst(fixedSize: nat, data: Bytes)
    requires 1 <= fixedSize <= |data|
    ensures
      var f := Format(fixedSize, false);
      && Parse(f, data) == [data[..fixedSize]] + Parse(f, data[fixedSize..])
      && Tail(f, data) == Tail(f, data[fixedSize..])
      && RecordSlice(Fixed(fixedSize), data, 0) == Some(data[..fixedSize])
  {
    var f := Format(fixedSize, false);
    assert FirstRecord(f, data) == Some(fixedSize);
    hide FirstRecord;
    assert Tail(f, data) == Tail(f, data[fixedSize..]) by { hide Parse; hide RecordSlice; }
    hide Tail;
    assert RecordSlice(Fixed(fixedSize), data, 0) == Some(data[..fixedSize]) by {
      hide Parse;
      FirstSlice(fixedSize, data);
    }
    hide RecordSlice;
  }

  lemma FirstSlice(fixedSize: nat, data: Bytes)
    requires fixedSize <= |data|
    ensures RecordSlice(Fixed(fixedSize), data, 0) == Some(data[..fixedSize])
  {
    assert data[0..fixedSize] == data[..fixedSize];
  }

  lemma FixedNone(fixedSize: nat, data: Bytes)
    requires 1 <= fixedSize && |data| < fixedSize
    ensures var f := Format(fixedSize, false); Parse(f, data) == [] && Tail(f, data) == data && data[0..] == data
  {
  }

  lemma FixedSliceShift(fixedSize: nat, data: Bytes, i: nat, n: nat)
    requires 1 <= fixedSize <= |data| && 0 < i < n && n * fixedSize <= |data|
    ensures RecordSlice(Fixed(fixedSize), data, i) == RecordSlice(Fixed(fixedSize), data[fixedSize..], i - 1)
  {
    MulStep(i - 1, fixedSize);
    MulBound(i, n, fixedSize);
    var start := (i - 1) * fixedSize;
    assert data[fixedSize..][start..start + fixedSize] == data[start + fixedSize..start + fixedSize + fixedSize];
  }

  lemma DivideOnce(a: nat, d: nat)
    requires 1 <= d <= a
    ensures a / d >= 1 && (a - d) / d == a / d - 1 && (a / d - 1) * d + d == a / d * d && a / d * d <= a
  {
    var q := a / d;
    assert a == q * d + a % d;
    assert a - d == (q - 1) * d + a % d;
    QuotientIs(a - d, d, q - 1, a % d);
  }

  lemma QuotientIs(a: int, d: nat, q: int, r: int)
    requires d >= 1 && a == q * d + r && 0 <= r < d
    ensures a / d == q
  {
    var q', r' := a / d, a % d;
    assert a == q' * d + r';
    assert (q - q') * d == r' - r;
    if q > q' {
      MulAtLeast(q - q', d);
    } else if q < q' {
      assert (q' - q) * d == -((q - q') * d);
      MulAtLeast(q' - q, d);
    }
  }

  lemma MulAtLeast(k: int, d: nat)
    requires k >= 1
    ensures k * d >= d
  {
    assert k * d == d + (k - 1) * d;
  }

  lemma DivideNone(a: nat, d: nat)
    requires a < d
    ensures a / d == 0 && a / d * d == 0
  {
  }

  lemma MulStep(i: nat, d: nat)
    ensures (i + 1) * d == i * d + d && i * d >= 0
  {
  }

  lemma MulBound(i: nat, n: nat, d: nat)
    requires i < n
    ensures i * d + d <= n * d
  {
    assert n * d == i * d + (n - i) * d;
    MulAtLeast(n - i, d);
  }

  // -- Telling record data from grid data --

  /** Up to `probes` consecutive records from the start of the block stay inside it. */
  function LooksLikeRecords(block: Bytes, fixedSize: nat, probes: nat): bool
    decreases probes
  {
    if probes == 0 || fixedSize + 4 > |block| then true
    else
      var end := fixedSize + 4 + FromU32Le(block[fixedSize..fixedSize + 4]);
      end <= |block| && LooksLikeRecords(block[end..], fixedSize, probes - 1)
  }

  const PROBES: nat := 3

  method IsRecordBlock(block: Bytes, fixedSize: nat) returns (r: bool)
    ensures r == LooksLikeRecords(block, fixedSize, PROBES)
  {
    var offset := 0;
    assert block[0..] == block;
    for k := 0 to PROBES
      invariant offset <= |block|
      invariant LooksLikeRecords(block, fixedSize, PROBES) == LooksLikeRecords(block[offset..], fixedSize, PROBES - k)
    {
      ghost var rest := block[offset..];
      if offset + fixedSize + 4 > |block| {
        return true;
      }
      var varStart := offset + fixedSize;
      assert rest[fixedSize..fixedSize + 4] == block[varStart..varStart + 4];
      var end := varStart + 4 + FromU32Le(block[varStart..varStart + 4]);
      if end > |block| {
        return false;
      }
      assert rest[end - offset..] == block[end..];
      offset := end;
    }
    return true;
  }
}
