// The block stream of a compact (E2) file: record blocks, blob blocks, skipped index blocks, and
// the records framed in each record block.

module E2Blocks {
  import opened Bytes
  import opened Fields

  /** Decompression of one block, None where it fails. */
  type Snappy = Bytes -> Option<Bytes>

  datatype Settings = Settings(dateFlag: bool, baseFive: bool)

  /** Guesses the settings of a file from its first record block that holds records. */
  type Detector = Bytes -> Settings

  const MAX_BLOCK_SIZE: nat := 0x2000_0000

  const MARKER: byte := 0x0A

  datatype Step =
    | End
    | Broken
    | BlobBlock(offset: nat, data: Bytes, next: nat)
    | RecordBlock(data: Bytes, next: nat)

  /** `size` bytes at `pos`, which must start with the marker, decompressed. */
  function Payload(raw: Bytes, pos: nat, size: nat, snappy: Snappy): Option<Bytes> {
    if size > MAX_BLOCK_SIZE || pos + size > |raw| || size == 0 || raw[pos] != MARKER then None
    else snappy(raw[pos + 1..pos + size])
  }

  /** The next block at `pos` that is not an index block. */
  function ReadBlock(raw: Bytes, pos: nat, snappy: Snappy): (step: Step)
    ensures step.BlobBlock? || step.RecordBlock? ==> pos < step.next <= |raw|
    ensures step.BlobBlock? ==> pos <= step.offset < |raw|
    decreases |raw| - pos
  {
    if pos >= |raw| || raw[pos] == 0x00 then End
    else if raw[pos] > 0x04 || pos + 5 > |raw| then Broken
    else
      var size := FromU32Le(raw[pos + 1..pos + 5]);
      if raw[pos] == 0x01 then
        var data := Payload(raw, pos + 25, size, snappy);
        if data == None then Broken else BlobBlock(pos, data.value, pos + 25 + size)
      else if raw[pos] == 0x02 then
        var data := Payload(raw, pos + 5, size, snappy);
        if data == None then Broken else RecordBlock(data.value, pos + 5 + size)
      else if size > MAX_BLOCK_SIZE || pos + 9 + size > |raw| then Broken
      else ReadBlock(raw, pos + 9 + size, snappy)
  }

  // -- What a stored block is made of --

  function StoredRecords(z: Bytes): (b: Bytes)
    ensures |b| == 6 + |z|
  {
    [0x02] + U32Le(|z| + 1) + ([MARKER] + z)
  }

  /** `front` is 20 bytes that are not read: a size and a hash. */
  function StoredBlob(front: Bytes, z: Bytes): (b: Bytes)
    requires |front| == 20
    ensures |b| == 26 + |z|
  {
    [0x01] + U32Le(|z| + 1) + (front + ([MARKER] + z))
  }

  function StoredIndex(kind: byte, inner: Bytes, body: Bytes): (b: Bytes)
    requires |inner| == 4
    ensures |b| == 9 + |body|
  {
    [kind] + U32Le(|body|) + (inner + body)
  }

  /** Type byte and size in front of a block. */
  lemma SizeAt(raw: Bytes, front: Bytes, kind: byte, size: nat, body: Bytes, rest: Bytes)
    requires raw == front + ([kind] + U32Le(size) + body) + rest && size < TWO_32
    ensures var pos := |front|;
      && pos + 5 + |body| <= |raw| && raw[pos] == kind && FromU32Le(raw[pos + 1..pos + 5]) == size
      && raw[pos + 5..pos + 5 + |body|] == body
  {
    hide U32Le;
    hide FromU32Le;
    var pos := |front|;
    var block := [kind] + U32Le(size) + body;
    MiddleSlice(front, block, rest);
    assert raw[pos..pos + |block|] == block;
    assert block[0] == kind && block[1..5] == U32Le(size) && block[5..] == body;
    assert raw[pos + 1..pos + 5] == raw[pos..pos + |block|][1..5];
    assert raw[pos + 5..pos + 5 + |body|] == raw[pos..pos + |block|][5..];
    U32RoundTrip(size);
  }

  lemma PayloadAt(raw: Bytes, pos: nat, z: Bytes, snappy: Snappy)
    requires pos + 1 + |z| <= |raw| && raw[pos..pos + 1 + |z|] == [MARKER] + z && |z| < MAX_BLOCK_SIZE
    ensures Payload(raw, pos, |z| + 1, snappy) == snappy(z)
  {
    assert raw[pos..pos + 1 + |z|][0] == MARKER;
    assert raw[pos + 1..pos + 1 + |z|] == raw[pos..pos + 1 + |z|][1..];
    assert ([MARKER] + z)[1..] == z;
  }

  /** Every stored block is read as what it is, wherever it stands; index blocks are passed over. */
  lemma RecordBlockReadBack(front: Bytes, z: Bytes, rest: Bytes, snappy: Snappy)
    requires |z| < MAX_BLOCK_SIZE && snappy(z).Some?
    ensures ReadBlock(front + StoredRecords(z) + rest, |front|, snappy)
      == RecordBlock(snappy(z).value, |front| + 6 + |z|)
  {
    hide FromU32Le;
    hide Payload;
    var raw := front + StoredRecords(z) + rest;
    SizeAt(raw, front, 0x02, |z| + 1, [MARKER] + z, rest);
    PayloadAt(raw, |front| + 5, z, snappy);
    hide StoredRecords;
  }

  lemma BlobBlockReadBack(front: Bytes, inner: Bytes, z: Bytes, rest: Bytes, snappy: Snappy)
    requires |inner| == 20 && |z| < MAX_BLOCK_SIZE && snappy(z).Some?
    ensures ReadBlock(front + StoredBlob(inner, z) + rest, |front|, snappy)
      == BlobBlock(|front|, snappy(z).value, |front| + 26 + |z|)
  {
    hide FromU32Le;
    hide Payload;
    var raw, pos, body := front + StoredBlob(inner, z) + rest, |front|, inner + ([MARKER] + z);
    SizeAt(raw, front, 0x01, |z| + 1, body, rest);
    assert raw[pos + 25..pos + 26 + |z|] == raw[pos + 5..pos + 5 + |body|][20..] == [MARKER] + z;
    PayloadAt(raw, pos + 25, z, snappy);
    hide StoredBlob;
  }

  lemma IndexBlockPassed(raw: Bytes, front: Bytes, kind: byte, inner: Bytes, body: Bytes, rest: Bytes, snappy: Snappy)
    requires (kind == 0x03 || kind == 0x04) && |inner| == 4 && |body| <= MAX_BLOCK_SIZE
    requires raw == front + StoredIndex(kind, inner, body) + rest
    ensures ReadBlock(raw, |front|, snappy) == ReadBlock(raw, |front| + 9 + |body|, snappy)
  {
    hide *;
    IndexAt(raw, front, kind, inner, body, rest);
    IndexStep(raw, |front|, snappy, |body|);
  }

  lemma IndexAt(raw: Bytes, front: Bytes, kind: byte, inner: Bytes, body: Bytes, rest: Bytes)
    requires |inner| == 4 && |body| <= MAX_BLOCK_SIZE && raw == front + StoredIndex(kind, inner, body) + rest
    ensures var pos := |front|;
      pos + 9 + |body| <= |raw| && raw[pos] == kind && FromU32Le(raw[pos + 1..pos + 5]) == |body|
  {
    hide *;
    IndexIs(kind, inner, body);
    SizeAt(raw, front, kind, |body|, inner + body, rest);
    assert |inner + body| == 4 + |body|;
  }

  lemma IndexIs(kind: byte, inner: Bytes, body: Bytes)
    requires |inner| == 4
    ensures StoredIndex(kind, inner, body) == [kind] + U32Le(|body|) + (inner + body)
    ensures |body| <= MAX_BLOCK_SIZE ==> |body| < TWO_32
  {
  }

  lemma IndexStep(raw: Bytes, pos: nat, snappy: Snappy, size: nat)
    requires pos + 9 + size <= |raw| && (raw[pos] == 0x03 || raw[pos] == 0x04)
    requires FromU32Le(raw[pos + 1..pos + 5]) == size && size <= MAX_BLOCK_SIZE
    ensures ReadBlock(raw, pos, snappy) == ReadBlock(raw, pos + 9 + size, snappy)
  {
    hide FromU32Le;
    hide Payload;
  }

  // -- Records of a block --

  datatype Span = Span(offset: nat, length: nat)

  function FrameRest(data: Bytes, pos: nat, count: nat): (spans: Option<seq<Span>>)
    ensures spans.Some? ==> |spans.value| == count && InBlock(data, spans.value)
    decreases count
  {
    if count == 0 then Some([])
    else if pos + 4 > |data| then None
    else
      var size := FromU32Le(data[pos..pos + 4]) % TWO_31;
      if pos + 4 + size > |data| then None
      else
        var rest := FrameRest(data, pos + 4 + size, count - 1);
        if rest == None then None else Some([Span(pos + 4, size)] + rest.value)
  }

  predicate InBlock(data: Bytes, spans: seq<Span>) {
    forall i :: 0 <= i < |spans| ==> spans[i].offset + spans[i].length <= |data|
  }

  function FrameSpans(data: Bytes): (spans: Option<seq<Span>>)
    ensures spans.Some? ==> |data| >= 12 && |spans.value| == FromU32Le(data[4..8]) && InBlock(data, spans.value)
  {
    if |data| < 12 then None
    else
      var count, first := FromU32Le(data[4..8]), FromU32Le(data[8..12]) % TWO_31;
      if count == 0 then Some([])
      else if 12 + first > |data| then None
      else
        var rest := FrameRest(data, 12 + first, count - 1);
        if rest == None then None else Some([Span(12, first)] + rest.value)
  }

  method FrameRecordSpans(data: Bytes) returns (spans: Option<seq<Span>>)
    ensures spans == FrameSpans(data)
  {
    hide FromU32Le;
    hide FrameRest;
    if |data| < 12 {
      return None;
    }
    var count, first := FromU32Le(data[4..8]), FromU32Le(data[8..12]) % TWO_31;
    if count == 0 {
      return Some([]);
    }
    if 12 + first > |data| {
      return None;
    }
    spans := FrameOthers(data, [Span(12, first)], 12 + first, count - 1);
  }

  /** The records behind the first one. */
  method FrameOthers(data: Bytes, first: seq<Span>, start: nat, others: nat) returns (spans: Option<seq<Span>>)
    ensures spans == Chain(first, FrameRest(data, start, others))
  {
    hide FromU32Le;
    hide FrameRest;
    hide Chain;
    var records, pos: nat, i: nat := first, start, 0;
    while i < others
      invariant i <= others
      invariant Chain(records, FrameRest(data, pos, others - i)) == Chain(first, FrameRest(data, start, others))
    {
      FrameRestStep(data, pos, others - i);
      if pos + 4 > |data| {
        ChainNone(records);
        return None;
      }
      var size := FromU32Le(data[pos..pos + 4]) % TWO_31;
      if pos + 4 + size > |data| {
        ChainNone(records);
        return None;
      }
      ChainNext(records, Span(pos + 4, size), FrameRest(data, pos + 4 + size, others - i - 1));
      records := records + [Span(pos + 4, size)];
      pos := pos + 4 + size;
      i := i + 1;
    }
    NoneLeft(data, pos, records);
    spans := Some(records);
  }

  lemma ChainNone(front: seq<Span>)
    ensures Chain(front, None) == None
  {
  }

  lemma NoneLeft(data: Bytes, pos: nat, records: seq<Span>)
    ensures Chain(records, FrameRest(data, pos, 0)) == Some(records)
  {
    assert records + [] == records;
  }

  function Chain(front: seq<Span>, rest: Option<seq<Span>>): Option<seq<Span>> {
    if rest == None then None else Some(front + rest.value)
  }

  lemma ChainNext(front: seq<Span>, span: Span, rest: Option<seq<Span>>)
    ensures Chain(front, Chain([span], rest)) == Chain(front + [span], rest)
  {
    if rest.Some? {
      assert front + ([span] + rest.value) == front + [span] + rest.value;
    }
  }

  function Slices(data: Bytes, spans: seq<Span>): (r: seq<Bytes>)
    requires InBlock(data, spans)
    ensures |r| == |spans|
  {
    seq(|spans|, i requires 0 <= i < |spans| => data[spans[i].offset..spans[i].offset + spans[i].length])
  }

  /** Records of a block, None if it does not frame. */
  function FrameRecords(data: Bytes): (records: Option<seq<Bytes>>) {
    var spans := FrameSpans(data);
    if spans == None then None else Some(Slices(data, spans.value))
  }

  // -- What a record block is made of --

  /** Records one after the other, each behind its size; the top bit of a size means nothing. */
  function Sized(records: seq<Bytes>, marks: seq<bool>): Bytes
    requires |records| == |marks|
  {
    if records == [] then []
    else U32Le(|records[0]| + (if marks[0] then TWO_31 else 0)) + records[0] + Sized(records[1..], marks[1..])
  }

  /** A record block: 4 bytes that are not read, the record count, and the records behind their sizes. */
  function BlockBytes(front: Bytes, records: seq<Bytes>, marks: seq<bool>, rest: Bytes): Bytes
    requires |front| == 4 && |records| == |marks|
  {
    front + U32Le(|records|) + Sized(records, marks) + rest
  }

  predicate Storable(records: seq<Bytes>) {
    |records| < TWO_32 && forall i :: 0 <= i < |records| ==> |records[i]| < TWO_31
  }

  lemma SizeReadBack(n: nat, mark: bool)
    requires n < TWO_31
    ensures FromU32Le(U32Le(n + (if mark then TWO_31 else 0))) % TWO_31 == n
  {
    hide FromU32Le;
    hide U32Le;
    U32RoundTrip(n + (if mark then TWO_31 else 0));
  }

  lemma {:induction false} RestReadBack(front: Bytes, records: seq<Bytes>, marks: seq<bool>, rest: Bytes)
    requires |records| == |marks| && forall i :: 0 <= i < |records| ==> |records[i]| < TWO_31
    ensures var data := front + Sized(records, marks) + rest; var spans := FrameRest(data, |front|, |records|);
      spans.Some? && Slices(data, spans.value) == records
    decreases |records|
  {
    hide FromU32Le;
    hide U32Le;
    hide FrameRest;
    hide Slices;
    if records == [] {
      FrameNothing(front + Sized(records, marks) + rest, |front|);
    } else {
      hide Sized;
      var n := |records[0]|;
      var size := U32Le(n + (if marks[0] then TWO_31 else 0));
      var data, front' := front + Sized(records, marks) + rest, front + size + records[0];
      SizeReadBack(n, marks[0]);
      SizedParts(front, records, marks, rest);
      RestReadBack(front', records[1..], marks[1..], rest);
      FrameRestStep(data, |front|, |records|);
      SlicesCons(data, Span(|front| + 4, n), FrameRest(data, |front'|, |records| - 1).value);
      assert [records[0]] + records[1..] == records;
    }
  }

  lemma SizedParts(front: Bytes, records: seq<Bytes>, marks: seq<bool>, rest: Bytes)
    requires |records| == |marks| && records != []
    ensures var size, tail := U32Le(|records[0]| + (if marks[0] then TWO_31 else 0)), Sized(records[1..], marks[1..]);
      var data, at := front + Sized(records, marks) + rest, |front| + 4;
      && at + |records[0]| <= |data| && data[|front|..at] == size && data[at..at + |records[0]|] == records[0]
      && data == front + size + records[0] + tail + rest
  {
    hide U32Le;
    var size, tail := U32Le(|records[0]| + (if marks[0] then TWO_31 else 0)), Sized(records[1..], marks[1..]);
    assert Sized(records, marks) == size + records[0] + tail;
    var record := records[0];
    hide Sized;
    Regroup(front, size, record, tail, rest);
    MiddleSlice(front, size, record + tail + rest);
    MiddleSlice(front + size, record, tail + rest);
  }

  lemma Regroup(a: Bytes, b: Bytes, c: Bytes, d: Bytes, e: Bytes)
    ensures a + (b + c + d) + e == a + b + (c + d + e)
    ensures a + (b + c + d) + e == (a + b) + c + (d + e)
    ensures a + (b + c + d) + e == a + b + c + d + e
  {
    assert a + (b + c + d) == a + b + c + d;
    Assoc(a + b + c, d, e);
    Assoc(a + b, c, d + e);
    Assoc(c, d, e);
  }

  lemma FrameNothing(data: Bytes, pos: nat)
    ensures FrameRest(data, pos, 0) == Some([]) && Slices(data, []) == []
  {
  }

  lemma FrameRestStep(data: Bytes, pos: nat, count: nat)
    requires count > 0
    ensures pos + 4 > |data| ==> FrameRest(data, pos, count) == None
    ensures pos + 4 <= |data| ==>
      var size := FromU32Le(data[pos..pos + 4]) % TWO_31;
      FrameRest(data, pos, count) ==
        if pos + 4 + size > |data| then None
        else Chain([Span(pos + 4, size)], FrameRest(data, pos + 4 + size, count - 1))
  {
    hide FromU32Le;
  }

  lemma SlicesCons(data: Bytes, span: Span, spans: seq<Span>)
    requires span.offset + span.length <= |data| && InBlock(data, spans)
    ensures InBlock(data, [span] + spans)
    ensures Slices(data, [span] + spans) == [data[span.offset..span.offset + span.length]] + Slices(data, spans)
  {
  }

  /** The records of a block are read back from it, whatever follows them. */
  lemma BlockReadBack(front: Bytes, records: seq<Bytes>, marks: seq<bool>, rest: Bytes)
    requires |front| == 4 && |records| == |marks| && Storable(records) && (records == [] ==> |rest| >= 4)
    ensures FrameRecords(BlockBytes(front, records, marks, rest)) == Some(records)
  {
    hide FromU32Le;
    hide U32Le;
    var data := BlockBytes(front, records, marks, rest);
    U32RoundTrip(|records|);
    assert data == front + U32Le(|records|) + (Sized(records, marks) + rest);
    MiddleSlice(front, U32Le(|records|), Sized(records, marks) + rest);
    if records != [] {
      RestReadBack(front + U32Le(|records|), records, marks, rest);
      hide Sized;
      hide FrameRest;
      FirstIsRest(data, |records|);
    } else {
      assert Slices(data, []) == [];
    }
  }

  /** The first record is framed as the others are. */
  lemma FirstIsRest(data: Bytes, count: nat)
    requires |data| >= 12 && count > 0 && FromU32Le(data[4..8]) == count
    ensures FrameSpans(data) == FrameRest(data, 8, count)
  {
    hide FromU32Le;
  }

  // -- Records of a file, each with what was known when its block was read --

  datatype Env = Env(blobs: map<nat, Bytes>, lastBlob: Option<nat>, settings: Option<Settings>)

  /** A record, what was known when its block was read, and where the search for that block began. */
  datatype Framed = Framed(record: Bytes, env: Env, at: nat)

  datatype Listing = Listing(items: seq<Framed>, clean: bool)

  /** The settings are guessed once, from the first record block; if that has no records, they keep their defaults. */
  function Detect(env: Env, data: Bytes, records: seq<Bytes>, detect: Detector): Env {
    if env.settings.Some? then env
    else env.(settings := Some(if records == [] then Settings(false, false) else detect(data)))
  }

  function AddBlob(env: Env, offset: nat, data: Bytes): Env {
    env.(blobs := env.blobs[offset := data], lastBlob := Some(offset))
  }

  function WithEnv(records: seq<Bytes>, env: Env, at: nat): (items: seq<Framed>)
    ensures |items| == |records|
  {
    seq(|records|, i requires 0 <= i < |records| => Framed(records[i], env, at))
  }

  /** All records from `pos` on in file order; `clean` says that the stream ends without an error. */
  function Records(raw: Bytes, pos: nat, env: Env, snappy: Snappy, detect: Detector): Listing
    decreases |raw| - pos
  {
    var step := ReadBlock(raw, pos, snappy);
    match step
    case End => Listing([], true)
    case Broken => Listing([], false)
    case BlobBlock(offset, data, next) => Records(raw, next, AddBlob(env, offset, data), snappy, detect)
    case RecordBlock(data, next) =>
      var records := FrameRecords(data);
      if records == None then Listing([], false)
      else
        var env' := Detect(env, data, records.value, detect);
        var rest := Records(raw, next, env', snappy, detect);
        Listing(WithEnv(records.value, env', pos) + rest.items, rest.clean)
  }

  /** The reader's count of records: the declared counts, without framing the blocks. */
  function DeclaredCount(raw: Bytes, pos: nat, snappy: Snappy): Option<nat>
    decreases |raw| - pos
  {
    var step := ReadBlock(raw, pos, snappy);
    match step
    case End => Some(0)
    case Broken => None
    case BlobBlock(_, _, next) => DeclaredCount(raw, next, snappy)
    case RecordBlock(data, next) =>
      var rest := DeclaredCount(raw, next, snappy);
      if |data| < 8 || rest == None then None else Some(FromU32Le(data[4..8]) + rest.value)
  }

  method CountRecords(raw: Bytes, start: nat, snappy: Snappy) returns (total: Option<nat>)
    ensures total == DeclaredCount(raw, start, snappy)
  {
    hide ReadBlock;
    hide FromU32Le;
    var pos: nat, sum: nat := start, 0;
    while true
      invariant Plus(sum, DeclaredCount(raw, pos, snappy)) == DeclaredCount(raw, start, snappy)
      decreases |raw| - pos
    {
      var step := ReadBlock(raw, pos, snappy);
      match step {
        case End => return Some(sum);
        case Broken => return None;
        case BlobBlock(_, _, next) => pos := next;
        case RecordBlock(data, next) =>
          if |data| < 8 {
            return None;
          }
          sum := sum + FromU32Le(data[4..8]);
          pos := next;
      }
    }
  }

  function Plus(sum: nat, rest: Option<nat>): Option<nat> {
    if rest == None then None else Some(sum + rest.value)
  }

  /** On a clean file the declared count is the number of records there are. */
  lemma {:induction false} CountIsExact(raw: Bytes, pos: nat, env: Env, snappy: Snappy, detect: Detector)
    ensures var all := Records(raw, pos, env, snappy, detect);
      all.clean ==> DeclaredCount(raw, pos, snappy) == Some(|all.items|)
    decreases |raw| - pos
  {
    hide ReadBlock;
    hide FrameSpans;
    var step := ReadBlock(raw, pos, snappy);
    match step
    case End =>
    case Broken =>
    case BlobBlock(offset, data, next) =>
      CountIsExact(raw, next, AddBlob(env, offset, data), snappy, detect);
    case RecordBlock(data, next) =>
      var records := FrameRecords(data);
      if records.Some? {
        CountIsExact(raw, next, Detect(env, data, records.value, detect), snappy, detect);
      }
  }

  // -- Blobs come before the records that refer to them --

  /** The blob that the stream holds at `offset`. */
  predicate BlobAt(raw: Bytes, snappy: Snappy, offset: nat, data: Bytes) {
    ReadBlock(raw, offset, snappy).BlobBlock?
    && ReadBlock(raw, offset, snappy).offset == offset && ReadBlock(raw, offset, snappy).data == data
  }

  /** All known blobs stand before `pos`, and the last one is the latest of them. */
  predicate BlobsBefore(raw: Bytes, snappy: Snappy, env: Env, pos: nat) {
    && (forall o :: o in env.blobs ==> o < pos && BlobAt(raw, snappy, o, env.blobs[o]))
    && (env.lastBlob == None <==> env.blobs == map[])
    && (env.lastBlob.Some?
       ==> env.lastBlob.value in env.blobs && forall o :: o in env.blobs ==> o <= env.lastBlob.value)
  }

  lemma {:induction false} BlockStart(raw: Bytes, pos: nat, snappy: Snappy)
    ensures var step := ReadBlock(raw, pos, snappy); step.BlobBlock? ==> BlobAt(raw, snappy, step.offset, step.data)
    decreases |raw| - pos
  {
    hide FromU32Le;
    hide Payload;
    if pos + 5 <= |raw| && 0x02 < raw[pos] <= 0x04 {
      var size := FromU32Le(raw[pos + 1..pos + 5]);
      if size <= MAX_BLOCK_SIZE && pos + 9 + size <= |raw| {
        BlockStart(raw, pos + 9 + size, snappy);
      }
    }
  }

  lemma AddedBefore(raw: Bytes, pos: nat, snappy: Snappy, env: Env)
    requires ReadBlock(raw, pos, snappy).BlobBlock? && BlobsBefore(raw, snappy, env, pos)
    ensures
      var step := ReadBlock(raw, pos, snappy);
      BlobsBefore(raw, snappy, AddBlob(env, step.offset, step.data), step.next)
  {
    BlockStart(raw, pos, snappy);
    NextIsAfter(raw, pos, snappy);
    hide ReadBlock;
    hide BlobAt;
    var step := ReadBlock(raw, pos, snappy);
    var env' := AddBlob(env, step.offset, step.data);
    assert step.offset in env'.blobs;
    forall o | o in env'.blobs ensures o < step.next && o <= step.offset && BlobAt(raw, snappy, o, env'.blobs[o]) {
      assert o == step.offset || o in env.blobs;
    }
  }

  lemma {:induction false} NextIsAfter(raw: Bytes, pos: nat, snappy: Snappy)
    ensures var step := ReadBlock(raw, pos, snappy); step.BlobBlock? ==> pos <= step.offset < step.next
    decreases |raw| - pos
  {
    hide FromU32Le;
    hide Payload;
    if pos + 5 <= |raw| && 0x02 < raw[pos] <= 0x04 {
      var size := FromU32Le(raw[pos + 1..pos + 5]);
      if size <= MAX_BLOCK_SIZE && pos + 9 + size <= |raw| {
        NextIsAfter(raw, pos + 9 + size, snappy);
      }
    }
  }

  /** Every record sees exactly blobs that stand before its block, the last one being the latest. */
  lemma {:induction false} BlobsComeFirst(raw: Bytes, pos: nat, env: Env, snappy: Snappy, detect: Detector, k: nat)
    requires BlobsBefore(raw, snappy, env, pos) && k < |Records(raw, pos, env, snappy, detect).items|
    ensures
      var item := Records(raw, pos, env, snappy, detect).items[k];
      pos <= item.at && BlobsBefore(raw, snappy, item.env, item.at)
    decreases |raw| - pos
  {
    hide ReadBlock;
    hide BlobsBefore;
    hide FrameSpans;
    var step := ReadBlock(raw, pos, snappy);
    match step
    case End =>
    case Broken =>
    case BlobBlock(offset, data, next) =>
      AddedBefore(raw, pos, snappy, env);
      BlobsComeFirst(raw, next, AddBlob(env, offset, data), snappy, detect, k);
    case RecordBlock(data, next) =>
      var records := FrameRecords(data);
      if records.Some? {
        var env' := Detect(env, data, records.value, detect);
        SameBlobs(raw, snappy, env, env', pos, next);
        if k >= |records.value| {
          BlobsComeFirst(raw, next, env', snappy, detect, k - |records.value|);
        }
      }
  }

  lemma SameBlobs(raw: Bytes, snappy: Snappy, env: Env, env': Env, pos: nat, next: nat)
    requires BlobsBefore(raw, snappy, env, pos) && pos <= next && env.blobs == env'.blobs
    requires env.lastBlob == env'.lastBlob
    ensures BlobsBefore(raw, snappy, env', pos) && BlobsBefore(raw, snappy, env', next)
  {
    hide BlobAt;
  }
}
