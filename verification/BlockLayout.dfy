// The E1 file layout: which blocks a record sequence is cut into, the record block index, and the
// bytes of the finished file.

module BlockLayout {
  import opened Bytes
  import Lzf

  const BLOCK_SIZE: nat := 0x4_0000
  const RECORDS_PER_BLOCK: nat := 0x1_0000

  // -- Cutting records into blocks --

  /**
    * What has been emitted so far: the block being filled, the finished blocks, and for every
    * index entry the number of blocks that were finished when it was taken.
    */
  datatype Emit = Emit(buf: Bytes, blocks: seq<Bytes>, marks: seq<nat>)

  function Flush(e: Emit): Emit {
    if e.buf == [] then e else e.(buf := [], blocks := e.blocks + [e.buf])
  }

  /** Before record `row`: every 65536 records the block is closed and an index entry taken. */
  function Boundary(e: Emit, row: nat): Emit {
    if row > 0 && row % RECORDS_PER_BLOCK == 0 then
      var f := Flush(e);
      f.(marks := f.marks + [|f.blocks|])
    else e
  }

  /** A record that does not fit behind what is already buffered starts a new block. */
  function MakeRoom(e: Emit, rec: Bytes): Emit {
    if |e.buf| + |rec| > BLOCK_SIZE && e.buf != [] then Flush(e) else e
  }

  /** Append record data, closing the block whenever it is full and data remains. */
  function Fill(e: Emit, rest: Bytes): Emit
    requires |e.buf| <= BLOCK_SIZE
    decreases |rest| + |e.buf|
  {
    var space := BLOCK_SIZE - |e.buf|;
    if |rest| <= space then e.(buf := e.buf + rest)
    else Fill(Emit([], e.blocks + [e.buf + rest[..space]], e.marks), rest[space..])
  }

  function AddRecord(e: Emit, row: nat, rec: Bytes): Emit
    requires |e.buf| <= BLOCK_SIZE
  {
    Fill(MakeRoom(Boundary(e, row), rec), rec)
  }

  function EmitAll(records: seq<Bytes>): (e: Emit)
    ensures |e.buf| <= BLOCK_SIZE
    decreases |records|
  {
    if records == [] then Emit([], [], [0])
    else
      var n := |records| - 1;
      FillKeepsSize(MakeRoom(Boundary(EmitAll(records[..n]), n), records[n]), records[n]);
      AddRecord(EmitAll(records[..n]), n, records[n])
  }

  /** One turn of the split loop. */
  lemma FillStep(e: Emit, rest: Bytes)
    requires |e.buf| <= BLOCK_SIZE
    ensures var space := BLOCK_SIZE - |e.buf|;
      Fill(e, rest) == if |rest| <= space then e.(buf := e.buf + rest)
        else Fill(Emit([], e.blocks + [e.buf + rest[..space]], e.marks), rest[space..])
  {
  }

  lemma EmitNext(records: seq<Bytes>, rec: Bytes)
    ensures EmitAll(records + [rec]) == AddRecord(EmitAll(records), |records|, rec)
  {
    assert (records + [rec])[..|records|] == records;
  }

  lemma {:induction false} FillKeepsSize(e: Emit, rest: Bytes)
    requires |e.buf| <= BLOCK_SIZE
    ensures |Fill(e, rest).buf| <= BLOCK_SIZE
    decreases |rest| + |e.buf|
  {
    var space := BLOCK_SIZE - |e.buf|;
    if |rest| > space {
      FillKeepsSize(Emit([], e.blocks + [e.buf + rest[..space]], e.marks), rest[space..]);
    }
  }

  // -- No byte is lost, moved or repeated --

  /** All data emitted so far, in order. */
  function Data(e: Emit): Bytes {
    Flatten(e.blocks) + e.buf
  }

  ghost predicate BlocksFit(e: Emit) {
    |e.buf| <= BLOCK_SIZE && forall i :: 0 <= i < |e.blocks| ==> 0 < |e.blocks[i]| <= BLOCK_SIZE
  }

  lemma FlushKeeps(e: Emit)
    requires BlocksFit(e)
    ensures BlocksFit(Flush(e)) && Flush(e).buf == [] && Flatten(Flush(e).blocks) == Data(e)
    ensures e.blocks <= Flush(e).blocks && Flush(e).marks == e.marks
  {
    if e.buf == [] {
      assert Data(e) == Flatten(e.blocks);
    } else {
      FlattenAppend(e.blocks, e.buf);
    }
  }

  lemma {:induction false} FillKeeps(e: Emit, rest: Bytes)
    requires BlocksFit(e) && (e.buf == [] || |e.buf| + |rest| <= BLOCK_SIZE)
    ensures var f := Fill(e, rest);
      BlocksFit(f) && Data(f) == Data(e) + rest && e.blocks <= f.blocks && f.marks == e.marks
    decreases |rest|
  {
    var space := BLOCK_SIZE - |e.buf|;
    if |rest| <= space {
      assert Flatten(e.blocks) + (e.buf + rest) == Flatten(e.blocks) + e.buf + rest;
    } else {
      var block := e.buf + rest[..space];
      var next := Emit([], e.blocks + [block], e.marks);
      FlattenAppend(e.blocks, block);
      FillKeeps(next, rest[space..]);
      assert Data(next) + rest[space..] == Data(e) + rest by {
        assert block + rest[space..] == e.buf + rest;
        assert Data(next) == Flatten(e.blocks) + block;
        assert Flatten(e.blocks) + block + rest[space..] == Flatten(e.blocks) + (block + rest[space..]);
        assert Flatten(e.blocks) + e.buf + rest == Flatten(e.blocks) + (e.buf + rest);
      }
    }
  }

  lemma AddRecordKeeps(e: Emit, row: nat, rec: Bytes)
    requires BlocksFit(e)
    ensures var b, f := Boundary(e, row), AddRecord(e, row, rec);
      && BlocksFit(f) && Data(f) == Data(e) + rec && f.marks == b.marks && e.blocks <= b.blocks <= f.blocks
  {
    FlushKeeps(e);
    var b := Boundary(e, row);
    assert BlocksFit(b) && Data(b) == Data(e) && e.blocks <= b.blocks;
    FlushKeeps(b);
    var m := MakeRoom(b, rec);
    assert BlocksFit(m) && Data(m) == Data(e) && b.blocks <= m.blocks;
    FillKeeps(m, rec);
  }

  // -- The record block index --

  /** One entry for the start of the data and one for every further 65536 records. */
  function IndexLength(n: nat): nat {
    if n == 0 then 1 else (n - 1) / RECORDS_PER_BLOCK + 1
  }

  /** Entry `k` was taken just when the finished blocks held exactly the records before `k * 65536`. */
  ghost predicate MarkAt(records: seq<Bytes>, e: Emit, k: nat) {
    && k < |e.marks| && e.marks[k] <= |e.blocks| && k * RECORDS_PER_BLOCK <= |records|
    && Flatten(e.blocks[..e.marks[k]]) == Flatten(records[..k * RECORDS_PER_BLOCK])
  }

  ghost predicate MarksHold(records: seq<Bytes>, e: Emit) {
    forall k :: 0 <= k < |e.marks| ==> MarkAt(records, e, k)
  }

  lemma {:induction false} EmitAllKeeps(records: seq<Bytes>)
    ensures var e := EmitAll(records);
      && BlocksFit(e) && Data(e) == Flatten(records) && |e.marks| == IndexLength(|records|) && MarksHold(records, e)
    decreases |records|
  {
    if records == [] {
      var e := EmitAll(records);
      assert Flatten(e.blocks[..0]) == Flatten(records[..0]);
      assert MarkAt(records, e, 0);
    } else {
      var n := |records| - 1;
      var d, e := EmitAll(records[..n]), EmitAll(records);
      EmitAllKeeps(records[..n]);
      AddRecordKeeps(d, n, records[n]);
      assert records == records[..n] + [records[n]];
      FlattenAppend(records[..n], records[n]);
      MarksKeep(records, d, e);
    }
  }

  lemma MarksKeep(records: seq<Bytes>, d: Emit, e: Emit)
    requires records != []
    requires var n := |records| - 1; d == EmitAll(records[..n]) && e == AddRecord(d, n, records[n])
    requires BlocksFit(d) && Data(d) == Flatten(records[..|records| - 1]) && |d.marks| == IndexLength(|records| - 1)
    requires MarksHold(records[..|records| - 1], d)
    ensures |e.marks| == IndexLength(|records|) && MarksHold(records, e)
  {
    var n := |records| - 1;
    AddRecordKeeps(d, n, records[n]);
    var b := Boundary(d, n);
    FlushKeeps(d);
    BoundaryCount(n);
    forall k | 0 <= k < |e.marks| ensures MarkAt(records, e, k) {
      if k < |d.marks| {
        assert MarkAt(records[..n], d, k);
        assert e.blocks[..e.marks[k]] == d.blocks[..d.marks[k]];
        assert records[..n][..k * RECORDS_PER_BLOCK] == records[..k * RECORDS_PER_BLOCK];
      } else {
        assert e.marks[k] == |b.blocks| && e.blocks[..|b.blocks|] == b.blocks;
        assert k * RECORDS_PER_BLOCK == n;
      }
    }
  }

  /** An index entry is added exactly before the records whose number is a positive multiple of 65536. */
  lemma BoundaryCount(n: nat)
    ensures IndexLength(n + 1) == IndexLength(n) + if n > 0 && n % RECORDS_PER_BLOCK == 0 then 1 else 0
    ensures n > 0 && n % RECORDS_PER_BLOCK == 0 ==> IndexLength(n) * RECORDS_PER_BLOCK == n
  {
  }

  // -- Bytes on disk --

  /** A block as stored: a 4-byte length, its high bit set for data kept uncompressed, then the payload. */
  function Frame(raw: Bytes): (r: Bytes)
    ensures 4 <= |r|
  {
    match Lzf.Compressed(raw)
    case Some(c) => U32Le(|c|) + c
    case None => U32Le(|raw| % TWO_31 + TWO_31) + raw
  }

  function Frames(blocks: seq<Bytes>): seq<Bytes> {
    seq(|blocks|, i requires 0 <= i < |blocks| => Frame(blocks[i]))
  }

  function Stream(blocks: seq<Bytes>): Bytes {
    Flatten(Frames(blocks))
  }

  lemma StreamAppend(blocks: seq<Bytes>, raw: Bytes)
    ensures Stream(blocks + [raw]) == Stream(blocks) + Frame(raw)
  {
    assert Frames(blocks + [raw]) == Frames(blocks) + [Frame(raw)];
    FlattenAppend(Frames(blocks), Frame(raw));
  }

  lemma StreamSplit(blocks: seq<Bytes>, k: nat)
    requires k <= |blocks|
    ensures Stream(blocks) == Stream(blocks[..k]) + Stream(blocks[k..])
  {
    assert Frames(blocks) == Frames(blocks[..k]) + Frames(blocks[k..]);
    FlattenConcat(Frames(blocks[..k]), Frames(blocks[k..]));
  }

  /** File offset of block number `k`. */
  function Position(dataStart: nat, blocks: seq<Bytes>, k: nat): nat
    requires k <= |blocks|
  {
    dataStart + |Stream(blocks[..k])|
  }

  predicate InRange(blocks: seq<Bytes>, marks: seq<nat>) {
    forall k :: 0 <= k < |marks| ==> marks[k] <= |blocks|
  }

  function Positions(dataStart: nat, blocks: seq<Bytes>, marks: seq<nat>): seq<nat>
    requires InRange(blocks, marks)
  {
    seq(|marks|, k requires 0 <= k < |marks| => Position(dataStart, blocks, marks[k]))
  }

  lemma PositionsGrow(dataStart: nat, blocks: seq<Bytes>, more: seq<Bytes>, marks: seq<nat>)
    requires blocks <= more && InRange(blocks, marks)
    ensures InRange(more, marks) && Positions(dataStart, more, marks) == Positions(dataStart, blocks, marks)
  {
    forall k | 0 <= k < |marks|
      ensures Positions(dataStart, more, marks)[k] == Positions(dataStart, blocks, marks)[k]
    {
      assert more[..marks[k]] == blocks[..marks[k]];
    }
  }

  /** The record block index: a 4-byte count, then 8 bytes an entry. */
  function IndexBytes(positions: seq<nat>): Bytes {
    U32Le(|positions|) + Flatten(seq(|positions|, k requires 0 <= k < |positions| => U64Le(positions[k])))
  }

  const HEADER_SIZE: nat := 512
  const INDEX_POS_AT: nat := 96
  const RECORD_COUNT_AT: nat := 104

  const MAGIC: Bytes := [0x41, 0x6C, 0x74, 0x65, 0x72, 0x79, 0x78, 0x20, 0x44, 0x61, 0x74, 0x61, 0x62, 0x61, 0x73,
    0x65, 0x20, 0x46, 0x69, 0x6C, 0x65]

  /** The header in front of the index position, and behind the record count. */
  function HeaderFront(metaInfoSize: nat): (h: Bytes)
    ensures |h| == INDEX_POS_AT
  {
    MAGIC + Zeros(43) + U32Le(0x0044_0204) + Zeros(12) + U32Le(metaInfoSize) + Zeros(12)
  }

  const HEADER_BACK: Bytes := U32Le(1) + Zeros(396)

  function Header(numRecords: nat, metaInfoSize: nat): (h: Bytes)
    ensures |h| == HEADER_SIZE
  {
    HeaderFront(metaInfoSize) + Zeros(8) + U64Le(numRecords) + HEADER_BACK
  }

  /**
    * Patching position and count into an unfinished file is patching the position into a file that had
    * the count all along.
    */
  lemma FinishedHeader(n: nat, metaInfoSize: nat, data: Bytes, indexPos: nat)
    ensures Patch(Patch(Header(0, metaInfoSize) + data, INDEX_POS_AT, U64Le(indexPos)), RECORD_COUNT_AT, U64Le(n))
         == Patch(Header(n, metaInfoSize) + data, INDEX_POS_AT, U64Le(indexPos))
  {
    var a, z, p, t := HeaderFront(metaInfoSize), Zeros(8), U64Le(indexPos), HEADER_BACK + data;
    forall k: nat ensures Patch(Header(k, metaInfoSize) + data, INDEX_POS_AT, p) == a + p + (U64Le(k) + t) {
      assert Header(k, metaInfoSize) + data == a + z + (U64Le(k) + t);
      PatchMiddle(a, z, U64Le(k) + t, p);
    }
    assert a + p + (U64Le(0) + t) == (a + p) + U64Le(0) + t;
    PatchMiddle(a + p, U64Le(0), t, U64Le(n));
    assert a + p + (U64Le(n) + t) == (a + p) + U64Le(n) + t;
  }

  /** The finished blocks and the index marks of a whole record sequence. */
  function Final(records: seq<Bytes>): (e: Emit)
    ensures e.buf == [] && InRange(e.blocks, e.marks)
  {
    MarksInRange(records);
    Flush(EmitAll(records))
  }

  lemma MarksInRange(records: seq<Bytes>)
    ensures InRange(EmitAll(records).blocks, EmitAll(records).marks)
    ensures InRange(Flush(EmitAll(records)).blocks, Flush(EmitAll(records)).marks)
  {
    var e := EmitAll(records);
    EmitAllKeeps(records);
    forall k | 0 <= k < |e.marks| ensures e.marks[k] <= |e.blocks| {
      assert MarkAt(records, e, k);
    }
  }

  /** The finished file for a schema (its encoded metadata) and all its records. */
  function YxdbFile(meta: Bytes, records: seq<Bytes>): Bytes {
    var e := Final(records);
    var data := meta + Stream(e.blocks);
    var index := IndexBytes(Positions(HEADER_SIZE + |meta|, e.blocks, e.marks));
    Patch(Header(|records|, |meta| / 2) + (data + index), INDEX_POS_AT, U64Le(HEADER_SIZE + |data|))
  }
}
