// A written file read back: header fields, block region, record block index, and the records.

module E1File {
  import opened Bytes
  import opened RecordScan
  import opened BlockLayout
  import opened BlockReader
  import opened ChunkedReader

  // -- Locating the parts of a file --

  function MetaInfoSize(file: Bytes): nat
    requires |file| >= HEADER_SIZE
  {
    FromU32Le(file[80..84])
  }

  function IndexPos(file: Bytes): nat
    requires |file| >= HEADER_SIZE
  {
    FromU64Le(file[96..104])
  }

  function RecordCount(file: Bytes): nat
    requires |file| >= HEADER_SIZE
  {
    FromU64Le(file[104..112])
  }

  /** The blocks: behind the metadata, up to the record block index if the header locates it there. */
  function BlockRegion(file: Bytes): Bytes
    requires |file| >= HEADER_SIZE && HEADER_SIZE + 2 * MetaInfoSize(file) <= |file|
  {
    var start, pos := HEADER_SIZE + 2 * MetaInfoSize(file), IndexPos(file);
    var end := if start < pos < TWO_32 * TWO_31 && pos < |file| then pos else |file|;
    file[start..end]
  }

  // -- What the writer puts there --

  /** Sizes that fit the header fields; the metadata is UTF-16, so its length is even. */
  predicate Representable(meta: Bytes, records: seq<Bytes>) {
    && |meta| % 2 == 0 && |meta| / 2 < TWO_32 && |records| < TWO_32 * TWO_32
    && HEADER_SIZE + |meta| + |Stream(Final(records).blocks)| < TWO_32 * TWO_31
  }

  function WrittenIndex(meta: Bytes, records: seq<Bytes>): seq<nat> {
    Positions(HEADER_SIZE + |meta|, Final(records).blocks, Final(records).marks)
  }

  lemma FileParts(meta: Bytes, records: seq<Bytes>)
    ensures
      var stream := Stream(Final(records).blocks);
      var pos := HEADER_SIZE + |meta| + |stream|;
      var head := HeaderFront(|meta| / 2) + U64Le(pos) + U64Le(|records|) + HEADER_BACK;
      && |head| == HEADER_SIZE
      && YxdbFile(meta, records) == head + meta + stream + IndexBytes(WrittenIndex(meta, records))
  {
    hide *;
    var stream, index := Stream(Final(records).blocks), IndexBytes(WrittenIndex(meta, records));
    var front, pos, count := HeaderFront(|meta| / 2), U64Le(HEADER_SIZE + |meta| + |stream|), U64Le(|records|);
    FileIs(meta, records);
    HeadLength(|meta| / 2, HEADER_SIZE + |meta| + |stream|, |records|);
    PatchedParts(front, pos, count, HEADER_BACK, meta, stream, index);
  }

  lemma FileIs(meta: Bytes, records: seq<Bytes>)
    ensures
      var stream, index := Stream(Final(records).blocks), IndexBytes(WrittenIndex(meta, records));
      var front := HeaderFront(|meta| / 2);
      var file := front + Zeros(8) + U64Le(|records|) + HEADER_BACK + (meta + stream + index);
      && |front| == INDEX_POS_AT
      && YxdbFile(meta, records) == Patch(file, |front|, U64Le(HEADER_SIZE + |meta| + |stream|))
  {
    hide IndexBytes;
    hide Positions;
    hide Final;
    hide Stream;
    hide Patch;
  }

  lemma HeadLength(half: nat, pos: nat, count: nat)
    ensures |HeaderFront(half) + U64Le(pos) + U64Le(count) + HEADER_BACK| == HEADER_SIZE
    ensures |U64Le(pos)| == |Zeros(8)| == 8
  {
  }

  lemma PatchedParts(front: Bytes, pos: Bytes, count: Bytes, back: Bytes, x: Bytes, y: Bytes, z: Bytes)
    requires |pos| == |Zeros(8)|
    ensures
      var file := front + Zeros(8) + count + back + (x + y + z);
      |front| + |pos| <= |file| && Patch(file, |front|, pos) == front + pos + count + back + x + y + z
  {
    hide Zeros;
    var rest := count + back + (x + y + z);
    GatherParts(front + Zeros(8), count, back, x, y, z);
    GatherParts(front + pos, count, back, x, y, z);
    PatchMiddle(front, Zeros(8), rest, pos);
  }

  lemma GatherParts(a: Bytes, b: Bytes, c: Bytes, x: Bytes, y: Bytes, z: Bytes)
    ensures a + b + c + (x + y + z) == a + (b + c + (x + y + z))
    ensures a + b + c + x + y + z == a + (b + c + (x + y + z))
  {
  }

  lemma FieldsReadBack(meta: Bytes, records: seq<Bytes>)
    requires Representable(meta, records)
    ensures var file := YxdbFile(meta, records);
      && |file| >= HEADER_SIZE + |meta| && 2 * MetaInfoSize(file) == |meta| && RecordCount(file) == |records|
      && IndexPos(file) == HEADER_SIZE + |meta| + |Stream(Final(records).blocks)|
  {
    hide IndexBytes;
    hide Positions;
    hide Final;
    hide Stream;
    FileParts(meta, records);
    var file, stream := YxdbFile(meta, records), Stream(Final(records).blocks);
    var pos := HEADER_SIZE + |meta| + |stream|;
    var front := HeaderFront(|meta| / 2);
    assert file[80..84] == front[80..84] == U32Le(|meta| / 2);
    assert file[96..104] == U64Le(pos);
    assert file[104..112] == U64Le(|records|);
    U32RoundTrip(|meta| / 2);
    U64RoundTrip(pos);
    U64RoundTrip(|records|);
  }

  /** With any block at all, the region is exactly the block stream; without one it runs on to the end of the file. */
  lemma RegionReadBack(meta: Bytes, records: seq<Bytes>)
    requires Representable(meta, records) && Stream(Final(records).blocks) != []
    ensures var file := YxdbFile(meta, records);
      |file| >= HEADER_SIZE && HEADER_SIZE + 2 * MetaInfoSize(file) <= |file|
        && BlockRegion(file) == Stream(Final(records).blocks)
  {
    hide Positions;
    hide Final;
    hide Stream;
    FileParts(meta, records);
    FieldsReadBack(meta, records);
    var file, stream := YxdbFile(meta, records), Stream(Final(records).blocks);
    var start := HEADER_SIZE + |meta|;
    assert |IndexBytes(WrittenIndex(meta, records))| >= 4;
    assert file[start..start + |stream|] == stream;
  }

  lemma FinalBlocks(records: seq<Bytes>)
    ensures Flatten(Final(records).blocks) == Flatten(records)
    ensures forall i :: 0 <= i < |Final(records).blocks| ==> 0 < |Final(records).blocks[i]| <= BLOCK_SIZE
    ensures |Final(records).marks| == IndexLength(|records|)
  {
    EmitAllKeeps(records);
    FlushKeeps(EmitAll(records));
  }

  lemma StreamNotEmpty(f: Format, records: seq<Bytes>)
    requires Valid(f) && AllWellFormed(f, records) && records != []
    ensures Stream(Final(records).blocks) != []
  {
    FinalBlocks(records);
    assert WellFormed(f, records[0]);
    assert Flatten(records) != [];
    var blocks := Final(records).blocks;
    assert blocks != [];
    assert Frames(blocks)[0] == Frame(blocks[0]);
  }

  // -- Reading back what was written --

  function ReadFile(format: Format, budget: nat, file: Bytes): Outcome
    requires Valid(format) && |file| >= HEADER_SIZE && HEADER_SIZE + 2 * MetaInfoSize(file) <= |file|
  {
    ReadAll(Config(format, RecordCount(file), None, false, budget, 0), BlockRegion(file))
  }

  /** Writing well-formed records and reading the file gives the records back, for any budget no record exceeds. */
  lemma WriteThenRead(format: Format, budget: nat, meta: Bytes, records: seq<Bytes>)
    requires Valid(format) && budget > 0 && AllWellFormed(format, records) && Representable(meta, records)
    requires forall i :: 0 <= i < |records| ==> |records[i]| <= budget
    ensures var file := YxdbFile(meta, records);
      && |file| >= HEADER_SIZE && HEADER_SIZE + 2 * MetaInfoSize(file) <= |file|
      && ReadFile(format, budget, file) == Rows(records)
  {
    hide YxdbFile;
    hide BlockRegion;
    hide MetaInfoSize;
    hide Final;
    FieldsReadBack(meta, records);
    if records != [] {
      StreamNotEmpty(format, records);
      RegionReadBack(meta, records);
      FinalBlocks(records);
      var raw := Stream(Final(records).blocks);
      assert raw[0..] == raw;
      StreamReadBack(raw, 0, Final(records).blocks);
      RecordsReadBack(Config(format, |records|, None, false, budget, 0), raw, records);
    }
  }

  /**
    * The other direction: a written file with a record at least as long as the budget and a block of
    * the writer together is never read to its end.
    */
  lemma WriteThenStall(format: Format, budget: nat, meta: Bytes, records: seq<Bytes>, j: nat)
    requires Valid(format) && AllWellFormed(format, records) && Representable(meta, records)
    requires j < |records| && |records[j]| >= budget + BLOCK_SIZE
    ensures
      var file := YxdbFile(meta, records);
      && |file| >= HEADER_SIZE && HEADER_SIZE + 2 * MetaInfoSize(file) <= |file|
      && ReadFile(format, budget, file) == Diverges
  {
    hide YxdbFile;
    hide BlockRegion;
    hide MetaInfoSize;
    hide Final;
    hide Stream;
    hide Contents;
    FieldsReadBack(meta, records);
    StreamNotEmpty(format, records);
    RegionReadBack(meta, records);
    FinalBlocks(records);
    var blocks := Final(records).blocks;
    var raw := Stream(blocks);
    assert raw[0..] == raw;
    StreamReadBack(raw, 0, blocks);
    BlocksReadBack(raw, 0, blocks);
    BlocksAreSmall(raw, blocks);
    NothingBehind(format, records);
    LongRecordDiverges(Config(format, |records|, None, false, budget, 0), raw, j, BLOCK_SIZE);
  }

  lemma BlocksAreSmall(raw: Bytes, blocks: seq<Bytes>)
    requires |Boundaries(raw, 0)| == |blocks|
    requires forall i :: 0 <= i < |blocks| ==> Contents(raw, Boundaries(raw, 0)[i]) == Some(blocks[i])
    requires forall i :: 0 <= i < |blocks| ==> 0 < |blocks[i]| <= BLOCK_SIZE
    ensures BlocksWithin(raw, Boundaries(raw, 0), BLOCK_SIZE)
  {
    hide Contents;
    hide Boundaries;
  }

  lemma NothingBehind(format: Format, records: seq<Bytes>)
    requires Valid(format) && AllWellFormed(format, records)
    ensures Parse(format, Flatten(records)) == records
  {
    ParseFlatten(format, records, []);
    assert Flatten(records) + [] == Flatten(records) && records + [] == records;
    assert FirstRecord(format, []).None?;
  }

  lemma RecordsReadBack(cfg: Config, raw: Bytes, records: seq<Bytes>)
    requires Valid(cfg.format) && cfg.budget > 0 && !cfg.stopAtCount && cfg.numRecords == |records|
    requires AllWellFormed(cfg.format, records) && forall i :: 0 <= i < |records| ==> |records[i]| <= cfg.budget
    requires AllContents(raw, Boundaries(raw, 0), cfg.filter) == Some(Flatten(records))
    ensures ReadAll(cfg, raw) == Rows(records)
  {
    hide ReadAll;
    hide AllContents;
    var data := Flatten(records);
    assert data + [] == data && records + [] == records && records[..|records|] == records;
    ParseFlatten(cfg.format, records, []);
    assert FirstRecord(cfg.format, []).None?;
    ReadComplete(cfg, raw);
  }

  // -- The record block index --

  /**
    * The index has one entry for the data start and one for every further 65536 records; entry `k`
    * is the file offset of a block from which decompressing to the end of the block region yields
    * exactly the records from number `k * 65536` on.
    */
  lemma IndexEntries(meta: Bytes, records: seq<Bytes>, k: nat)
    requires Representable(meta, records) && k < |WrittenIndex(meta, records)|
    ensures |WrittenIndex(meta, records)| == IndexLength(|records|)
    ensures
      var file, pos, end := YxdbFile(meta, records), WrittenIndex(meta, records)[k],
        HEADER_SIZE + |meta| + |Stream(Final(records).blocks)|;
      && |file| >= HEADER_SIZE
      && IndexPos(file) == end
      && pos <= end <= |file|
      && file[end..] == IndexBytes(WrittenIndex(meta, records))
      && k * RECORDS_PER_BLOCK <= |records|
      && AllContents(file[pos..end], Boundaries(file[pos..end], 0), None)
         == Some(Flatten(records[k * RECORDS_PER_BLOCK..]))
  {
    hide YxdbFile;
    hide IndexBytes;
    hide Final;
    hide Stream;
    hide AllContents;
    hide Boundaries;
    FieldsReadBack(meta, records);
    FinalBlocks(records);
    MarkSplits(records, k);
    var blocks, m := Final(records).blocks, Final(records).marks[k];
    RegionFrom(meta, records, m);
    var rest := Stream(blocks[m..]);
    assert rest[0..] == rest;
    StreamReadBack(rest, 0, blocks[m..]);
  }

  /** From the position of block `m` to the record block index, the file holds the stream of the blocks from `m` on. */
  lemma RegionFrom(meta: Bytes, records: seq<Bytes>, m: nat)
    requires m <= |Final(records).blocks|
    ensures var blocks := Final(records).blocks;
      var file, pos, end := YxdbFile(meta, records), Position(HEADER_SIZE + |meta|, blocks, m),
        HEADER_SIZE + |meta| + |Stream(blocks)|;
      && pos <= end <= |file|
      && file[pos..end] == Stream(blocks[m..])
      && file[end..] == IndexBytes(WrittenIndex(meta, records))
  {
    hide YxdbFile;
    hide IndexBytes;
    hide Final;
    hide Stream;
    hide Positions;
    FileParts(meta, records);
    var blocks := Final(records).blocks;
    StreamSplit(blocks, m);
    var file, start := YxdbFile(meta, records), HEADER_SIZE + |meta|;
    var a, b := Stream(blocks[..m]), Stream(blocks[m..]);
    assert file[start..start + |Stream(blocks)|] == a + b;
    assert (a + b)[|a|..] == b;
    assert file[start + |a|..start + |Stream(blocks)|] == file[start..start + |Stream(blocks)|][|a|..];
  }

  lemma MarkSplits(records: seq<Bytes>, k: nat)
    requires k < |Final(records).marks|
    ensures k * RECORDS_PER_BLOCK <= |records|
    ensures Flatten(Final(records).blocks[Final(records).marks[k]..]) == Flatten(records[k * RECORDS_PER_BLOCK..])
  {
    var e, f := EmitAll(records), Final(records);
    EmitAllKeeps(records);
    FlushKeeps(e);
    assert MarkAt(records, e, k);
    var m, r := f.marks[k], k * RECORDS_PER_BLOCK;
    assert f.blocks[..m] == e.blocks[..m];
    FlattenSplit(f.blocks, m);
    FlattenSplit(records, r);
    var front := Flatten(records[..r]);
    assert Flatten(f.blocks[m..]) == Flatten(f.blocks)[|front|..] == Flatten(records)[|front|..];
  }
}
