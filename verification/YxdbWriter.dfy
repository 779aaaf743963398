// The streaming writer: records arrive in batches and the file is produced as they come.

module StreamingWriter {
  import opened Bytes
  import opened BlockLayout
  import Lzf

  class YxdbWriter {
    const meta: Bytes
    var file: Bytes
    var recordCount: nat
    var blockBuf: Bytes
    var filePos: nat
    var blockIndex: seq<nat>
    var finished: bool
    ghost var records: seq<Bytes>

    /** The fields are those of a writer that has emitted `e`. */
    ghost predicate Holds(e: Emit)
      reads this`file, this`filePos, this`blockBuf, this`blockIndex
    {
      && file == Header(0, |meta| / 2) + meta + Stream(e.blocks)
      && blockBuf == e.buf && filePos == |file| && InRange(e.blocks, e.marks)
      && blockIndex == Positions(HEADER_SIZE + |meta|, e.blocks, e.marks)
    }

    ghost predicate Valid()
      reads this
    {
      Holds(EmitAll(records)) && recordCount == |records| && !finished
    }

    constructor (meta: Bytes)
      ensures Valid() && records == [] && this.meta == meta
    {
      this.meta := meta;
      file := Header(0, |meta| / 2) + meta;
      filePos := HEADER_SIZE + |meta|;
      blockIndex := [HEADER_SIZE + |meta|];
      recordCount, blockBuf, finished, records := 0, [], false, [];
      new;
      assert Stream([]) == [];
      assert Position(HEADER_SIZE + |meta|, [], 0) == HEADER_SIZE + |meta|;
    }

    /** Write one stored block. */
    method WriteFrame(raw: Bytes)
      modifies this`file, this`filePos
      ensures file == old(file) + Frame(raw) && filePos == old(filePos) + |Frame(raw)|
    {
      hide Lzf.Compressed;
      var compressed, _ := Lzf.Compress(raw);
      if compressed.Some? {
        file := file + U32Le(|compressed.value|);
        file := file + compressed.value;
        filePos := filePos + 4 + |compressed.value|;
      } else {
        file := file + U32Le(|raw| % TWO_31 + TWO_31);
        file := file + raw;
        filePos := filePos + 4 + |raw|;
      }
      assert file == old(file) + Frame(raw);
    }

    /** Write the current block, compressed if that makes it smaller, and start an empty one. */
    method FlushBlock(ghost e: Emit)
      requires Holds(e) && BlocksFit(e)
      modifies this`file, this`filePos, this`blockBuf
      ensures Holds(Flush(e))
    {
      hide Stream;
      hide Frame;
      hide Positions;
      if blockBuf == [] {
        return;
      }
      WriteFrame(blockBuf);
      StreamAppend(e.blocks, blockBuf);
      PositionsGrow(HEADER_SIZE + |meta|, e.blocks, e.blocks + [blockBuf], e.marks);
      blockBuf := [];
    }

    /** Close the block and take an index entry if record `globalRow` starts a new group. */
    method StartGroup(globalRow: nat, ghost e: Emit)
      requires Holds(e) && BlocksFit(e)
      modifies this`file, this`filePos, this`blockBuf, this`blockIndex
      ensures Holds(Boundary(e, globalRow))
    {
      if globalRow > 0 && globalRow % RECORDS_PER_BLOCK == 0 {
        if blockBuf != [] {
          FlushBlock(e);
        }
        ghost var f := Flush(e);
        assert f.blocks[..|f.blocks|] == f.blocks;
        assert filePos == Position(HEADER_SIZE + |meta|, f.blocks, |f.blocks|);
        blockIndex := blockIndex + [filePos];
        assert blockIndex == Positions(HEADER_SIZE + |meta|, f.blocks, f.marks + [|f.blocks|]);
      }
    }

    /** Append record data, splitting it across block boundaries where needed. */
    method AppendData(rec: Bytes, ghost e: Emit)
      requires Holds(e) && BlocksFit(e) && (e.buf == [] || |e.buf| + |rec| <= BLOCK_SIZE)
      modifies this`file, this`filePos, this`blockBuf
      ensures Holds(Fill(e, rec))
    {
      hide Stream;
      hide Positions;
      hide Fill;
      FillStep(e, rec);
      var offset := 0;
      ghost var d := e;
      assert rec[0..] == rec;
      if rec == [] {
        assert e.buf + rec == e.buf;
      }
      while offset < |rec|
        invariant offset <= |rec| && Holds(d) && BlocksFit(d)
        invariant offset < |rec| ==> d.buf == [] || |d.buf| + (|rec| - offset) <= BLOCK_SIZE
        invariant if offset < |rec| then Fill(d, rec[offset..]) == Fill(e, rec) else d == Fill(e, rec)
      {
        var space := BLOCK_SIZE - |blockBuf|;
        var chunk := if |rec| - offset < space then |rec| - offset else space;
        FillStep(d, rec[offset..]);
        FrontOfRest(rec, offset, chunk);
        RestOfRest(rec, offset, chunk);
        blockBuf := blockBuf + rec[offset..offset + chunk];
        offset := offset + chunk;
        d := d.(buf := blockBuf);
        if |blockBuf| >= BLOCK_SIZE && offset < |rec| {
          FlushBlock(d);
          FlushKeeps(d);
          d := Flush(d);
        }
      }
    }

    method WriteRecord(globalRow: nat, rec: Bytes, ghost e: Emit)
      requires Holds(e) && BlocksFit(e)
      modifies this`file, this`filePos, this`blockBuf, this`blockIndex
      ensures Holds(AddRecord(e, globalRow, rec))
    {
      StartGroup(globalRow, e);
      FlushKeeps(e);
      ghost var b := Boundary(e, globalRow);
      if |blockBuf| + |rec| > BLOCK_SIZE && blockBuf != [] {
        FlushBlock(b);
      }
      FlushKeeps(b);
      AppendData(rec, MakeRoom(b, rec));
    }

    method WriteBatch(batch: seq<Bytes>)
      requires Valid()
      modifies this
      ensures Valid() && records == old(records) + batch
    {
      hide Holds;
      hide EmitAll;
      if |batch| == 0 {
        assert records + batch == records;
        return;
      }
      ghost var done := records;
      for row := 0 to |batch|
        invariant unchanged(`recordCount, `finished, `records) && |done| == recordCount + row
        invariant done == records + batch[..row] && Holds(EmitAll(done))
      {
        EmitAllKeeps(done);
        EmitNext(done, batch[row]);
        WriteRecord(recordCount + row, batch[row], EmitAll(done));
        done := done + [batch[row]];
      }
      recordCount := recordCount + |batch|;
      records := done;
    }

    /** Flush, write the record block index, then patch its position and the record count into the header. */
    method Finish()
      requires Valid()
      modifies this
      ensures file == YxdbFile(meta, records) && finished && records == old(records)
    {
      hide Header;
      hide Stream;
      hide EmitAll;
      hide Positions;
      hide IndexBytes;
      finished := true;
      ghost var e := EmitAll(records);
      EmitAllKeeps(records);
      FlushBlock(e);
      var indexPos := filePos;
      file := file + IndexBytes(blockIndex);
      ghost var data := meta + Stream(Flush(e).blocks);
      assert file == Header(0, |meta| / 2) + (data + IndexBytes(blockIndex));
      file := Patch(file, INDEX_POS_AT, U64Le(indexPos));
      file := Patch(file, RECORD_COUNT_AT, U64Le(recordCount));
      FinishedHeader(|records|, |meta| / 2, data + IndexBytes(blockIndex), indexPos);
    }
  }

  /** However the records are split into batches, the file is the one for all of them at once. */
  method WriteInBatches(meta: Bytes, batches: seq<seq<Bytes>>) returns (file: Bytes)
    ensures file == YxdbFile(meta, Flatten(batches))
  {
    hide YxdbFile;
    hide EmitAll;
    hide Header;
    hide Stream;
    hide Positions;
    var writer := new YxdbWriter(meta);
    assert batches[..0] == [];
    for i := 0 to |batches|
      invariant writer.Valid() && writer.meta == meta && fresh(writer)
      invariant writer.records == Flatten(batches[..i])
    {
      writer.WriteBatch(batches[i]);
      assert batches[..i + 1] == batches[..i] + [batches[i]];
      FlattenAppend(batches[..i], batches[i]);
    }
    assert batches[..|batches|] == batches;
    writer.Finish();
    file := writer.file;
  }
}
