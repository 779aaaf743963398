// Streaming a file that the writer produced: its blocks tile the region, so the records come back in
// batches of any sizes.

module StreamedFile {
  import opened Bytes
  import opened BatchSizes
  import opened RecordScan
  import opened BlockLayout
  import opened BlockReader
  import opened E1File
  import opened StreamPlan
  import opened StreamReader
  import Lzf

  /** The block region of a written file as the streaming reader sees it: record blocks only. */
  ghost function PlanOf(format: Format, records: seq<Bytes>): Plan {
    var blocks := Final(records).blocks;
    Plan(Stream(blocks), 0, format, false, blocks, seq(|blocks|, _ => false), records, [])
  }

  /** Block `i` of the region decompresses to `blocks[i]`. */
  ghost predicate Holds(raw: Bytes, pos: nat, blocks: seq<Bytes>, i: nat)
    requires i < |blocks| && |Boundaries(raw, pos)| == |blocks|
  {
    Contents(raw, Boundaries(raw, pos)[i]) == Some(blocks[i]) && Capacity(Boundaries(raw, pos)[i]) < TWO_32
  }

  lemma StoredIsSmall(block: Bytes)
    requires 0 < |block| <= BLOCK_SIZE
    ensures |StoredPayload(block)| <= BLOCK_SIZE
  {
    hide Lzf.Compressed;
    if Lzf.Compressed(block).Some? {
      Lzf.RoundTrip(block, BLOCK_SIZE);
    }
  }

  lemma FirstBlock(raw: Bytes, pos: nat, block: Bytes, rest: Bytes)
    requires 0 < |block| <= BLOCK_SIZE && pos <= |raw| && raw[pos..] == Frame(block) + rest
    ensures var next := pos + |Frame(block)|;
      && next <= |raw| && raw[next..] == rest && (Tiled(raw, next) ==> Tiled(raw, pos))
      && |Boundaries(raw, pos)| > 0 && Boundaries(raw, pos) == [Boundaries(raw, pos)[0]] + Boundaries(raw, next)
      && Contents(raw, Boundaries(raw, pos)[0]) == Some(block) && Capacity(Boundaries(raw, pos)[0]) < TWO_32
  {
    hide Contents;
    hide Frame;
    hide LengthWord;
    hide StoredPayload;
    FrameReadBack(raw, pos, block, rest);
    FrameParts(block);
    StoredIsSmall(block);
    var n, payload := LengthWord(block), StoredPayload(block);
    Assoc(U32Le(n), payload, rest);
    BoundaryAt(raw, pos, n, payload, rest);
    U32RoundTrip(n);
    assert raw[pos..][..4] == U32Le(n) && raw[pos..pos + 4] == raw[pos..][..4];
    hide U32Le;
    hide FromU32Le;
  }

  lemma {:induction false} RegionTiles(raw: Bytes, pos: nat, blocks: seq<Bytes>)
    requires forall i :: 0 <= i < |blocks| ==> 0 < |blocks[i]| <= BLOCK_SIZE
    requires pos <= |raw| && raw[pos..] == Stream(blocks)
    ensures Tiled(raw, pos) && |Boundaries(raw, pos)| == |blocks|
    ensures forall i :: 0 <= i < |blocks| ==> Holds(raw, pos, blocks, i)
    decreases |blocks|
  {
    hide Frame;
    hide Contents;
    if blocks == [] {
      assert Stream(blocks) == [];
    } else {
      FirstFrame(blocks);
      hide Stream;
      FirstBlock(raw, pos, blocks[0], Stream(blocks[1..]));
      var next := pos + |Frame(blocks[0])|;
      hide *;
      assert forall i :: 0 <= i < |blocks[1..]| ==> blocks[1..][i] == blocks[i + 1];
      RegionTiles(raw, next, blocks[1..]);
      HoldsFirst(raw, pos, next, blocks);
    }
  }

  lemma HoldsFirst(raw: Bytes, pos: nat, next: nat, blocks: seq<Bytes>)
    requires blocks != [] && |Boundaries(raw, next)| == |blocks| - 1 && |Boundaries(raw, pos)| > 0
    requires Boundaries(raw, pos) == [Boundaries(raw, pos)[0]] + Boundaries(raw, next)
    requires Contents(raw, Boundaries(raw, pos)[0]) == Some(blocks[0]) && Capacity(Boundaries(raw, pos)[0]) < TWO_32
    requires forall i :: 0 <= i < |blocks| - 1 ==> Holds(raw, next, blocks[1..], i)
    ensures |Boundaries(raw, pos)| == |blocks| && forall i :: 0 <= i < |blocks| ==> Holds(raw, pos, blocks, i)
  {
    hide Contents;
    hide Capacity;
    hide Boundaries;
    forall i | 0 <= i < |blocks| ensures Holds(raw, pos, blocks, i) {
      if i > 0 {
        assert Holds(raw, next, blocks[1..], i - 1);
        assert Boundaries(raw, pos)[i] == Boundaries(raw, next)[i - 1] && blocks[1..][i - 1] == blocks[i];
      }
    }
  }

  /** The writer's block region is what the streaming reader expects. */
  lemma WrittenPlan(format: Format, records: seq<Bytes>)
    requires Valid(format) && AllWellFormed(format, records)
    ensures WellFormedPlan(PlanOf(format, records))
  {
    var p := PlanOf(format, records);
    FinalBlocks(records);
    assert p.raw[0..] == p.raw;
    RegionTiles(p.raw, 0, p.parts);
    hide Final;
    hide Contents;
    hide Capacity;
    hide Boundaries;
    hide Tiled;
    hide Stream;
    NoGrid(p);
    assert BlocksDecode(p) by {
      forall i | 0 <= i < |p.parts|
        ensures Contents(p.raw, Refs(p)[i]) == Some(p.parts[i]) && Capacity(Refs(p)[i]) < TWO_32
      {
        assert Holds(p.raw, 0, p.parts, i);
      }
    }
    assert Flatten(records) + [] == Flatten(records);
  }

  lemma NoGrid(p: Plan)
    requires Shaped(p) && !p.spatial && forall i :: 0 <= i < |p.grid| ==> !p.grid[i]
    ensures GridBlocksApart(p) && GroupsRecognised(p) && DataUpTo(p, |p.parts|) == Flatten(p.parts)
  {
    hide Refs;
    assert Kept(p) == p.parts;
    assert Kept(p)[..|p.parts|] == Kept(p);
  }

  /** Open a written file as a stream and read it in batches: the records come back, up to where the sizes reach. */
  method StreamBack(format: Format, file: Bytes, sizes: seq<nat>, ghost meta: Bytes, ghost records: seq<Bytes>)
    returns (rows: seq<Bytes>)
    requires Valid(format) && AllWellFormed(format, records) && Representable(meta, records)
    requires file == YxdbFile(meta, records)
    requires forall i :: 0 <= i < |sizes| ==> sizes[i] > 0
    ensures rows == records[..Least(Sum(sizes), |records|)]
  {
    hide *;
    FieldsReadBack(meta, records);
    var count := RecordCount(file);
    if count == 0 {
      NothingToRead(sizes, records);
      return [];
    }
    StreamNotEmpty(format, records);
    RegionReadBack(meta, records);
    WrittenPlan(format, records);
    PlanFields(format, records);
    var reader := new YxdbReader(PlanOf(format, records), BlockRegion(file), 0, format, false, count);
    var ok;
    ok, rows := ReadInBatches(reader, sizes);
  }

  lemma NothingToRead(sizes: seq<nat>, records: seq<Bytes>)
    requires |records| == 0
    ensures [] == records[..Least(Sum(sizes), |records|)]
  {
  }

  lemma PlanFields(format: Format, records: seq<Bytes>)
    ensures var p := PlanOf(format, records);
      p.raw == Stream(Final(records).blocks) && p.start == 0 && p.format == format && !p.spatial && p.records == records
  {
  }
}
