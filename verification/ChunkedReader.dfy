// Reading a whole file in bounded chunks: decompress a batch of blocks behind the bytes carried
// over, take the complete records, carry the rest.

module ChunkedReader {
  import opened Bytes
  import opened RecordScan
  import opened BlockReader
  import opened BlockLayout

  /**
    * `filter` drops blocks that do not look like record data; `stopAtCount` accepts whatever
    * follows the last record. `budget` and `maxCarry` are the chunk size and the largest partial
    * record carried along, 128 MiB and 64 MiB in the reader.
    */
  datatype Config = Config(format: Format, numRecords: nat, filter: Option<nat>, stopAtCount: bool, budget: nat,
      maxCarry: nat)

  /** `Diverges` stands for an iteration that changes nothing, and so repeats for ever. */
  datatype Outcome = Rows(rows: seq<Bytes>) | Failed | Diverges

  /** The end of the batch that starts at `idx`: blocks are taken while the expected size is below the budget. */
  function Gather(blocks: seq<BlockRef>, idx: nat, expected: nat, budget: nat): (end: nat)
    requires idx <= |blocks|
    ensures idx <= end <= |blocks|
    ensures end == idx <==> idx == |blocks| || expected >= budget
    decreases |blocks| - idx
  {
    if idx < |blocks| && expected < budget then Gather(blocks, idx + 1, expected + Capacity(blocks[idx]), budget)
    else idx
  }

  function Finish(cfg: Config, rows: seq<Bytes>): Outcome {
    if |rows| == cfg.numRecords then Rows(rows) else Failed
  }

  datatype Turn = Stop(outcome: Outcome) | Go(idx: nat, carry: Bytes, rows: seq<Bytes>)

  /** What is done with one chunk's data; `last` tells that no block is left behind it. */
  function TakeChunk(cfg: Config, data: Bytes, rows: seq<Bytes>, end: nat, last: bool): Turn
    requires Valid(cfg.format) && |rows| < cfg.numRecords
  {
    var found, tail := Parse(cfg.format, data), Tail(cfg.format, data);
    if !cfg.stopAtCount && last && tail != [] then Stop(Failed)
    else
      var room := cfg.numRecords - |rows|;
      var n := if cfg.stopAtCount && room < |found| then room else |found|;
      var rows' := rows + found[..n];
      if |rows'| >= cfg.numRecords || (last && n == 0) then Stop(Finish(cfg, rows'))
      else if cfg.stopAtCount && |tail| > cfg.maxCarry then Stop(Failed)
      else Go(end, tail, rows')
  }

  function Turn1(cfg: Config, raw: Bytes, blocks: seq<BlockRef>, idx: nat, carry: Bytes, rows: seq<Bytes>): (t: Turn)
    requires Valid(cfg.format) && AllInRaw(raw, blocks) && idx <= |blocks| && |rows| < cfg.numRecords
    ensures t.Go? ==> idx <= t.idx <= |blocks| && |rows| <= |t.rows| < cfg.numRecords
    ensures t.Go? && t.idx == idx && |t.rows| == |rows| ==> t == Go(idx, carry, rows)
  {
    var end := Gather(blocks, idx, |carry|, cfg.budget);
    match AllContents(raw, blocks[idx..end], cfg.filter)
    case None => Stop(Failed)
    case Some(c) =>
      assert end == idx ==> c == [] && carry + [] == carry;
      assert rows + [] == rows;
      TakeChunk(cfg, carry + c, rows, end, end == |blocks|)
  }

  /** The chunk loop from a state in which `idx` blocks are used up, `carry` is left over and `rows` are out. */
  function ChunkLoop(cfg: Config, raw: Bytes, blocks: seq<BlockRef>, idx: nat, carry: Bytes, rows: seq<Bytes>): Outcome
    requires Valid(cfg.format) && AllInRaw(raw, blocks) && idx <= |blocks|
    decreases |blocks| - idx + if |rows| < cfg.numRecords then cfg.numRecords - |rows| else 0
  {
    if (idx == |blocks| && carry == []) || |rows| >= cfg.numRecords then Finish(cfg, rows)
    else match Turn1(cfg, raw, blocks, idx, carry, rows)
      case Stop(outcome) => outcome
      case Go(idx', carry', rows') =>
        if idx' == idx && |rows'| == |rows| then Diverges else ChunkLoop(cfg, raw, blocks, idx', carry', rows')
  }

  function ReadAll(cfg: Config, raw: Bytes): Outcome
    requires Valid(cfg.format)
  {
    ChunkLoop(cfg, raw, Boundaries(raw, 0), 0, [], [])
  }

  // -- The loop --

  function InTurn(n: nat): (order: seq<nat>)
    ensures |order| == n && forall i :: 0 <= i < n ==> order[i] == i
  {
    seq(n, i => i)
  }

  lemma InTurnIsSchedule(n: nat)
    ensures IsSchedule(InTurn(n), n)
  {
    forall i | 0 <= i < n ensures i in InTurn(n) {
      assert InTurn(n)[i] == i;
    }
  }

  /** The records of one chunk, found by scanning or by dividing, and where the leftover starts. */
  method ChunkRecords(format: Format, data: Bytes) returns (bounds: Bounds, n: nat, tailStart: nat)
    requires Valid(format)
    ensures n == |Parse(format, data)| && tailStart <= |data| && data[tailStart..] == Tail(format, data)
    ensures bounds.Variable? ==> n < |bounds.ends| && forall i :: 0 <= i < n ==> bounds.ends[i] <= bounds.ends[i + 1]
    ensures forall i :: 0 <= i < n ==> RecordSlice(bounds, data, i) == Some(Parse(format, data)[i])
  {
    if format.hasVar {
      var ends := ScanPartial(data, format.fixedSize);
      n := |ends| - 1;
      tailStart := ends[n];
      bounds := Variable(ends);
    } else {
      FixedScan(format.fixedSize, data);
      n := |data| / format.fixedSize;
      tailStart := n * format.fixedSize;
      bounds := Fixed(format.fixedSize);
    }
  }

  /** One turn of the loop: gather, decompress behind the carried bytes, scan, and push the complete records. */
  method TakeTurn(cfg: Config, raw: Bytes, blocks: seq<BlockRef>, idx: nat, carry: Bytes, rows: seq<Bytes>)
    returns (t: Turn)
    requires Valid(cfg.format) && AllInRaw(raw, blocks) && idx <= |blocks| && |rows| < cfg.numRecords
    ensures t == Turn1(cfg, raw, blocks, idx, carry, rows)
  {
    hide AllContents;
    var end := GatherBatch(blocks, idx, |carry|, cfg.budget);
    var batch := blocks[idx..end];
    InTurnIsSchedule(|batch|);
    var chunk := DecompressBlockList(raw, batch, |carry|, cfg.filter, InTurn(|batch|));
    if chunk == None {
      return Stop(Failed);
    }
    var data := carry + chunk.value[|carry|..];
    assert data == carry + AllContents(raw, batch, cfg.filter).value;
    t := ScanChunk(cfg, data, rows, end, end >= |blocks|);
  }

  method ScanChunk(cfg: Config, data: Bytes, rows: seq<Bytes>, end: nat, last: bool) returns (t: Turn)
    requires Valid(cfg.format) && |rows| < cfg.numRecords
    ensures t == TakeChunk(cfg, data, rows, end, last)
  {
    hide Parse;
    hide Tail;
    var bounds, n, tailStart := ChunkRecords(cfg.format, data);
    if cfg.stopAtCount {
      n := if cfg.numRecords - |rows| < n then cfg.numRecords - |rows| else n;
    } else if last && tailStart != |data| {
      return Stop(Failed);
    }
    var rows' := PushRecords(cfg.format, bounds, data, n, rows);
    if |rows'| >= cfg.numRecords || (last && n == 0) {
      return Stop(if |rows'| == cfg.numRecords then Rows(rows') else Failed);
    }
    if cfg.stopAtCount && |data| - tailStart > cfg.maxCarry {
      return Stop(Failed);
    }
    return Go(end, data[tailStart..], rows');
  }

  method ReadChunked(cfg: Config, raw: Bytes) returns (r: Outcome)
    requires Valid(cfg.format)
    ensures r == ReadAll(cfg, raw)
  {
    hide Turn1;
    var blocks := ParseBlockBoundaries(raw);
    var carry: Bytes, idx: nat, rows: seq<Bytes> := [], 0, [];
    while (idx < |blocks| || carry != []) && |rows| < cfg.numRecords
      invariant idx <= |blocks| && blocks == Boundaries(raw, 0)
      invariant ChunkLoop(cfg, raw, blocks, idx, carry, rows) == ReadAll(cfg, raw)
      decreases |blocks| - idx + if |rows| < cfg.numRecords then cfg.numRecords - |rows| else 0
    {
      var t := TakeTurn(cfg, raw, blocks, idx, carry, rows);
      if t.Stop? {
        return t.outcome;
      }
      if t.idx == idx && |t.rows| == |rows| {
        return Diverges;
      }
      idx, carry, rows := t.idx, t.carry, t.rows;
    }
    return if |rows| == cfg.numRecords then Rows(rows) else Failed;
  }

  method GatherBatch(blocks: seq<BlockRef>, start: nat, carried: nat, budget: nat) returns (idx: nat)
    requires start <= |blocks|
    ensures idx == Gather(blocks, start, carried, budget)
  {
    idx := start;
    var expected := carried;
    while idx < |blocks| && expected < budget
      invariant start <= idx <= |blocks| && 0 <= expected
      invariant Gather(blocks, idx, expected, budget) == Gather(blocks, start, carried, budget)
    {
      expected := expected + Capacity(blocks[idx]);
      idx := idx + 1;
    }
  }

  method PushRecords(format: Format, bounds: Bounds, data: Bytes, n: nat, rows: seq<Bytes>) returns (rows': seq<Bytes>)
    requires Valid(format) && n <= |Parse(format, data)|
    requires bounds.Variable? ==> n < |bounds.ends| && forall i :: 0 <= i < n ==> bounds.ends[i] <= bounds.ends[i + 1]
    requires forall i :: 0 <= i < n ==> RecordSlice(bounds, data, i) == Some(Parse(format, data)[i])
    ensures rows' == rows + Parse(format, data)[..n]
  {
    rows' := rows;
    for i := 0 to n
      invariant rows' == rows + Parse(format, data)[..i]
    {
      rows' := rows' + [RecordSlice(bounds, data, i).value];
    }
  }

  // -- What a successful read returns --

  /** `idx` blocks have been read: `rows` are their records and `carry` is what is left of them. */
  ghost predicate AtBlock(cfg: Config, raw: Bytes, blocks: seq<BlockRef>, idx: nat, carry: Bytes, rows: seq<Bytes>)
    requires Valid(cfg.format) && AllInRaw(raw, blocks)
  {
    && idx <= |blocks| && AllContents(raw, blocks[..idx], cfg.filter).Some?
    && var c := AllContents(raw, blocks[..idx], cfg.filter).value;
    rows == Parse(cfg.format, c) && carry == Tail(cfg.format, c)
  }

  /** Reading on to `end` parses the carried bytes followed by the new ones. */
  lemma NextBatch(cfg: Config, raw: Bytes, blocks: seq<BlockRef>, idx: nat, carry: Bytes, rows: seq<Bytes>, end: nat)
    requires Valid(cfg.format) && AllInRaw(raw, blocks) && AtBlock(cfg, raw, blocks, idx, carry, rows)
    requires idx <= end <= |blocks|
    ensures AllContents(raw, blocks[..end], cfg.filter).Some? <==> AllContents(raw, blocks[idx..end], cfg.filter).Some?
    ensures AllContents(raw, blocks[idx..end], cfg.filter).Some? ==>
      var data := carry + AllContents(raw, blocks[idx..end], cfg.filter).value;
      AtBlock(cfg, raw, blocks, end, Tail(cfg.format, data), rows + Parse(cfg.format, data))
  {
    assert blocks[..end] == blocks[..idx] + blocks[idx..end];
    AllContentsConcat(raw, blocks[..idx], blocks[idx..end], cfg.filter);
    if AllContents(raw, blocks[idx..end], cfg.filter).Some? {
      ParseConcat(cfg.format, AllContents(raw, blocks[..idx], cfg.filter).value,
        AllContents(raw, blocks[idx..end], cfg.filter).value);
    }
  }

  /** The rows are the first `numRecords` records of the blocks read so far. */
  ghost predicate FirstOf(cfg: Config, raw: Bytes, blocks: seq<BlockRef>, k: nat, rows: seq<Bytes>)
    requires Valid(cfg.format) && AllInRaw(raw, blocks)
  {
    && k <= |blocks| && AllContents(raw, blocks[..k], cfg.filter).Some?
    && var all := Parse(cfg.format, AllContents(raw, blocks[..k], cfg.filter).value);
    cfg.numRecords <= |all| && rows == all[..cfg.numRecords]
  }

  lemma {:induction false} LoopSound(cfg: Config, raw: Bytes, blocks: seq<BlockRef>, idx: nat, carry: Bytes,
      rows: seq<Bytes>)
    returns (k: nat)
    requires Valid(cfg.format) && AllInRaw(raw, blocks) && AtBlock(cfg, raw, blocks, idx, carry, rows)
    requires ChunkLoop(cfg, raw, blocks, idx, carry, rows).Rows?
    ensures FirstOf(cfg, raw, blocks, k, ChunkLoop(cfg, raw, blocks, idx, carry, rows).rows)
    decreases |blocks| - idx + if |rows| < cfg.numRecords then cfg.numRecords - |rows| else 0
  {
    hide AllContents;
    hide Parse;
    hide Tail;
    k := idx;
    if !((idx == |blocks| && carry == []) || |rows| >= cfg.numRecords) {
      var end := Gather(blocks, idx, |carry|, cfg.budget);
      NextBatch(cfg, raw, blocks, idx, carry, rows, end);
      var data := carry + AllContents(raw, blocks[idx..end], cfg.filter).value;
      var t := Turn1(cfg, raw, blocks, idx, carry, rows);
      var found := Parse(cfg.format, data);
      if t.Go? {
        assert found[..|found|] == found;
        k := LoopSound(cfg, raw, blocks, t.idx, t.carry, t.rows);
      } else {
        k := end;
        ghost var n := |t.outcome.rows| - |rows|;
        assert (rows + found)[..cfg.numRecords] == rows + found[..n];
      }
    } else {
      assert rows[..|rows|] == rows;
    }
  }

  /** Further blocks do not change the records of earlier ones. */
  lemma FirstOfMore(cfg: Config, raw: Bytes, blocks: seq<BlockRef>, k: nat, rows: seq<Bytes>)
    requires Valid(cfg.format) && AllInRaw(raw, blocks) && FirstOf(cfg, raw, blocks, k, rows)
    requires AllContents(raw, blocks, cfg.filter).Some?
    ensures FirstOf(cfg, raw, blocks, |blocks|, rows)
  {
    var c := AllContents(raw, blocks[..k], cfg.filter).value;
    NextBatch(cfg, raw, blocks, k, Tail(cfg.format, c), Parse(cfg.format, c), |blocks|);
    assert blocks[..|blocks|] == blocks;
  }

  /**
    * Whatever the chunk budget, a successful read returns the first `numRecords` records of the
    * sequential parse of the concatenated block contents (of the blocks it needed, if a later one
    * is damaged).
    */
  lemma ReadSound(cfg: Config, raw: Bytes)
    requires Valid(cfg.format) && ReadAll(cfg, raw).Rows?
    ensures exists k :: FirstOf(cfg, raw, Boundaries(raw, 0), k, ReadAll(cfg, raw).rows)
    ensures var all := AllContents(raw, Boundaries(raw, 0), cfg.filter);
      all.Some? ==> (
        && cfg.numRecords <= |Parse(cfg.format, all.value)|
        && ReadAll(cfg, raw).rows == Parse(cfg.format, all.value)[..cfg.numRecords])
  {
    var blocks := Boundaries(raw, 0);
    StartAtBlock(cfg, raw, blocks);
    var k := LoopSound(cfg, raw, blocks, 0, [], []);
    if AllContents(raw, blocks, cfg.filter).Some? {
      FirstOfMore(cfg, raw, blocks, k, ReadAll(cfg, raw).rows);
      assert blocks[..|blocks|] == blocks;
    }
  }

  lemma StartAtBlock(cfg: Config, raw: Bytes, blocks: seq<BlockRef>)
    requires Valid(cfg.format) && AllInRaw(raw, blocks)
    ensures AtBlock(cfg, raw, blocks, 0, [], [])
  {
    assert blocks[..0] == [];
    assert FirstRecord(cfg.format, []).None?;
  }

  // -- When a read succeeds --

  /** The file holds exactly the declared records, or at least them when reading stops at the count. */
  ghost predicate Clean(cfg: Config, c: Bytes)
    requires Valid(cfg.format)
  {
    if cfg.stopAtCount then cfg.numRecords <= |Parse(cfg.format, c)|
    else |Parse(cfg.format, c)| == cfg.numRecords && Tail(cfg.format, c) == []
  }

  /** No record is longer than `limit`, and the incomplete one at the end is shorter. */
  ghost predicate NoneLonger(cfg: Config, c: Bytes, limit: nat)
    requires Valid(cfg.format)
  {
    && (forall i :: 0 <= i < |Parse(cfg.format, c)| ==> |Parse(cfg.format, c)[i]| <= limit)
    && (|Tail(cfg.format, c)| < limit || Tail(cfg.format, c) == [])
  }

  /** Bytes carried at some point are a proper part of the next record of the stream, or of its incomplete end. */
  lemma CarryWithin(cfg: Config, raw: Bytes, blocks: seq<BlockRef>, idx: nat, carry: Bytes, rows: seq<Bytes>)
    requires Valid(cfg.format) && AllInRaw(raw, blocks) && AtBlock(cfg, raw, blocks, idx, carry, rows)
    requires AllContents(raw, blocks, cfg.filter).Some?
    ensures var c := AllContents(raw, blocks, cfg.filter).value;
      || |carry| <= |Tail(cfg.format, c)|
      || (|rows| < |Parse(cfg.format, c)| && |carry| < |Parse(cfg.format, c)[|rows|]|)
  {
    NextBatch(cfg, raw, blocks, idx, carry, rows, |blocks|);
    assert blocks[..|blocks|] == blocks && blocks[idx..|blocks|] == blocks[idx..];
    var rest := AllContents(raw, blocks[idx..], cfg.filter).value;
    ParseSplits(cfg.format, AllContents(raw, blocks[..idx], cfg.filter).value);
    ParseSplits(cfg.format, carry + rest);
    if Parse(cfg.format, carry + rest) != [] {
      IncompleteIsShorter(cfg.format, carry, rest);
    }
  }

  lemma IncompleteIsShorter(f: Format, carry: Bytes, rest: Bytes)
    requires Valid(f) && FirstRecord(f, carry).None? && Parse(f, carry + rest) != []
    ensures |carry| < |Parse(f, carry + rest)[0]|
  {
    var n := FirstRecord(f, carry + rest).value;
    if f.hasVar && f.fixedSize + 4 <= |carry| {
      assert (carry + rest)[f.fixedSize..f.fixedSize + 4] == carry[f.fixedSize..f.fixedSize + 4];
    }
  }

  lemma {:induction false} LoopComplete(cfg: Config, raw: Bytes, blocks: seq<BlockRef>, idx: nat, carry: Bytes,
      rows: seq<Bytes>)
    requires Valid(cfg.format) && AllInRaw(raw, blocks) && AtBlock(cfg, raw, blocks, idx, carry, rows)
    requires AllContents(raw, blocks, cfg.filter).Some? && Clean(cfg, AllContents(raw, blocks, cfg.filter).value)
    requires |rows| <= cfg.numRecords
    requires cfg.stopAtCount ==> NoneLonger(cfg, AllContents(raw, blocks, cfg.filter).value, cfg.maxCarry)
    ensures ChunkLoop(cfg, raw, blocks, idx, carry, rows) != Failed
    decreases |blocks| - idx + if |rows| < cfg.numRecords then cfg.numRecords - |rows| else 0
  {
    hide AllContents;
    var f, c := cfg.format, AllContents(raw, blocks, cfg.filter).value;
    assert blocks[..|blocks|] == blocks;
    NextBatch(cfg, raw, blocks, idx, carry, rows, |blocks|);
    assert blocks[idx..|blocks|] == blocks[idx..];
    if idx == |blocks| {
      assert AllContents(raw, blocks[..idx], cfg.filter) == Some(c);
    }
    if !((idx == |blocks| && carry == []) || |rows| >= cfg.numRecords) {
      var end := Gather(blocks, idx, |carry|, cfg.budget);
      NextBatch(cfg, raw, blocks, idx, carry, rows, end);
      BatchDecodes(cfg, raw, blocks, end);
      var data := carry + AllContents(raw, blocks[idx..end], cfg.filter).value;
      var all := rows + Parse(f, data);
      assert AtBlock(cfg, raw, blocks, end, Tail(f, data), all);
      NextBatch(cfg, raw, blocks, end, Tail(f, data), all, |blocks|);
      assert |all| <= |Parse(f, c)|;
      if end == |blocks| {
        assert Parse(f, c) == all && Tail(f, c) == Tail(f, data);
      }
      CarryWithin(cfg, raw, blocks, end, Tail(f, data), all);
      var t := Turn1(cfg, raw, blocks, idx, carry, rows);
      assert Parse(f, data)[..|Parse(f, data)|] == Parse(f, data);
      if t.Go? && !(t.idx == idx && |t.rows| == |rows|) {
        LoopComplete(cfg, raw, blocks, t.idx, t.carry, t.rows);
      }
    }
  }

  lemma BatchDecodes(cfg: Config, raw: Bytes, blocks: seq<BlockRef>, end: nat)
    requires AllInRaw(raw, blocks) && end <= |blocks| && AllContents(raw, blocks, cfg.filter).Some?
    ensures AllContents(raw, blocks[..end], cfg.filter).Some?
  {
    assert blocks == blocks[..end] + blocks[end..];
    AllContentsConcat(raw, blocks[..end], blocks[end..], cfg.filter);
  }

  // -- When the loop stalls --

  /** A turn makes no progress exactly when blocks are left but the carried bytes already fill the budget. */
  lemma StallIff(cfg: Config, raw: Bytes, blocks: seq<BlockRef>, idx: nat, carry: Bytes, rows: seq<Bytes>)
    requires Valid(cfg.format) && AllInRaw(raw, blocks) && AtBlock(cfg, raw, blocks, idx, carry, rows)
    requires |rows| < cfg.numRecords
    ensures Turn1(cfg, raw, blocks, idx, carry, rows) == Go(idx, carry, rows)
      <==> idx < |blocks| && |carry| >= cfg.budget && (cfg.stopAtCount ==> |carry| <= cfg.maxCarry)
  {
    ParseSplits(cfg.format, AllContents(raw, blocks[..idx], cfg.filter).value);
    assert rows + [] == rows && carry + [] == carry;
  }

  /** With no record longer than the budget, and the incomplete one at the end shorter, the loop never stalls. */
  lemma {:induction false} LoopProgresses(cfg: Config, raw: Bytes, blocks: seq<BlockRef>, idx: nat, carry: Bytes,
      rows: seq<Bytes>)
    requires Valid(cfg.format) && AllInRaw(raw, blocks) && AtBlock(cfg, raw, blocks, idx, carry, rows)
    requires cfg.budget > 0 && AllContents(raw, blocks, cfg.filter).Some?
    requires NoneLonger(cfg, AllContents(raw, blocks, cfg.filter).value, cfg.budget)
    ensures ChunkLoop(cfg, raw, blocks, idx, carry, rows) != Diverges
    decreases |blocks| - idx + if |rows| < cfg.numRecords then cfg.numRecords - |rows| else 0
  {
    hide AllContents;
    if !((idx == |blocks| && carry == []) || |rows| >= cfg.numRecords) {
      CarryWithin(cfg, raw, blocks, idx, carry, rows);
      StallIff(cfg, raw, blocks, idx, carry, rows);
      var t := Turn1(cfg, raw, blocks, idx, carry, rows);
      if t.Go? {
        NextState(cfg, raw, blocks, idx, carry, rows);
        LoopProgresses(cfg, raw, blocks, t.idx, t.carry, t.rows);
      }
    }
  }

  lemma NextState(cfg: Config, raw: Bytes, blocks: seq<BlockRef>, idx: nat, carry: Bytes, rows: seq<Bytes>)
    requires Valid(cfg.format) && AllInRaw(raw, blocks) && AtBlock(cfg, raw, blocks, idx, carry, rows)
    requires |rows| < cfg.numRecords && Turn1(cfg, raw, blocks, idx, carry, rows).Go?
    ensures var t := Turn1(cfg, raw, blocks, idx, carry, rows); AtBlock(cfg, raw, blocks, t.idx, t.carry, t.rows)
  {
    hide AllContents;
    hide Parse;
    hide Tail;
    var end := Gather(blocks, idx, |carry|, cfg.budget);
    NextBatch(cfg, raw, blocks, idx, carry, rows, end);
    var found := Parse(cfg.format, carry + AllContents(raw, blocks[idx..end], cfg.filter).value);
    assert found[..|found|] == found;
  }

  /** Reading that stops at the count gives up on a partial record before it could fill the budget: it never stalls. */
  lemma {:induction false} StopAtCountProgresses(cfg: Config, raw: Bytes, blocks: seq<BlockRef>, idx: nat,
      carry: Bytes, rows: seq<Bytes>)
    requires Valid(cfg.format) && AllInRaw(raw, blocks) && AtBlock(cfg, raw, blocks, idx, carry, rows)
    requires cfg.stopAtCount && cfg.maxCarry < cfg.budget
    ensures ChunkLoop(cfg, raw, blocks, idx, carry, rows) != Diverges
    decreases |blocks| - idx + if |rows| < cfg.numRecords then cfg.numRecords - |rows| else 0
  {
    if !((idx == |blocks| && carry == []) || |rows| >= cfg.numRecords) {
      StallIff(cfg, raw, blocks, idx, carry, rows);
      var t := Turn1(cfg, raw, blocks, idx, carry, rows);
      if t.Go? && !(t.idx == idx && |t.rows| == |rows|) {
        NextState(cfg, raw, blocks, idx, carry, rows);
        StopAtCountProgresses(cfg, raw, blocks, t.idx, t.carry, t.rows);
      }
    }
  }

  /**
    * Without that option the loop does stall: for every budget, when the first block alone is
    * uncompressed, at least as long as the budget, and holds no complete record, and another block follows.
    */
  lemma LongRecordStalls(cfg: Config, raw: Bytes)
    requires Valid(cfg.format) && !cfg.stopAtCount && cfg.filter == None && cfg.numRecords > 0 && cfg.budget > 0
    requires var blocks := Boundaries(raw, 0);
      && |blocks| >= 2 && blocks[0].uncompressed && blocks[0].length >= cfg.budget
      && FirstRecord(cfg.format, Payload(raw, blocks[0])).None?
    ensures ReadAll(cfg, raw) == Diverges
  {
    hide AllContents;
    hide Boundaries;
    hide Parse;
    hide Tail;
    var blocks := Boundaries(raw, 0);
    var first := Payload(raw, blocks[0]);
    StartAtBlock(cfg, raw, blocks);
    FirstBatch(cfg, raw, blocks);
    NothingComplete(cfg.format, first);
    assert [] + first == first && [] + Parse(cfg.format, first)[..0] == [];
    assert Turn1(cfg, raw, blocks, 0, [], []) == Go(1, first, []);
    NextState(cfg, raw, blocks, 0, [], []);
    StallIff(cfg, raw, blocks, 1, first, []);
    assert ChunkLoop(cfg, raw, blocks, 1, first, []) == Diverges;
  }

  lemma NothingComplete(f: Format, data: Bytes)
    requires Valid(f) && FirstRecord(f, data).None?
    ensures Parse(f, data) == [] && Tail(f, data) == data
  {
  }

  lemma FirstBatch(cfg: Config, raw: Bytes, blocks: seq<BlockRef>)
    requires AllInRaw(raw, blocks) && |blocks| >= 1 && blocks[0].uncompressed && blocks[0].length >= cfg.budget > 0
    ensures Gather(blocks, 0, 0, cfg.budget) == 1
    ensures AllContents(raw, blocks[0..1], None) == Some(Payload(raw, blocks[0]))
  {
    assert Gather(blocks, 1, Capacity(blocks[0]), cfg.budget) == 1;
    assert blocks[0..1] == [blocks[0]] && [blocks[0]][1..] == [];
    assert AllContents(raw, [], None) == Some([]);
    assert Payload(raw, blocks[0]) + [] == Payload(raw, blocks[0]);
  }

  // -- Records that no chunk can hold --

  /** No block holds more than `m` bytes. */
  ghost predicate BlocksWithin(raw: Bytes, blocks: seq<BlockRef>, m: nat)
    requires AllInRaw(raw, blocks)
  {
    forall i :: 0 <= i < |blocks| && Contents(raw, blocks[i]).Some? ==> |Contents(raw, blocks[i]).value| <= m
  }

  lemma FirstContents(raw: Bytes, blocks: seq<BlockRef>, idx: nat, end: nat, filter: Option<nat>, m: nat)
    requires AllInRaw(raw, blocks) && BlocksWithin(raw, blocks, m) && idx < end <= |blocks|
    requires AllContents(raw, blocks[idx..end], filter).Some?
    ensures AllContents(raw, blocks[idx + 1..end], filter).Some?
    ensures
      var here := |AllContents(raw, blocks[idx..end], filter).value|
        - |AllContents(raw, blocks[idx + 1..end], filter).value|;
      0 <= here <= m && here <= Capacity(blocks[idx])
  {
    hide Contents;
    assert blocks[idx..end][0] == blocks[idx] && blocks[idx..end][1..] == blocks[idx + 1..end];
    assert Contents(raw, blocks[idx]).Some?;
    ContentsFit(raw, blocks[idx]);
  }

  lemma ContentsFit(raw: Bytes, b: BlockRef)
    requires InRaw(raw, b) && Contents(raw, b).Some?
    ensures |Contents(raw, b).value| <= Capacity(b)
  {
  }

  /** A chunk that takes any block is shorter than the budget and one block together. */
  lemma {:induction false} ChunkBound(
      raw: Bytes, blocks: seq<BlockRef>, idx: nat, expected: nat, budget: nat, filter: Option<nat>, m: nat)
    requires AllInRaw(raw, blocks) && BlocksWithin(raw, blocks, m) && idx <= |blocks|
    requires AllContents(raw, blocks[idx..Gather(blocks, idx, expected, budget)], filter).Some?
    ensures
      var end := Gather(blocks, idx, expected, budget);
      end > idx ==> expected + |AllContents(raw, blocks[idx..end], filter).value| < budget + m
    decreases |blocks| - idx
  {
    hide AllContents;
    hide BlocksWithin;
    var end := Gather(blocks, idx, expected, budget);
    if end > idx {
      FirstContents(raw, blocks, idx, end, filter, m);
      ChunkBound(raw, blocks, idx + 1, expected + Capacity(blocks[idx]), budget, filter, m);
      if end == idx + 1 {
        NoContents(raw, blocks[end..end], filter);
      }
    }
  }

  lemma NoContents(raw: Bytes, blocks: seq<BlockRef>, filter: Option<nat>)
    requires blocks == []
    ensures AllInRaw(raw, blocks) && AllContents(raw, blocks, filter) == Some([])
  {
  }

  lemma {:induction false} ParsedWithin(f: Format, data: Bytes, k: nat)
    requires Valid(f) && k < |Parse(f, data)|
    ensures |Parse(f, data)[k]| <= |data|
    decreases |data|
  {
    if k > 0 {
      ParsedWithin(f, data[FirstRecord(f, data).value..], k - 1);
    }
  }

  /** While a record is missing, blocks are left. */
  lemma BlocksAreLeft(
      cfg: Config, raw: Bytes, blocks: seq<BlockRef>, idx: nat, carry: Bytes, rows: seq<Bytes>)
    requires Valid(cfg.format) && AllInRaw(raw, blocks) && AtBlock(cfg, raw, blocks, idx, carry, rows)
    requires AllContents(raw, blocks, cfg.filter).Some?
    ensures var all := Parse(cfg.format, AllContents(raw, blocks, cfg.filter).value);
      rows <= all && (|rows| < |all| ==> idx < |blocks|)
  {
    hide AllContents;
    hide Parse;
    hide Tail;
    assert blocks[..|blocks|] == blocks;
    NextBatch(cfg, raw, blocks, idx, carry, rows, |blocks|);
  }

  /** From any state before record `j`: if no chunk can hold it, the loop repeats a turn for ever. */
  lemma {:induction false} LoopStalls(
      cfg: Config, raw: Bytes, blocks: seq<BlockRef>, idx: nat, carry: Bytes, rows: seq<Bytes>, j: nat, m: nat)
    requires Valid(cfg.format) && AllInRaw(raw, blocks) && AtBlock(cfg, raw, blocks, idx, carry, rows)
    requires !cfg.stopAtCount && BlocksWithin(raw, blocks, m) && AllContents(raw, blocks, cfg.filter).Some?
    requires var all := Parse(cfg.format, AllContents(raw, blocks, cfg.filter).value);
      |rows| <= j < cfg.numRecords && j < |all| && |all[j]| >= cfg.budget + m
    ensures ChunkLoop(cfg, raw, blocks, idx, carry, rows) == Diverges
    decreases |blocks| - idx
  {
    hide AllContents;
    hide BlocksWithin;
    hide Parse;
    hide Tail;
    BlocksAreLeft(cfg, raw, blocks, idx, carry, rows);
    var end := Gather(blocks, idx, |carry|, cfg.budget);
    if end == idx {
      StallIff(cfg, raw, blocks, idx, carry, rows);
    } else {
      BatchDecodes(cfg, raw, blocks, end);
      NextBatch(cfg, raw, blocks, idx, carry, rows, end);
      ChunkBound(raw, blocks, idx, |carry|, cfg.budget, cfg.filter, m);
      var data := carry + AllContents(raw, blocks[idx..end], cfg.filter).value;
      var found, tail := Parse(cfg.format, data), Tail(cfg.format, data);
      BlocksAreLeft(cfg, raw, blocks, end, tail, rows + found);
      if j < |rows + found| {
        ParsedWithin(cfg.format, data, j - |rows|);
      }
      assert |rows + found| <= j;
      assert found[..|found|] == found;
      LoopStalls(cfg, raw, blocks, end, tail, rows + found, j, m);
    }
  }

  /**
    * A record at least as long as the budget and one block together is never completed: without the
    * option to stop at the count, the read repeats a turn for ever.
    */
  lemma LongRecordDiverges(cfg: Config, raw: Bytes, j: nat, m: nat)
    requires Valid(cfg.format) && !cfg.stopAtCount && BlocksWithin(raw, Boundaries(raw, 0), m)
    requires AllContents(raw, Boundaries(raw, 0), cfg.filter).Some?
    requires var all := Parse(cfg.format, AllContents(raw, Boundaries(raw, 0), cfg.filter).value);
      j < cfg.numRecords && j < |all| && |all[j]| >= cfg.budget + m
    ensures ReadAll(cfg, raw) == Diverges
  {
    StartAtBlock(cfg, raw, Boundaries(raw, 0));
    LoopStalls(cfg, raw, Boundaries(raw, 0), 0, [], [], j, m);
  }

  /** A clean file whose blocks decompress, with no record longer than the budget, is read in full. */
  lemma ReadComplete(cfg: Config, raw: Bytes)
    requires Valid(cfg.format) && cfg.budget > 0 && AllContents(raw, Boundaries(raw, 0), cfg.filter).Some?
    requires var c := AllContents(raw, Boundaries(raw, 0), cfg.filter).value;
      Clean(cfg, c) && NoneLonger(cfg, c, cfg.budget) && (cfg.stopAtCount ==> NoneLonger(cfg, c, cfg.maxCarry))
    ensures ReadAll(cfg, raw)
         == Rows(Parse(cfg.format, AllContents(raw, Boundaries(raw, 0), cfg.filter).value)[..cfg.numRecords])
  {
    var blocks := Boundaries(raw, 0);
    StartAtBlock(cfg, raw, blocks);
    LoopComplete(cfg, raw, blocks, 0, [], []);
    LoopProgresses(cfg, raw, blocks, 0, [], []);
    ReadSound(cfg, raw);
  }
}
