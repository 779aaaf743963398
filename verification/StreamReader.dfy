// The streaming reader: records are read on demand from blocks that a worker decompresses one
// ahead, skipping the spatial grid blocks that may stand at group boundaries.

module StreamPlan {
  import opened Bytes
  import opened RecordScan
  import opened BlockReader

  const RECORDS_PER_INDEX_GROUP: nat := 0x1_0000

  /**
    * A file as its writer meant it: the block region of `raw` starts at `start`; `parts` are the
    * contents of its blocks, `grid` marks the spatial grid blocks among them, and the other blocks
    * hold `records` and then `more`.
    */
  datatype Plan = Plan(raw: Bytes, start: nat, format: Format, spatial: bool, parts: seq<Bytes>, grid: seq<bool>,
      records: seq<Bytes>, more: Bytes)

  /** Blocks follow each other without gaps up to the end of the region. */
  predicate Tiled(raw: Bytes, pos: nat)
    decreases |raw| - pos
  {
    pos == |raw| ||
    (pos + 4 <= |raw| &&
     var length := FromU32Le(raw[pos..pos + 4]) % TWO_31;
     pos + 4 + length <= |raw| && Tiled(raw, pos + 4 + length))
  }

  function Refs(p: Plan): seq<BlockRef> {
    Boundaries(p.raw, p.start)
  }

  predicate Shaped(p: Plan) {
    Valid(p.format) && |p.parts| == |p.grid| == |Refs(p)|
  }

  function Kept(p: Plan): (k: seq<Bytes>)
    requires Shaped(p)
    ensures |k| == |p.parts|
  {
    seq(|p.parts|, i requires 0 <= i < |p.parts| => if p.grid[i] then [] else p.parts[i])
  }

  /** Record data in the first `i` blocks. */
  function DataUpTo(p: Plan, i: nat): Bytes
    requires Shaped(p) && i <= |p.parts|
  {
    Flatten(Kept(p)[..i])
  }

  /** Where record `e` starts in the record data. */
  function RecordStart(p: Plan, e: nat): nat
    requires e <= |p.records|
  {
    |Flatten(p.records[..e])|
  }

  predicate GroupEnd(p: Plan, e: nat) {
    0 < e < |p.records| && e % RECORDS_PER_INDEX_GROUP == 0
  }

  ghost predicate BlocksDecode(p: Plan)
    requires Shaped(p)
  {
    forall i :: 0 <= i < |p.parts| ==> Contents(p.raw, Refs(p)[i]) == Some(p.parts[i]) && Capacity(Refs(p)[i]) < TWO_32
  }

  /** Grid blocks stand only between groups, or behind the last record, and do not look like record data. */
  ghost predicate GridBlocksApart(p: Plan)
    requires Shaped(p)
  {
    forall i :: 0 <= i < |p.parts| && p.grid[i] ==>
      && p.spatial && p.format.hasVar && !LooksLikeRecords(p.parts[i], p.format.fixedSize, PROBES)
      && (|DataUpTo(p, i)| >= RecordStart(p, |p.records|)
         || exists e: nat :: GroupEnd(p, e) && |DataUpTo(p, i)| == RecordStart(p, e))
  }

  /** The first record block of every later group looks like record data. */
  ghost predicate GroupsRecognised(p: Plan)
    requires Shaped(p)
  {
    p.spatial && p.format.hasVar ==>
      forall i, e: nat | 0 <= i < |p.parts| && !p.grid[i] && GroupEnd(p, e) && |DataUpTo(p, i)| == RecordStart(p, e) ::
        LooksLikeRecords(p.parts[i], p.format.fixedSize, PROBES)
  }

  ghost predicate WellFormedPlan(p: Plan) {
    && Shaped(p) && p.start <= |p.raw| && Tiled(p.raw, p.start) && BlocksDecode(p)
    && AllWellFormed(p.format, p.records) && DataUpTo(p, |p.parts|) == Flatten(p.records) + p.more
    && GridBlocksApart(p) && GroupsRecognised(p)
  }

  lemma {:induction false} RecordStartsGrow(p: Plan, d: nat, e: nat)
    requires Valid(p.format) && AllWellFormed(p.format, p.records) && d <= e <= |p.records|
    ensures RecordStart(p, d) + (e - d) <= RecordStart(p, e)
    decreases e
  {
    if d < e {
      RecordStartsGrow(p, d, e - 1);
      RecordStartNext(p, e - 1);
      assert WellFormed(p.format, p.records[e - 1]);
    }
  }

  lemma RecordStartNext(p: Plan, e: nat)
    requires e < |p.records|
    ensures RecordStart(p, e + 1) == RecordStart(p, e) + |p.records[e]|
    ensures Flatten(p.records[..e + 1]) == Flatten(p.records[..e]) + p.records[e]
  {
    assert p.records[..e + 1] == p.records[..e] + [p.records[e]];
    FlattenAppend(p.records[..e], p.records[e]);
  }

  lemma DataNext(p: Plan, i: nat)
    requires Shaped(p) && i < |p.parts|
    ensures DataUpTo(p, i + 1) == DataUpTo(p, i) + if p.grid[i] then [] else p.parts[i]
  {
    hide Refs;
    hide Flatten;
    assert Kept(p)[..i + 1] == Kept(p)[..i] + [Kept(p)[i]];
    FlattenAppend(Kept(p)[..i], Kept(p)[i]);
  }

  /** The record data read so far is a prefix of all of it; inside record `e` it holds that record's bytes. */
  lemma RecordBytes(p: Plan, i: nat, e: nat, r: nat, k: nat)
    requires WellFormedPlan(p) && i <= |p.parts| && e < |p.records| && r + k <= |p.records[e]|
    requires RecordStart(p, e) + r + k <= |DataUpTo(p, i)|
    ensures var pos := RecordStart(p, e) + r; DataUpTo(p, i)[pos..pos + k] == p.records[e][r..r + k]
  {
    hide BlocksDecode;
    hide GridBlocksApart;
    hide GroupsRecognised;
    hide Tiled;
    hide Refs;
    hide Kept;
    var all := DataUpTo(p, |p.parts|);
    DataPrefix(p, i);
    RecordInData(p, e);
    var start, pos := RecordStart(p, e), RecordStart(p, e) + r;
    hide DataUpTo;
    SliceOfSlice(all, start, start + |p.records[e]|, r, r + k);
    SliceOfPrefix(DataUpTo(p, i), all, pos, pos + k);
  }

  lemma DataPrefix(p: Plan, i: nat)
    requires Shaped(p) && i <= |p.parts|
    ensures DataUpTo(p, i) <= DataUpTo(p, |p.parts|)
  {
    hide Refs;
    FlattenSplit(Kept(p), i);
    assert Kept(p)[..|p.parts|] == Kept(p);
  }

  lemma RecordInData(p: Plan, e: nat)
    requires Shaped(p) && DataUpTo(p, |p.parts|) == Flatten(p.records) + p.more && e < |p.records|
    ensures var start, all := RecordStart(p, e), DataUpTo(p, |p.parts|);
      start + |p.records[e]| <= |all| && all[start..start + |p.records[e]|] == p.records[e]
  {
    hide DataUpTo;
    hide Flatten;
    RecordStartNext(p, e);
    FlattenSplit(p.records, e + 1);
    var front, rest := Flatten(p.records[..e]), Flatten(p.records[e + 1..]);
    Assoc(front + p.records[e], rest, p.more);
    MiddleSlice(front, p.records[e], rest + p.more);
  }

  /** While a record still lacks bytes, some block has not been read. */
  lemma MoreBlocks(p: Plan, i: nat, e: nat, r: nat)
    requires WellFormedPlan(p) && i <= |p.parts| && e < |p.records| && r < |p.records[e]|
    requires |DataUpTo(p, i)| <= RecordStart(p, e) + r
    ensures i < |p.parts|
  {
    hide BlocksDecode;
    hide GridBlocksApart;
    hide GroupsRecognised;
    hide Tiled;
    hide Refs;
    RecordStartNext(p, e);
    RecordStartsGrow(p, e + 1, |p.records|);
    assert p.records[..|p.records|] == p.records;
  }

  /**
    * The reader's test for skipping a block is exact: wherever it needs a block, it skips the grid blocks
    * and no others.
    */
  lemma SkipsExactlyGrid(p: Plan, i: nat, e: nat, r: nat)
    requires WellFormedPlan(p) && i < |p.parts| && e < |p.records| && r < |p.records[e]|
    requires |DataUpTo(p, i)| == RecordStart(p, e) + r
    ensures p.grid[i] <==>
      && r == 0 && e > 0 && e % RECORDS_PER_INDEX_GROUP == 0
      && p.spatial && p.format.hasVar && !LooksLikeRecords(p.parts[i], p.format.fixedSize, PROBES)
  {
    hide BlocksDecode;
    hide GridBlocksApart;
    hide GroupsRecognised;
    hide Tiled;
    hide Refs;
    hide LooksLikeRecords;
    RecordStartNext(p, e);
    RecordStartsGrow(p, e + 1, |p.records|);
    if p.grid[i] {
      assert p.records[..|p.records|] == p.records;
      GridAt(p, i);
      var g: nat :| GroupEnd(p, g) && |DataUpTo(p, i)| == RecordStart(p, g);
      if g < e {
        RecordStartsGrow(p, g, e);
      } else if g > e {
        RecordStartsGrow(p, e + 1, g);
      }
    } else if r == 0 && e > 0 && e % RECORDS_PER_INDEX_GROUP == 0 && p.spatial && p.format.hasVar {
      RecognisedAt(p, i, e);
    }
  }

  lemma GridAt(p: Plan, i: nat)
    requires Shaped(p) && GridBlocksApart(p) && i < |p.parts| && p.grid[i]
    ensures p.spatial && p.format.hasVar && !LooksLikeRecords(p.parts[i], p.format.fixedSize, PROBES)
    ensures |DataUpTo(p, i)| >= RecordStart(p, |p.records|)
      || exists e: nat :: GroupEnd(p, e) && |DataUpTo(p, i)| == RecordStart(p, e)
  {
  }

  lemma RecognisedAt(p: Plan, i: nat, e: nat)
    requires Shaped(p) && GroupsRecognised(p) && i < |p.parts| && !p.grid[i] && GroupEnd(p, e) && p.spatial
    requires p.format.hasVar
    requires |DataUpTo(p, i)| == RecordStart(p, e)
    ensures LooksLikeRecords(p.parts[i], p.format.fixedSize, PROBES)
  {
  }

  lemma BlockAt(p: Plan, i: nat)
    requires Shaped(p) && BlocksDecode(p) && i < |p.parts|
    ensures Contents(p.raw, Refs(p)[i]) == Some(p.parts[i]) && Capacity(Refs(p)[i]) < TWO_32
  {
  }

  /** One more block of a tiled region, or its end. */
  lemma TiledStep(raw: Bytes, pos: nat)
    requires pos <= |raw| && Tiled(raw, pos)
    ensures pos == |raw| <==> Boundaries(raw, pos) == []
    ensures pos < |raw| ==>
      && pos + 4 <= |raw|
      && var rawLen := FromU32Le(raw[pos..pos + 4]);
         var next := pos + 4 + rawLen % TWO_31;
         next <= |raw| && Tiled(raw, next)
         && Boundaries(raw, pos) == [BlockRef(pos + 4, rawLen % TWO_31, rawLen >= TWO_31)] + Boundaries(raw, next)
  {
  }
}

module StreamReader {
  import opened Bytes
  import opened BatchSizes
  import opened RecordScan
  import opened BlockReader
  import opened StreamPlan
  import opened Prefetch
  import LzfFormat

  class YxdbReader {
    ghost const plan: Plan
    const raw: Bytes
    const format: Format
    const spatial: bool
    const numRecords: nat
    const prefetch: PrefetchWorker
    var streamPos: nat
    var lzfOut: Bytes
    var lzfOutIdx: nat
    var lzfCapacity: nat
    var spareCapacity: nat
    var currentRecord: nat
    var recordBytesRead: nat
    var requestOutstanding: bool
    /** Blocks received from the worker. */
    ghost var received: nat

    ghost predicate Fixed() {
      && WellFormedPlan(plan) && plan.raw == raw && plan.format == format && plan.spatial == spatial
      && numRecords == |plan.records|
    }

    /** A job is in flight exactly when `outstanding` says so, and it is for the next block. */
    ghost predicate InStep(outstanding: bool)
      requires Fixed()
      reads this`streamPos, this`lzfCapacity, this`spareCapacity, this`received, prefetch
    {
      && received <= |plan.parts| && streamPos <= |raw| && Tiled(raw, streamPos)
      && prefetch.Valid() && lzfCapacity < TWO_32 && spareCapacity < TWO_32
      && (if outstanding then
            && received < |plan.parts| && |prefetch.Outstanding()| == 1
            && Delivers(prefetch.Outstanding()[0], plan.parts[received])
            && Boundaries(raw, streamPos) == Refs(plan)[received + 1..]
          else
            prefetch.Outstanding() == [] && Boundaries(raw, streamPos) == Refs(plan)[received..])
    }

    /** Before the first block nothing has been requested; afterwards a request is missing only at the end. */
    ghost predicate Ahead()
      requires Fixed()
      reads this
    {
      requestOutstanding || received == 0 || received == |plan.parts|
    }

    /** Bytes of record data consumed, when `done` records are complete. */
    ghost function Consumed(done: nat): nat
      requires Fixed() && done <= |plan.records|
      reads this
    {
      RecordStart(plan, done) + recordBytesRead
    }

    /** What is left of the current block is the record data up to it that has not been consumed. */
    ghost predicate Synced(done: nat)
      requires Fixed() && done <= |plan.records|
      reads this
    {
      && received <= |plan.parts| && lzfOutIdx <= |lzfOut|
      && Consumed(done) <= |DataUpTo(plan, received)|
      && DataUpTo(plan, received)[Consumed(done)..] == lzfOut[lzfOutIdx..]
    }

    ghost function Done(): nat
      requires Fixed()
      reads this
    {
      if currentRecord < |plan.records| then currentRecord else |plan.records|
    }

    /** Between records: all bytes of the first `currentRecord` records are consumed and no others. */
    ghost predicate Valid()
      reads this, prefetch
    {
      Fixed() && InStep(requestOutstanding) && Ahead() && lzfOutIdx <= |lzfOut| && Between(Done())
    }

    ghost predicate Between(done: nat)
      requires Fixed() && done <= |plan.records|
      reads this
    {
      && received <= |plan.parts| && lzfOutIdx <= |lzfOut| && RecordStart(plan, done) <= |DataUpTo(plan, received)|
      && DataUpTo(plan, received)[RecordStart(plan, done)..] == lzfOut[lzfOutIdx..]
    }

    constructor (ghost plan: Plan, raw: Bytes, start: nat, format: Format, spatial: bool, numRecords: nat)
      requires WellFormedPlan(plan) && plan.raw == raw && plan.start == start && plan.format == format
      requires plan.spatial == spatial && numRecords == |plan.records|
      ensures Valid() && currentRecord == 0 && this.plan == plan && fresh(prefetch)
    {
      this.plan, this.raw, this.format, this.spatial, this.numRecords := plan, raw, format, spatial, numRecords;
      prefetch := new PrefetchWorker();
      streamPos := start;
      lzfOut, lzfOutIdx, lzfCapacity, spareCapacity := [], 0, 0, 262144;
      currentRecord, recordBytesRead, requestOutstanding, received := 0, 0, false, 0;
      new;
      assert plan.records[..0] == [] && Kept(plan)[..0] == [];
    }

    /** Hand the next stored block to the worker, unless the region has ended. */
    method SubmitNext() returns (submitted: bool)
      requires Fixed() && InStep(false)
      modifies this`streamPos, this`spareCapacity, prefetch
      ensures InStep(submitted)
      ensures submitted <==> received < |plan.parts|
    {
      hide Contents;
      hide Tiled;
      hide Boundaries;
      hide BlocksDecode;
      hide GridBlocksApart;
      hide GroupsRecognised;
      hide Work;
      hide Capacity;
      hide FromU32Le;
      hide DataUpTo;
      hide Kept;
      TiledStep(raw, streamPos);
      if streamPos >= |raw| {
        return false;
      }
      BlockAt(plan, received);
      var rawLen := FromU32Le(raw[streamPos..streamPos + 4]);
      var length := rawLen % TWO_31;
      var input := raw[streamPos + 4..streamPos + 4 + length];
      WorkDelivers(raw, BlockRef(streamPos + 4, length, rawLen >= TWO_31), plan.parts[received], spareCapacity);
      streamPos := streamPos + 4 + length;
      assert Refs(plan)[received..][1..] == Refs(plan)[received + 1..];
      prefetch.Send(Job(input, rawLen >= TWO_31, spareCapacity));
      spareCapacity := 0;
      submitted := true;
    }

    /** In the middle of record number `done`. */
    ghost predicate Reading(done: nat)
      reads this, prefetch
    {
      && Fixed() && InStep(requestOutstanding) && Ahead() && done < |plan.records| && currentRecord == done + 1
      && recordBytesRead <= |plan.records[done]| && Synced(done)
    }

    /** Receive the block in flight and at once request the one after it. */
    method FetchBlock()
      requires Fixed() && requestOutstanding && InStep(true)
      modifies this`streamPos, this`lzfOut, this`lzfOutIdx, this`lzfCapacity, this`spareCapacity,
        this`requestOutstanding, this`received, prefetch
      ensures InStep(requestOutstanding) && received == old(received) + 1
      ensures requestOutstanding <==> received < |plan.parts|
      ensures lzfOut == plan.parts[old(received)] && lzfOutIdx == 0
    {
      hide Refs;
      hide Boundaries;
      hide Tiled;
      hide WellFormedPlan;
      hide TWO_32;
      spareCapacity, lzfOut, lzfCapacity := lzfCapacity, [], 0;
      prefetch.Interleave();
      var outcome := prefetch.Receive();
      requestOutstanding := false;
      lzfOut, lzfCapacity, lzfOutIdx := outcome.value.contents, outcome.value.bufferSize, 0;
      received := received + 1;
      requestOutstanding := SubmitNext();
    }

    /** Read blocks until one with record data is current. */
    method ReadNextBlock(ghost done: nat) returns (ok: bool)
      requires Reading(done) && recordBytesRead < |plan.records[done]| && lzfOutIdx == |lzfOut|
      modifies this`streamPos, this`lzfOut, this`lzfOutIdx, this`lzfCapacity, this`spareCapacity,
        this`requestOutstanding, this`received, prefetch
      ensures ok && Reading(done) && received > old(received)
    {
      hide InStep;
      hide BlocksDecode;
      hide GridBlocksApart;
      hide GroupsRecognised;
      hide Tiled;
      hide Refs;
      hide DataUpTo;
      hide LooksLikeRecords;
      assert |DataUpTo(plan, received)| == Consumed(done);
      MoreBlocks(plan, received, done, recordBytesRead);
      if !requestOutstanding {
        var submitted := SubmitNext();
        if !submitted {
          return false;
        }
        requestOutstanding := true;
      }
      while true
        invariant Fixed() && requestOutstanding && InStep(true) && received < |plan.parts| && received >= old(received)
        invariant |DataUpTo(plan, received)| == Consumed(done)
        decreases |plan.parts| - received
      {
        ghost var i := received;
        SkipsExactlyGrid(plan, i, done, recordBytesRead);
        DataNext(plan, i);
        FetchBlock();
        var recordsEmitted := if currentRecord == 0 then 0 else currentRecord - 1;
        var onGroupBoundary := recordsEmitted > 0 && recordsEmitted % RECORDS_PER_INDEX_GROUP == 0;
        var skip := false;
        if recordBytesRead == 0 && onGroupBoundary && spatial && format.hasVar {
          var isRecord := IsRecordBlock(lzfOut, format.fixedSize);
          skip := !isRecord;
        }
        if !skip {
          BlockIsCurrent(done, DataUpTo(plan, i));
          return true;
        }
        assert DataUpTo(plan, received) == DataUpTo(plan, i);
        MoreBlocks(plan, received, done, recordBytesRead);
        if !requestOutstanding {
          return false;
        }
      }
    }

    lemma BlockIsCurrent(done: nat, before: Bytes)
      requires Fixed() && InStep(requestOutstanding) && (requestOutstanding || received == |plan.parts|)
      requires done < |plan.records| && currentRecord == done + 1 && recordBytesRead <= |plan.records[done]|
      requires received <= |plan.parts| && DataUpTo(plan, received) == before + lzfOut
      requires lzfOutIdx == 0 && |before| == Consumed(done)
      ensures Reading(done)
    {
      hide InStep;
      hide Fixed;
      hide DataUpTo;
      hide RecordStart;
      FrontAndRest(before, lzfOut);
    }

    /** Copy out of the current block as much of the wanted `n` bytes as it holds. */
    method CopyOut(n: nat, ghost done: nat) returns (chunk: Bytes)
      requires Reading(done) && recordBytesRead + n <= |plan.records[done]|
      modifies this`lzfOutIdx, this`recordBytesRead
      ensures Reading(done)
      ensures |chunk| == if n <= |lzfOut| - old(lzfOutIdx) then n else |lzfOut| - old(lzfOutIdx)
      ensures lzfOutIdx == old(lzfOutIdx) + |chunk| && recordBytesRead == old(recordBytesRead) + |chunk|
      ensures chunk == plan.records[done][old(recordBytesRead)..recordBytesRead]
    {
      hide InStep;
      hide DataUpTo;
      hide BlocksDecode;
      hide GridBlocksApart;
      hide GroupsRecognised;
      hide Tiled;
      hide Refs;
      hide RecordStart;
      hide LooksLikeRecords;
      hide AllWellFormed;
      hide Flatten;
      var available := |lzfOut| - lzfOutIdx;
      var toCopy := if n <= available then n else available;
      ghost var data, pos := DataUpTo(plan, received), Consumed(done);
      assert |data| - pos == available;
      RecordBytes(plan, received, done, recordBytesRead, toCopy);
      chunk := lzfOut[lzfOutIdx..lzfOutIdx + toCopy];
      AdvanceTogether(data, pos, lzfOut, lzfOutIdx, toCopy);
      lzfOutIdx := lzfOutIdx + toCopy;
      recordBytesRead := recordBytesRead + toCopy;
    }

    /** Read the next `n` bytes of record number `done`, across as many blocks as they span. */
    method ReadBytes(n: nat, ghost done: nat) returns (ok: bool, dest: Bytes)
      requires Reading(done) && recordBytesRead + n <= |plan.records[done]|
      modifies this`streamPos, this`lzfOut, this`lzfOutIdx, this`lzfCapacity, this`spareCapacity, this`recordBytesRead,
        this`requestOutstanding, this`received, prefetch
      ensures ok && Reading(done) && recordBytesRead == old(recordBytesRead) + n
      ensures dest == plan.records[done][old(recordBytesRead)..recordBytesRead]
    {
      hide InStep;
      hide Ahead;
      hide WellFormedPlan;
      hide Synced;
      var remaining := n;
      dest := [];
      while remaining > 0
        invariant Reading(done) && 0 <= remaining <= n && recordBytesRead == old(recordBytesRead) + n - remaining
        invariant dest == plan.records[done][old(recordBytesRead)..recordBytesRead]
        decreases remaining, |plan.parts| - received
      {
        BlocksLeft(done);
        if lzfOutIdx >= |lzfOut| {
          ok := ReadNextBlock(done);
          if !ok {
            return;
          }
        }
        BlocksLeft(done);
        var chunk := CopyOut(remaining, done);
        dest := dest + chunk;
        remaining := remaining - |chunk|;
      }
      ok := true;
    }

    lemma BlocksLeft(done: nat)
      requires Reading(done)
      ensures received <= |plan.parts| && lzfOutIdx <= |lzfOut|
    {
      assert Synced(done);
    }

    /** The size word of record `e` and the parts that it splits the record into. */
    static lemma RecordParts(p: Plan, e: nat)
      requires WellFormedPlan(p) && e < |p.records|
      ensures var whole, head := p.records[e], p.format.fixedSize + 4;
        if p.format.hasVar then
          && head <= |whole| && |whole| == head + FromU32Le(whole[p.format.fixedSize..head])
          && whole[0..head] + whole[head..|whole|] == whole
        else |whole| == p.format.fixedSize && whole[0..|whole|] == whole
    {
      hide *;
      RecordSizes(p, e);
      var whole := p.records[e];
      if p.format.hasVar {
        Rejoined(whole, p.format.fixedSize + 4);
      } else {
        Rejoined(whole, |whole|);
      }
    }

    static lemma RecordSizes(p: Plan, e: nat)
      requires WellFormedPlan(p) && e < |p.records|
      ensures var whole, head := p.records[e], p.format.fixedSize + 4;
        if p.format.hasVar then
          head <= |whole| && |whole| == head + FromU32Le(whole[p.format.fixedSize..head])
        else |whole| == p.format.fixedSize
    {
      hide *;
      PlanFormat(p);
      WellFormedSize(p.format, p.records[e]);
    }

    static lemma PlanFormat(p: Plan)
      requires WellFormedPlan(p)
      ensures RecordScan.Valid(p.format) && forall e :: 0 <= e < |p.records| ==> WellFormed(p.format, p.records[e])
    {
      hide WellFormed;
      hide DataUpTo;
      hide Flatten;
      hide Tiled;
      hide BlocksDecode;
      hide GridBlocksApart;
      hide GroupsRecognised;
      hide Refs;
    }

    static lemma Rejoined(s: Bytes, k: nat)
      requires k <= |s|
      ensures s[0..k] + s[k..|s|] == s && s[0..|s|] == s
    {
    }

    /** The next record of the sequence, or nothing once all have been read. */
    method NextRecord() returns (ok: bool, more: bool, record: Bytes)
      requires Valid()
      modifies this, prefetch
      ensures ok && Valid() && currentRecord == old(currentRecord) + 1
      ensures more <==> old(currentRecord) < |plan.records|
      ensures more ==> record == plan.records[old(currentRecord)]
    {
      hide InStep;
      hide DataUpTo;
      hide BlocksDecode;
      hide GridBlocksApart;
      hide GroupsRecognised;
      hide Tiled;
      hide Refs;
      hide LooksLikeRecords;
      hide Flatten;
      hide RecordStart;
      hide WellFormedPlan;
      ghost var done := currentRecord;
      currentRecord := currentRecord + 1;
      if currentRecord > numRecords {
        return true, false, [];
      }
      recordBytesRead := 0;
      assert Reading(done);
      ghost var whole := plan.records[done];
      RecordParts(plan, done);
      hide FromU32Le;
      hide Reading;
      if format.hasVar {
        var head := format.fixedSize + 4;
        ok, record := ReadBytes(head, done);
        if !ok {
          return;
        }
        SliceOfSlice(whole, 0, head, format.fixedSize, head);
        var varLen := FromU32Le(record[format.fixedSize..head]);
        var tail;
        ok, tail := ReadBytes(varLen, done);
        if !ok {
          return;
        }
        record := record + tail;
      } else {
        ok, record := ReadBytes(format.fixedSize, done);
        if !ok {
          return;
        }
      }
      RecordDone(done);
      more := true;
    }

    lemma RecordDone(done: nat)
      requires Reading(done) && recordBytesRead == |plan.records[done]|
      ensures Valid()
    {
      hide InStep;
      hide DataUpTo;
      hide RecordStart;
      hide WellFormedPlan;
      hide Ahead;
      hide Synced;
      hide Between;
      RecordStartNext(plan, done);
      SyncedIsBetween(done, done + 1);
      assert Done() == done + 1;
    }

    lemma SyncedIsBetween(done: nat, next: nat)
      requires Fixed() && done <= |plan.records| && next <= |plan.records| && Synced(done)
      requires RecordStart(plan, next) == RecordStart(plan, done) + recordBytesRead
      ensures Between(next) && lzfOutIdx <= |lzfOut|
    {
      hide Fixed;
      hide DataUpTo;
      hide RecordStart;
    }

    /** The next rows, at most `batchSize` of them; nothing when no row is left (or none is wanted). */
    method NextBatch(batchSize: nat) returns (ok: bool, rows: Option<seq<Bytes>>)
      requires Valid() && currentRecord <= |plan.records|
      modifies this, prefetch
      ensures ok && Valid() && currentRecord <= |plan.records|
      ensures rows.None? <==> old(currentRecord) == |plan.records| || batchSize == 0
      ensures rows.None? ==> currentRecord == old(currentRecord)
      ensures old(currentRecord) <= currentRecord
      ensures rows.Some? ==> (
        currentRecord
        == if |plan.records| - old(currentRecord) <= batchSize then |plan.records| else old(currentRecord) + batchSize)
      ensures rows.Some? ==> rows.value == plan.records[old(currentRecord)..currentRecord]
    {
      hide InStep;
      hide Ahead;
      hide Between;
      hide WellFormedPlan;
      if currentRecord >= numRecords {
        return true, None;
      }
      var remaining := numRecords - currentRecord;
      var thisBatch := if remaining <= batchSize then remaining else batchSize;
      var built := [];
      var count := 0;
      while count < thisBatch
        invariant Valid() && count <= thisBatch && currentRecord == old(currentRecord) + count
        invariant built == plan.records[old(currentRecord)..currentRecord]
      {
        var more, record;
        ok, more, record := NextRecord();
        if !ok {
          return;
        }
        if !more {
          break;
        }
        built := built + [record];
        count := count + 1;
      }
      ok := true;
      rows := if count == 0 then None else Some(built);
    }
  }

  lemma AdvanceTogether(a: Bytes, i: nat, b: Bytes, j: nat, n: nat)
    requires i + n <= |a| && j + n <= |b| && a[i..] == b[j..]
    ensures a[i..i + n] == b[j..j + n] && a[i + n..] == b[j + n..]
  {
    assert a[i..i + n] == a[i..][..n] && b[j..j + n] == b[j..][..n];
    assert a[i + n..] == a[i..][n..] && b[j + n..] == b[j..][n..];
  }

  ghost predicate Delivers(d: Option<Delivery>, part: Bytes) {
    d.Some? && d.value.contents == part && d.value.bufferSize < TWO_32
  }

  lemma WorkDelivers(raw: Bytes, b: BlockRef, part: Bytes, spare: nat)
    requires InRaw(raw, b) && Contents(raw, b) == Some(part) && Capacity(b) < TWO_32 && spare < TWO_32
    ensures Delivers(Work(Job(Payload(raw, b), b.uncompressed, spare)), part)
  {
    var job := Job(Payload(raw, b), b.uncompressed, spare);
    assert Wanted(job) == Capacity(b);
    if !b.uncompressed {
      InflateLarger(Payload(raw, b), Capacity(b), BufferSize(job));
    }
  }

  /**
    * Any sequence of positive batch sizes: together the batches are the record sequence, up to where the
    * sizes reach.
    */
  method ReadInBatches(reader: YxdbReader, sizes: seq<nat>) returns (ok: bool, rows: seq<Bytes>)
    requires reader.Valid() && reader.currentRecord == 0
    requires forall i :: 0 <= i < |sizes| ==> sizes[i] > 0
    modifies reader, reader.prefetch
    ensures ok && rows == reader.plan.records[..Least(Sum(sizes), |reader.plan.records|)]
  {
    hide YxdbReader.Valid;
    var n := 0;
    rows := [];
    while n < |sizes|
      invariant n <= |sizes| && reader.Valid()
      invariant reader.currentRecord == Least(Sum(sizes[..n]), |reader.plan.records|)
      invariant rows == reader.plan.records[..reader.currentRecord]
    {
      assert sizes[..n + 1] == sizes[..n] + [sizes[n]];
      SumAppend(sizes[..n], sizes[n]);
      var batch;
      ok, batch := reader.NextBatch(sizes[n]);
      if !ok {
        return;
      }
      if batch.Some? {
        rows := rows + batch.value;
      }
      n := n + 1;
    }
    assert sizes[..n] == sizes;
    ok := true;
  }
}
