// Reading stored blocks: finding them in the block region, and decompressing a list of them into
// one contiguous buffer that is compacted in place.

module BlockReader {
  import opened Bytes
  import opened LzfFormat
  import opened RecordScan
  import Lzf
  import LzfDecoder
  import opened BlockLayout

  // -- Finding the blocks --

  datatype BlockRef = BlockRef(offset: nat, length: nat, uncompressed: bool)

  /** The blocks whose 4-byte length and payload lie inside `raw`, from position `pos` on. */
  function Boundaries(raw: Bytes, pos: nat): (blocks: seq<BlockRef>)
    ensures forall i :: 0 <= i < |blocks| ==> blocks[i].offset + blocks[i].length <= |raw|
    decreases |raw| - pos
  {
    if pos + 4 > |raw| then []
    else
      var rawLen := FromU32Le(raw[pos..pos + 4]);
      var length := rawLen % TWO_31;
      if pos + 4 + length > |raw| then []
      else [BlockRef(pos + 4, length, rawLen >= TWO_31)] + Boundaries(raw, pos + 4 + length)
  }

  method ParseBlockBoundaries(raw: Bytes) returns (blocks: seq<BlockRef>)
    ensures blocks == Boundaries(raw, 0)
  {
    hide Boundaries;
    hide FromU32Le;
    blocks := [];
    var pos := 0;
    assert [] + Boundaries(raw, 0) == Boundaries(raw, 0);
    while pos + 4 <= |raw|
      invariant Boundaries(raw, 0) == blocks + Boundaries(raw, pos)
      decreases |raw| - pos
    {
      var rawLen := FromU32Le(raw[pos..pos + 4]);
      NextBoundary(raw, pos);
      pos := pos + 4;
      var length := rawLen % TWO_31;
      if pos + length > |raw| {
        assert blocks + [] == blocks;
        return;
      }
      var block := BlockRef(pos, length, rawLen >= TWO_31);
      Assoc(blocks, [block], Boundaries(raw, pos + length));
      blocks := blocks + [block];
      pos := pos + length;
    }
    NoBoundary(raw, pos);
    assert blocks + [] == blocks;
  }

  lemma NextBoundary(raw: Bytes, pos: nat)
    requires pos + 4 <= |raw|
    ensures
      var rawLen := FromU32Le(raw[pos..pos + 4]);
      var next := pos + 4 + rawLen % TWO_31;
      Boundaries(raw, pos)
      == if next > |raw| then []
         else [BlockRef(pos + 4, rawLen % TWO_31, rawLen >= TWO_31)] + Boundaries(raw, next)
  {
    hide FromU32Le;
  }

  lemma NoBoundary(raw: Bytes, pos: nat)
    requires pos + 4 > |raw|
    ensures Boundaries(raw, pos) == []
  {
  }

  // -- What a block holds --

  predicate InRaw(raw: Bytes, b: BlockRef) {
    b.offset + b.length <= |raw|
  }

  predicate AllInRaw(raw: Bytes, blocks: seq<BlockRef>) {
    forall i :: 0 <= i < |blocks| ==> InRaw(raw, blocks[i])
  }

  /** Output bytes set aside for a block. */
  function Capacity(b: BlockRef): nat {
    if b.uncompressed then b.length
    else if b.length * 10 > BLOCK_SIZE then b.length * 10 else BLOCK_SIZE
  }

  function Payload(raw: Bytes, b: BlockRef): Bytes
    requires InRaw(raw, b)
  {
    raw[b.offset..b.offset + b.length]
  }

  /** Contents of a block; None if it does not decompress into the space set aside for it. */
  function Contents(raw: Bytes, b: BlockRef): (c: Option<Bytes>)
    requires InRaw(raw, b)
    ensures c.Some? ==> |c.value| <= Capacity(b)
  {
    if b.uncompressed then Some(Payload(raw, b)) else Inflate(Payload(raw, b), Capacity(b))
  }

  /** With a filter, non-empty blocks that do not look like record data are dropped. */
  function Accepted(contents: Bytes, filter: Option<nat>): Bytes {
    if filter.Some? && contents != [] && !LooksLikeRecords(contents, filter.value, PROBES) then [] else contents
  }

  function Join(x: Option<Bytes>, y: Option<Bytes>): Option<Bytes> {
    if x.Some? && y.Some? then Some(x.value + y.value) else None
  }

  lemma JoinAssoc(x: Option<Bytes>, y: Option<Bytes>, z: Option<Bytes>)
    ensures Join(Join(x, y), z) == Join(x, Join(y, z))
  {
    if x.Some? && y.Some? && z.Some? {
      Assoc(x.value, y.value, z.value);
    }
  }

  function AcceptedContents(raw: Bytes, b: BlockRef, filter: Option<nat>): Option<Bytes>
    requires InRaw(raw, b)
  {
    match Contents(raw, b) case None => None case Some(c) => Some(Accepted(c, filter))
  }

  /** The accepted contents of all blocks, in order; None if any block fails. */
  function AllContents(raw: Bytes, blocks: seq<BlockRef>, filter: Option<nat>): Option<Bytes>
    requires AllInRaw(raw, blocks)
  {
    if blocks == [] then Some([])
    else Join(AcceptedContents(raw, blocks[0], filter), AllContents(raw, blocks[1..], filter))
  }

  lemma {:induction false} AllContentsConcat(raw: Bytes, a: seq<BlockRef>, b: seq<BlockRef>, filter: Option<nat>)
    requires AllInRaw(raw, a) && AllInRaw(raw, b)
    ensures AllInRaw(raw, a + b)
    ensures AllContents(raw, a + b, filter) == Join(AllContents(raw, a, filter), AllContents(raw, b, filter))
    decreases |a|
  {
    hide AcceptedContents;
    if a == [] {
      assert a + b == b;
      var y := AllContents(raw, b, filter);
      assert y.Some? ==> [] + y.value == y.value;
    } else {
      assert (a + b)[0] == a[0] && (a + b)[1..] == a[1..] + b;
      AllContentsConcat(raw, a[1..], b, filter);
      JoinAssoc(AcceptedContents(raw, a[0], filter), AllContents(raw, a[1..], filter), AllContents(raw, b, filter));
    }
  }

  /** Contents of each block by itself. */
  ghost predicate AllDecode(raw: Bytes, blocks: seq<BlockRef>)
    requires AllInRaw(raw, blocks)
  {
    forall i :: 0 <= i < |blocks| ==> Contents(raw, blocks[i]).Some?
  }

  lemma {:induction false} AllContentsIff(raw: Bytes, blocks: seq<BlockRef>, filter: Option<nat>)
    requires AllInRaw(raw, blocks)
    ensures AllContents(raw, blocks, filter).Some? <==> AllDecode(raw, blocks)
    decreases |blocks|
  {
    hide Contents;
    hide Accepted;
    if blocks != [] {
      AllContentsIff(raw, blocks[1..], filter);
      assert AllDecode(raw, blocks) <==> Contents(raw, blocks[0]).Some? && AllDecode(raw, blocks[1..]) by {
        if Contents(raw, blocks[0]).Some? && AllDecode(raw, blocks[1..]) {
          forall i | 0 <= i < |blocks| ensures Contents(raw, blocks[i]).Some? {
            if i > 0 {
              assert blocks[i] == blocks[1..][i - 1];
            }
          }
        }
        if AllDecode(raw, blocks) {
          forall i | 0 <= i < |blocks[1..]| ensures Contents(raw, blocks[1..][i]).Some? {
            assert blocks[1..][i] == blocks[i + 1];
          }
        }
      }
    }
  }

  // -- The writer's blocks are read back --

  /** A 4-byte length whose low 31 bits are the payload size, followed by the payload, is one block. */
  lemma BoundaryAt(raw: Bytes, pos: nat, n: nat, payload: Bytes, rest: Bytes)
    requires n < TWO_32 && n % TWO_31 == |payload| && pos <= |raw| && raw[pos..] == U32Le(n) + (payload + rest)
    ensures var next := pos + 4 + |payload|;
      && next <= |raw| && raw[next..] == rest && raw[pos + 4..next] == payload
      && Boundaries(raw, pos) == [BlockRef(pos + 4, |payload|, n >= TWO_31)] + Boundaries(raw, next)
  {
    var data := raw[pos..];
    assert data[..4] == U32Le(n) && data[4..4 + |payload|] == payload && data[4 + |payload|..] == rest;
    assert raw[pos..pos + 4] == data[..4];
    U32RoundTrip(n);
  }

  /** Length word and payload of a stored block. */
  function LengthWord(block: Bytes): nat {
    match Lzf.Compressed(block) case Some(c) => |c| case None => |block| % TWO_31 + TWO_31
  }

  function StoredPayload(block: Bytes): Bytes {
    match Lzf.Compressed(block) case Some(c) => c case None => block
  }

  lemma PayloadReadBack(raw: Bytes, b: BlockRef, block: Bytes)
    requires 0 < |block| <= BLOCK_SIZE && InRaw(raw, b) && Payload(raw, b) == StoredPayload(block)
    requires b.uncompressed == (LengthWord(block) >= TWO_31)
    ensures Contents(raw, b) == Some(block)
  {
    if Lzf.Compressed(block).Some? {
      Lzf.RoundTrip(block, Capacity(b) % TWO_32);
    }
  }

  lemma FrameParts(block: Bytes)
    requires 0 < |block| <= BLOCK_SIZE
    ensures var n := LengthWord(block);
      n < TWO_32 && n % TWO_31 == |StoredPayload(block)| && Frame(block) == U32Le(n) + StoredPayload(block)
  {
    hide Lzf.Compressed;
    hide Decode;
    if Lzf.Compressed(block).Some? {
      Lzf.RoundTrip(block, BLOCK_SIZE);
    }
  }

  lemma FrameReadBack(raw: Bytes, pos: nat, block: Bytes, rest: Bytes)
    requires 0 < |block| <= BLOCK_SIZE && pos <= |raw| && raw[pos..] == Frame(block) + rest
    ensures var next := pos + |Frame(block)|;
      && next <= |raw| && raw[next..] == rest
      && |Boundaries(raw, pos)| > 0 && Boundaries(raw, pos) == [Boundaries(raw, pos)[0]] + Boundaries(raw, next)
      && Contents(raw, Boundaries(raw, pos)[0]) == Some(block)
  {
    hide Contents;
    hide Frame;
    hide LengthWord;
    hide StoredPayload;
    var n, payload := LengthWord(block), StoredPayload(block);
    FrameParts(block);
    Assoc(U32Le(n), payload, rest);
    BoundaryAt(raw, pos, n, payload, rest);
    PayloadReadBack(raw, BlockRef(pos + 4, |payload|, n >= TWO_31), block);
  }

  /** The block region of a written file splits into exactly the written blocks. */
  lemma {:induction false} BlocksReadBack(raw: Bytes, pos: nat, blocks: seq<Bytes>)
    requires forall i :: 0 <= i < |blocks| ==> 0 < |blocks[i]| <= BLOCK_SIZE
    requires pos <= |raw| && raw[pos..] == Stream(blocks)
    ensures |Boundaries(raw, pos)| == |blocks|
    ensures forall i :: 0 <= i < |blocks| ==> Contents(raw, Boundaries(raw, pos)[i]) == Some(blocks[i])
    decreases |blocks|
  {
    hide Frame;
    hide Contents;
    if blocks == [] {
      assert Stream(blocks) == [];
    } else {
      FirstFrame(blocks);
      hide Stream;
      FrameReadBack(raw, pos, blocks[0], Stream(blocks[1..]));
      var next := pos + |Frame(blocks[0])|;
      BlocksReadBack(raw, next, blocks[1..]);
      OneBlockMore(raw, Boundaries(raw, pos), Boundaries(raw, next), blocks);
    }
  }

  lemma OneBlockMore(raw: Bytes, refs: seq<BlockRef>, rest: seq<BlockRef>, blocks: seq<Bytes>)
    requires AllInRaw(raw, refs) && blocks != [] && |rest| == |blocks| - 1 && refs != [] && refs == [refs[0]] + rest
    requires Contents(raw, refs[0]) == Some(blocks[0])
    requires AllInRaw(raw, rest) && forall i :: 0 <= i < |rest| ==> Contents(raw, rest[i]) == Some(blocks[1..][i])
    ensures forall i :: 0 <= i < |blocks| ==> Contents(raw, refs[i]) == Some(blocks[i])
  {
    hide Contents;
    forall i | 0 <= i < |blocks| ensures Contents(raw, refs[i]) == Some(blocks[i]) {
      if i > 0 {
        assert refs[i] == rest[i - 1] && blocks[i] == blocks[1..][i - 1];
      }
    }
  }

  lemma {:induction false} ContentsInOrder(raw: Bytes, refs: seq<BlockRef>, blocks: seq<Bytes>)
    requires AllInRaw(raw, refs) && |refs| == |blocks|
    requires forall i :: 0 <= i < |blocks| ==> Contents(raw, refs[i]) == Some(blocks[i])
    ensures AllContents(raw, refs, None) == Some(Flatten(blocks))
  {
    hide Contents;
    if blocks != [] {
      ContentsInOrder(raw, refs[1..], blocks[1..]);
    }
  }

  /** The written blocks decompress to their data, in order. */
  lemma StreamReadBack(raw: Bytes, pos: nat, blocks: seq<Bytes>)
    requires forall i :: 0 <= i < |blocks| ==> 0 < |blocks[i]| <= BLOCK_SIZE
    requires pos <= |raw| && raw[pos..] == Stream(blocks)
    ensures |Boundaries(raw, pos)| == |blocks|
    ensures AllContents(raw, Boundaries(raw, pos), None) == Some(Flatten(blocks))
  {
    hide Contents;
    hide Boundaries;
    hide Stream;
    BlocksReadBack(raw, pos, blocks);
    ContentsInOrder(raw, Boundaries(raw, pos), blocks);
  }

  lemma FirstFrame(blocks: seq<Bytes>)
    requires blocks != []
    ensures Stream(blocks) == Frame(blocks[0]) + Stream(blocks[1..])
  {
    assert Frames(blocks)[0] == Frame(blocks[0]) && Frames(blocks)[1..] == Frames(blocks[1..]);
  }

  // -- Decompressing a list of blocks into one buffer --

  /** Where each block's output goes: the sum of what is set aside before it. */
  function Offset(prefixLen: nat, blocks: seq<BlockRef>, k: nat): nat
    requires k <= |blocks|
  {
    if k == 0 then prefixLen else Offset(prefixLen, blocks, k - 1) + Capacity(blocks[k - 1])
  }

  lemma {:induction false} OffsetsDisjoint(prefixLen: nat, blocks: seq<BlockRef>, i: nat, j: nat)
    requires i < j <= |blocks|
    ensures Offset(prefixLen, blocks, i) + Capacity(blocks[i]) <= Offset(prefixLen, blocks, j)
    decreases j
  {
    if i < j - 1 {
      OffsetsDisjoint(prefixLen, blocks, i, j - 1);
    }
  }

  method BlockOffsets(prefixLen: nat, blocks: seq<BlockRef>) returns (offsets: seq<nat>)
    ensures |offsets| == |blocks| + 1
    ensures forall k :: 0 <= k <= |blocks| ==> offsets[k] == Offset(prefixLen, blocks, k)
  {
    hide Capacity;
    offsets := [prefixLen];
    for idx := 0 to |blocks|
      invariant |offsets| == idx + 1
      invariant forall k :: 0 <= k <= idx ==> offsets[k] == Offset(prefixLen, blocks, k)
    {
      offsets := offsets + [offsets[idx] + Capacity(blocks[idx])];
    }
  }

  ghost predicate HoldsAt(buf: array<byte>, off: nat, data: Bytes)
    reads buf
  {
    off + |data| <= buf.Length && forall i :: 0 <= i < |data| ==> buf[off + i] == data[i]
  }

  lemma HoldsAtConcat(buf: array<byte>, a: Bytes, b: Bytes)
    requires HoldsAt(buf, 0, a) && HoldsAt(buf, |a|, b)
    ensures HoldsAt(buf, 0, a + b)
  {
    forall i | 0 <= i < |a + b| ensures buf[0 + i] == (a + b)[i] {
      if i >= |a| {
        assert buf[|a| + (i - |a|)] == b[i - |a|];
      } else {
        assert buf[0 + i] == a[i];
      }
    }
  }

  /** The offsets leave room for every part before the next one starts. */
  predicate Spaced(offsets: seq<nat>, sizes: seq<nat>, n: nat) {
    && |offsets| == n + 1 && |sizes| == n
    && forall i, j :: 0 <= i < j <= n ==> offsets[i] + sizes[i] <= offsets[j]
  }

  /** One job: place a block's contents at its own offset, touching nothing outside its capacity. */
  method RunJob(raw: Bytes, b: BlockRef, buf: array<byte>, start: nat) returns (n: Option<nat>)
    requires InRaw(raw, b) && start + Capacity(b) <= buf.Length
    modifies buf
    ensures LzfDecoder.OnlyWithin(buf, start, start + Capacity(b))
    ensures match Contents(raw, b) case None => n == None case Some(c) => n == Some(|c|) && HoldsAt(buf, start, c)
  {
    hide Inflate;
    if b.uncompressed {
      CopyPayload(raw, b, buf, start);
      n := Some(b.length);
    } else {
      n := LzfDecoder.DecompressInto(Payload(raw, b), buf, start, Capacity(b));
      if n.Some? {
        assert |buf[start..start + n.value]| == n.value;
        SliceHolds(buf, start, Contents(raw, b).value);
      }
    }
  }

  /** An uncompressed block is copied as it is. */
  method CopyPayload(raw: Bytes, b: BlockRef, buf: array<byte>, start: nat)
    requires InRaw(raw, b) && start + b.length <= buf.Length
    modifies buf
    ensures LzfDecoder.OnlyWithin(buf, start, start + b.length) && HoldsAt(buf, start, Payload(raw, b))
  {
    forall i | 0 <= i < b.length {
      buf[start + i] := raw[b.offset + i];
    }
  }

  lemma SliceHolds(buf: array<byte>, off: nat, data: Bytes)
    requires off + |data| <= buf.Length && buf[off..off + |data|] == data
    ensures HoldsAt(buf, off, data)
  {
    forall i | 0 <= i < |data| ensures buf[off + i] == data[i] {
      assert buf[off + i] == buf[off..off + |data|][i];
    }
  }

  ghost predicate JobDone(raw: Bytes, blocks: seq<BlockRef>, buf: array<byte>, offsets: seq<nat>, sizes: seq<nat>,
      i: nat)
    requires AllInRaw(raw, blocks) && i < |blocks| && |offsets| == |blocks| + 1 && |sizes| == |blocks|
    reads buf
  {
    var c := Contents(raw, blocks[i]);
    c.Some? && sizes[i] == |c.value| && HoldsAt(buf, offsets[i], c.value)
  }

  /** A schedule of `n` jobs: every job is run, in any order. */
  predicate IsSchedule(order: seq<nat>, n: nat) {
    (forall k :: 0 <= k < |order| ==> order[k] < n) && (forall i :: 0 <= i < n ==> i in order)
  }

  /** The buffer layout a list of jobs works in. */
  ghost predicate Prepared(raw: Bytes, blocks: seq<BlockRef>, buf: array<byte>, prefixLen: nat, offsets: seq<nat>) {
    && AllInRaw(raw, blocks) && |offsets| == |blocks| + 1 && offsets[|blocks|] <= buf.Length
    && forall k :: 0 <= k <= |blocks| ==> offsets[k] == Offset(prefixLen, blocks, k)
  }

  /** The prefix is still zero and the jobs in `done` have their contents in place. */
  ghost predicate JobsDone(raw: Bytes, blocks: seq<BlockRef>, buf: array<byte>, prefixLen: nat, offsets: seq<nat>,
      sizes: seq<nat>, done: set<nat>)
    requires AllInRaw(raw, blocks) && |offsets| == |blocks| + 1 && |sizes| == |blocks|
    reads buf
  {
    HoldsAt(buf, 0, Zeros(prefixLen))
      && forall i :: i in done ==> i < |blocks| && JobDone(raw, blocks, buf, offsets, sizes, i)
  }

  /** Running one more job leaves what the others wrote alone. */
  method RunNext(raw: Bytes, blocks: seq<BlockRef>, buf: array<byte>, prefixLen: nat, offsets: seq<nat>,
      sizes: seq<nat>, idx: nat, ghost done: set<nat>)
    returns (n: Option<nat>)
    requires Prepared(raw, blocks, buf, prefixLen, offsets) && |sizes| == |blocks| && idx < |blocks|
    requires JobsDone(raw, blocks, buf, prefixLen, offsets, sizes, done)
    modifies buf
    ensures HoldsAt(buf, 0, Zeros(prefixLen))
    ensures n.Some? <==> Contents(raw, blocks[idx]).Some?
    ensures n.Some? ==> JobsDone(raw, blocks, buf, prefixLen, offsets, sizes[idx := n.value], done + {idx})
  {
    hide Contents;
    Inside(blocks, prefixLen, idx);
    n := RunJob(raw, blocks[idx], buf, offsets[idx]);
    if n.Some? {
      forall i | i in done && i != idx ensures JobDone(raw, blocks, buf, offsets, sizes[idx := n.value], i) {
        Separate(blocks, prefixLen, idx, i);
        assert old(JobDone(raw, blocks, buf, offsets, sizes, i));
      }
    }
  }

  /** All jobs, in whatever order they happen to run. */
  method RunJobs(raw: Bytes, blocks: seq<BlockRef>, buf: array<byte>, prefixLen: nat, offsets: seq<nat>,
      order: seq<nat>)
    returns (ok: bool, sizes: seq<nat>)
    requires Prepared(raw, blocks, buf, prefixLen, offsets) && IsSchedule(order, |blocks|)
    requires HoldsAt(buf, 0, Zeros(prefixLen))
    modifies buf
    ensures ok <==> AllDecode(raw, blocks)
    ensures HoldsAt(buf, 0, Zeros(prefixLen)) && |sizes| == |blocks|
    ensures ok ==> forall i :: 0 <= i < |blocks| ==> JobDone(raw, blocks, buf, offsets, sizes, i)
  {
    hide Contents;
    hide HoldsAt;
    hide JobDone;
    sizes := seq(|blocks|, _ => 0);
    ghost var done: set<nat> := {};
    for k := 0 to |order|
      invariant |sizes| == |blocks| && JobsDone(raw, blocks, buf, prefixLen, offsets, sizes, done)
      invariant forall m :: 0 <= m < k ==> order[m] in done
    {
      var idx := order[k];
      var n := RunNext(raw, blocks, buf, prefixLen, offsets, sizes, idx, done);
      if n == None {
        return false, sizes;
      }
      sizes := sizes[idx := n.value];
      done := done + {idx};
    }
    forall i | 0 <= i < |blocks| ensures JobDone(raw, blocks, buf, offsets, sizes, i) {
      assert i in order;
    }
    JobsDecode(raw, blocks, buf, offsets, sizes);
    ok := true;
  }

  lemma JobsDecode(raw: Bytes, blocks: seq<BlockRef>, buf: array<byte>, offsets: seq<nat>, sizes: seq<nat>)
    requires AllInRaw(raw, blocks) && |offsets| == |blocks| + 1 && |sizes| == |blocks|
    requires forall i :: 0 <= i < |blocks| ==> JobDone(raw, blocks, buf, offsets, sizes, i)
    ensures AllDecode(raw, blocks)
  {
    forall i | 0 <= i < |blocks| ensures Contents(raw, blocks[i]).Some? {
      assert JobDone(raw, blocks, buf, offsets, sizes, i);
    }
  }

  /** The destination of a block lies behind the prefix and inside the buffer. */
  lemma Inside(blocks: seq<BlockRef>, prefixLen: nat, idx: nat)
    requires idx < |blocks|
    ensures prefixLen <= Offset(prefixLen, blocks, idx)
    ensures Offset(prefixLen, blocks, idx) + Capacity(blocks[idx]) <= Offset(prefixLen, blocks, |blocks|)
  {
    OffsetsDisjoint(prefixLen, blocks, idx, |blocks|);
    if idx > 0 {
      OffsetsDisjoint(prefixLen, blocks, 0, idx);
    }
  }

  /** Two blocks have separate destinations. */
  lemma Separate(blocks: seq<BlockRef>, prefixLen: nat, i: nat, j: nat)
    requires i < |blocks| && j < |blocks| && i != j
    ensures || Offset(prefixLen, blocks, i) + Capacity(blocks[i]) <= Offset(prefixLen, blocks, j)
            || Offset(prefixLen, blocks, j) + Capacity(blocks[j]) <= Offset(prefixLen, blocks, i)
  {
    OffsetsDisjoint(prefixLen, blocks, if i < j then i else j, if i < j then j else i);
  }

  /** Blocks that fail the filter get size 0, so that compaction skips them. */
  method FilterBlocks(buf: array<byte>, offsets: seq<nat>, sizes: seq<nat>, filter: Option<nat>,
      ghost parts: seq<Bytes>)
    returns (kept: seq<nat>)
    requires |offsets| == |parts| + 1 && |sizes| == |parts|
    requires forall i :: 0 <= i < |parts| ==> sizes[i] == |parts[i]| && HoldsAt(buf, offsets[i], parts[i])
    ensures |kept| == |parts| && forall i :: 0 <= i < |parts| ==> kept[i] == |Accepted(parts[i], filter)|
  {
    if filter == None {
      return sizes;
    }
    kept := [];
    for idx := 0 to |sizes|
      invariant |kept| == idx && forall i :: 0 <= i < idx ==> kept[i] == |Accepted(parts[i], filter)|
    {
      var size := sizes[idx];
      if size > 0 {
        var start := offsets[idx];
        assert buf[start..start + size] == parts[idx];
        var isRecord := IsRecordBlock(buf[start..start + size], filter.value);
        if !isRecord {
          size := 0;
        }
      }
      kept := kept + [size];
    }
  }

  /** Move `size` bytes down inside the buffer, as a move that allows overlap. */
  method MoveDown(buf: array<byte>, readPos: nat, writePos: nat, size: nat, ghost data: Bytes)
    requires writePos <= readPos && |data| == size && HoldsAt(buf, readPos, data)
    modifies buf
    ensures LzfDecoder.OnlyWithin(buf, writePos, writePos + size) && HoldsAt(buf, writePos, data)
  {
    forall i | 0 <= i < size {
      buf[writePos + i] := buf[readPos + i];
    }
  }

  /**
    * Close the gaps between blocks, in place. No unread byte is overwritten, because writing never
    * overtakes reading.
    */
  method Compact(buf: array<byte>, prefixLen: nat, offsets: seq<nat>, sizes: seq<nat>, ghost parts: seq<Bytes>)
    returns (writePos: nat)
    requires Spaced(offsets, sizes, |parts|) && offsets[0] == prefixLen && offsets[|parts|] <= buf.Length
    requires forall i :: 0 <= i < |parts| ==> sizes[i] == |parts[i]| && HoldsAt(buf, offsets[i], parts[i])
    requires HoldsAt(buf, 0, Zeros(prefixLen))
    modifies buf
    ensures writePos == prefixLen + |Flatten(parts)| && HoldsAt(buf, 0, Zeros(prefixLen) + Flatten(parts))
  {
    writePos := prefixLen;
    assert parts[..0] == [] && Zeros(prefixLen) + [] == Zeros(prefixLen);
    for idx := 0 to |sizes|
      invariant writePos == prefixLen + |Flatten(parts[..idx])| && writePos <= offsets[idx]
      invariant HoldsAt(buf, 0, Zeros(prefixLen) + Flatten(parts[..idx]))
      invariant forall j :: idx <= j < |parts| ==> HoldsAt(buf, offsets[j], parts[j])
    {
      ghost var done, part := Zeros(prefixLen) + Flatten(parts[..idx]), parts[idx];
      assert parts[..idx + 1] == parts[..idx] + [part];
      FlattenAppend(parts[..idx], part);
      Assoc(Zeros(prefixLen), Flatten(parts[..idx]), part);
      label Before:
      if writePos != offsets[idx] && sizes[idx] > 0 {
        MoveDown(buf, offsets[idx], writePos, sizes[idx], part);
        assert HoldsAt(buf, 0, done);
        forall j | idx < j < |parts| ensures HoldsAt(buf, offsets[j], parts[j]) {
          assert old@Before(HoldsAt(buf, offsets[j], parts[j]));
        }
      }
      HoldsAtConcat(buf, done, part);
      writePos := writePos + sizes[idx];
    }
    assert parts[..|parts|] == parts;
  }

  function AcceptedParts(raw: Bytes, blocks: seq<BlockRef>, filter: Option<nat>): seq<Bytes>
    requires AllInRaw(raw, blocks) && AllDecode(raw, blocks)
  {
    seq(|blocks|, i requires 0 <= i < |blocks| => Accepted(Contents(raw, blocks[i]).value, filter))
  }

  lemma {:induction false} PartsFlatten(raw: Bytes, blocks: seq<BlockRef>, filter: Option<nat>)
    requires AllInRaw(raw, blocks) && AllDecode(raw, blocks)
    ensures AllContents(raw, blocks, filter) == Some(Flatten(AcceptedParts(raw, blocks, filter)))
    decreases |blocks|
  {
    if blocks != [] {
      assert AllDecode(raw, blocks[1..]) by {
        forall i | 0 <= i < |blocks[1..]| ensures Contents(raw, blocks[1..][i]).Some? {
          assert blocks[1..][i] == blocks[i + 1];
        }
      }
      PartsFlatten(raw, blocks[1..], filter);
      assert AcceptedParts(raw, blocks, filter)[1..] == AcceptedParts(raw, blocks[1..], filter);
    }
  }

  /** `prefixLen` zero bytes followed by the accepted contents of the blocks, or None if any block fails. */
  method DecompressBlockList(raw: Bytes, blocks: seq<BlockRef>, prefixLen: nat, filter: Option<nat>, order: seq<nat>)
    returns (r: Option<Bytes>)
    requires AllInRaw(raw, blocks) && IsSchedule(order, |blocks|)
    ensures match AllContents(raw, blocks, filter)
      case None => r == None
      case Some(c) => r == Some(Zeros(prefixLen) + c)
  {
    hide Contents;
    hide Accepted;
    hide Offset;
    var offsets := BlockOffsets(prefixLen, blocks);
    var total := offsets[|blocks|];
    OffsetsStart(prefixLen, blocks);
    var buf := new byte[if total > 1 then total else 1](_ => 0);
    assert total == Offset(prefixLen, blocks, |blocks|);
    assert prefixLen <= buf.Length;
    assert forall i :: 0 <= i < buf.Length ==> buf[i] == 0;
    assert forall i :: 0 <= i < prefixLen ==> buf[0 + i] == Zeros(prefixLen)[i];
    var ok, sizes := RunJobs(raw, blocks, buf, prefixLen, offsets, order);
    AllContentsIff(raw, blocks, filter);
    if !ok {
      return None;
    }
    PartsFlatten(raw, blocks, filter);
    var n := FilterAndCompact(raw, blocks, buf, prefixLen, offsets, sizes, filter);
    ghost var all := Zeros(prefixLen) + Flatten(AcceptedParts(raw, blocks, filter));
    assert |buf[..n]| == |all| && forall i :: 0 <= i < |all| ==> buf[0 + i] == all[i];
    assert buf[..n] == all;
    return Some(buf[..n]);
  }

  lemma OffsetsStart(prefixLen: nat, blocks: seq<BlockRef>)
    ensures Offset(prefixLen, blocks, 0) == prefixLen <= Offset(prefixLen, blocks, |blocks|)
  {
    if |blocks| > 0 {
      Inside(blocks, prefixLen, 0);
    }
  }

  lemma AcceptedHolds(buf: array<byte>, off: nat, contents: Bytes, filter: Option<nat>)
    requires HoldsAt(buf, off, contents)
    ensures HoldsAt(buf, off, Accepted(contents, filter))
  {
  }

  /** The filter and the compaction, once every block is in place. */
  method FilterAndCompact(raw: Bytes, blocks: seq<BlockRef>, buf: array<byte>, prefixLen: nat, offsets: seq<nat>,
      sizes: seq<nat>, filter: Option<nat>)
    returns (n: nat)
    requires Prepared(raw, blocks, buf, prefixLen, offsets) && AllDecode(raw, blocks) && |sizes| == |blocks|
    requires HoldsAt(buf, 0, Zeros(prefixLen))
    requires forall i :: 0 <= i < |blocks| ==> JobDone(raw, blocks, buf, offsets, sizes, i)
    modifies buf
    ensures var parts := AcceptedParts(raw, blocks, filter);
      n == prefixLen + |Flatten(parts)| && HoldsAt(buf, 0, Zeros(prefixLen) + Flatten(parts))
  {
    hide Contents;
    hide Accepted;
    hide HoldsAt;
    ghost var contents := seq(|blocks|, i requires 0 <= i < |blocks| => Contents(raw, blocks[i]).value);
    ghost var parts := AcceptedParts(raw, blocks, filter);
    forall i | 0 <= i < |contents| ensures sizes[i] == |contents[i]| && HoldsAt(buf, offsets[i], contents[i]) {
      assert JobDone(raw, blocks, buf, offsets, sizes, i);
    }
    var kept := FilterBlocks(buf, offsets, sizes, filter, contents);
    PartsFit(raw, blocks, filter, prefixLen, offsets, kept);
    OffsetsStart(prefixLen, blocks);
    forall i | 0 <= i < |parts| ensures kept[i] == |parts[i]| && HoldsAt(buf, offsets[i], parts[i]) {
      AcceptedHolds(buf, offsets[i], contents[i], filter);
    }
    n := Compact(buf, prefixLen, offsets, kept, parts);
  }

  lemma PartsFit(raw: Bytes, blocks: seq<BlockRef>, filter: Option<nat>, prefixLen: nat, offsets: seq<nat>,
      kept: seq<nat>)
    requires AllInRaw(raw, blocks) && AllDecode(raw, blocks) && |offsets| == |blocks| + 1 && |kept| == |blocks|
    requires forall k :: 0 <= k <= |blocks| ==> offsets[k] == Offset(prefixLen, blocks, k)
    requires forall i :: 0 <= i < |blocks| ==> kept[i] == |Accepted(Contents(raw, blocks[i]).value, filter)|
    ensures Spaced(offsets, kept, |blocks|)
  {
    forall i, j | 0 <= i < j <= |blocks| ensures offsets[i] + kept[i] <= offsets[j] {
      OffsetsDisjoint(prefixLen, blocks, i, j);
      assert kept[i] <= Capacity(blocks[i]);
    }
  }
}
