# SigilYX: a verified model of the YXDB codecs

SigilYX reads and writes two binary table formats. E1 files hold records, each a fixed part and data
of variable length, cut into blocks that are compressed with LZF, with an index of the blocks at which
every 65536th record starts. E2 files hold compact records whose field boundaries follow from the bytes.
This project models the byte algorithms and the two small concurrent protocols of both codecs, and
proves what they promise, for all inputs.

What the model is made of, from the hardest part on:

- **E2 records.** `E2Record` decodes single fields; `E2Wire`, `E2WireRow` and `E2Dates` say what values,
  rows and dates look like on disk, and that they are read back. `E2Framing` defines what an exact framing of a
  record is, by offsets and bases, and lists all framings. `E2Search` is the depth-first search with its
  memo of failed states, its cut-off at two candidates and its budget; `E2Decoder` decides from it.
  `E2Blocks` and `E2Reader` read the block stream, frame records, resolve blob references and deliver
  batches.
- **E1 writing.** `BlockLayout` defines the file that a record sequence determines. `YxdbWriter` is the
  streaming class; `Pipeline` is the writer with a compressor thread, as a system of steps over two
  channels of capacity 2. Both are proved to write that file.
- **E1 reading.** `BlockReader` decompresses a list of blocks into one buffer, in any order of jobs, and
  compacts it in place. `ChunkedReader` is the loop with the carry buffer. `StreamReader` is the reader
  that fetches blocks on demand from the worker in `Prefetch` and skips grid blocks. `RecordScan` defines
  the sequential parse that both must refine. `E1File`, `StreamedFile` and `TableFile` put writing and
  reading together.
- **LZF.** `LzfFormat` gives meaning to items and encodings, `Lzf` is the compressor, `LzfDecoder` the C
  routine with its copy strategies.
- **Records and scalars.** `RecordLayout` and `RecordReader` build and read records; `Calendar`,
  `DecimalText`, `E2DecimalValue`, `AsciiField` and `Transcode` are the scalar codecs. `TextFields` and
  `ScalarColumns` say of every text, number, date, time and decimal whether it comes back from a record.
- **Geometries.** `SpatialFormat`, `ShapeFormat`, `RingGroups` and `Spatial` convert lines and polygons
  between well-known binary and shape records (clause 8 of OGC 06-103r4).

`Bytes`, `LittleEndian`, `Digits`, `Fields` and `BatchSizes` hold what the others share.

Bytes are integers 0 to 255. Machine integers are unbounded, with wrap-around and truncation written out
where values can reach it. Floating-point numbers are their bytes; their equality is that of IEEE 754.
Decompression of E2 blocks, the guesses of the E2 date flag and integer base, the replacement of
malformed UTF-8, bounding boxes and ranges, and the sign of a ring's area are parameters, over all of
which the results are proved.

Where the code does not do what it or its documentation says, the model follows the code:

- A record with the same values under every framing is refused if one of them is a NaN
  (`E2Decoder.NaNIsRefused`, `E2Decoder.RefuseNaN`).
- The comment at `sigilyx/src/e2/reader.rs:266` says that projected fields are unique; the projection may
  name a column twice, and the second time the value is gone (`E2Rows.TakenIsProjected`, `E2Rows.RepeatedColumn`).
- The chunked reader repeats a turn for ever if the carried bytes fill the budget while blocks are left
  (`ChunkedReader.StallIff`). So a written file is read back if no record is longer than the budget
  (`E1File.WriteThenRead`), and never read to its end if one exceeds it by a block of 262144 bytes or more
  (`E1File.WriteThenStall`); in between, it depends on where the blocks end.
- The comment at `sigilyx/src/e1/reader.rs:916` promises another try with a larger buffer if a block does
  not fit; there is none, and `BlockReader.DecompressBlockList` fails.
- A line of a shape record that starts behind its end is written with a count near 2^32 and no points
  (`Spatial.WrappedLine`).
- A negative decimal whose digits are all fraction loses its last digit (`DecimalText.DecimalRoundTrip`).
- V_String values are written as UTF-8, not as Latin-1 as the comment at `sigilyx/src/e1/writer.rs:427` has it.
- The C routine is compiled without its input checks (`sigilyx/build.rs:17`), so it may read behind truncated
  input; in the model such input fails (`LzfFormat.UncheckedAgrees`). Where a result says that reading fails
  exactly if a block does, a block that ends inside an item counts as failing.
- The transcoder takes a unit behind an unmatched high surrogate along, the row reader does not
  (`Transcode.ReadersAgree`).

## Model

| member | source | states |
|---|---|---|
| E2Framing.FramingsExact | sigilyx/src/e2/reader.rs:879-967 | the depth-first walk lists exactly the value lists of exact framings: a cut of the record into fields that leaves no byte, with one base for all 32-bit integers except that one starting with 0x09 may take either |
| E2Framing.AlternativeOf | sigilyx/src/e2/reader.rs:907-943 | no decoding under an allowed base is dropped by the comparison with earlier alternatives |
| E2Search.AmbiguitySearch.constructor | sigilyx/src/e2/reader.rs:847-876 | a search starts with no failed state, no state counted and no candidate |
| E2Search.AmbiguitySearch.From | sigilyx/src/e2/reader.rs:879-967 | for any memo of states from which no framing starts: the candidates become what adding all framings in order, up to two different ones, gives; the answer says whether there is a framing; the memo stays sound, only grows, and holds every state found to fail; every call counts at least one state and an answer is given only within the budget of 16384, a refusal only beyond it, and the states counted are at most those of the whole tree |
| E2Search.AmbiguitySearch.TryEach | sigilyx/src/e2/reader.rs:945-966 | the alternatives of one field, cut off at two candidates, lose and invent no framing |
| E2Search.CollectNext | sigilyx/src/e2/reader.rs:945-962 | collecting the framings of one more alternative continues the collection |
| E2Search.CollectStops | sigilyx/src/e2/reader.rs:959-961 | once there are two candidates the remaining alternatives add nothing |
| E2Decoder.DecodeWithBase | sigilyx/src/e2/reader.rs:800-845 | one pass with one base: the values and whether an ambiguous integer was met, or nothing if a field fails or bytes are left |
| E2Decoder.UnambiguousPass | sigilyx/src/e2/reader.rs:742-758 | a pass that succeeds without meeting 0x09 has found the only framing under its base |
| E2Decoder.PassWithoutInt32 | sigilyx/src/e2/reader.rs:732-740 | without 32-bit integers in the schema the pass finds the one framing there can be |
| E2Decoder.CollectSecond | sigilyx/src/e2/reader.rs:890-913 | after one candidate, the search adds the first value list that differs from it and then stops |
| E2Decoder.MergeDecides | sigilyx/src/e2/reader.rs:768-780 | over both bases, the merged candidates are none, one or more exactly as there is no framing, one value list, or different value lists; the first is the first framing, and a second one differs from it |
| E2Decoder.DecodeRecordValues | sigilyx/src/e2/reader.rs:732-781 | a value list is returned only if all exact framings under both bases agree with it; an ambiguity error names two framings that differ; no framing is reported only if there is none; a limit is reported only if it is exceeded |
| E2Decoder.UniqueIsOneValue | sigilyx/src/e2/reader.rs:732-781 | an accepted value list is a framing and every other framing, under either base, equals it; if all framings equal one of them, the record is accepted |
| E2Decoder.WithinBudget | sigilyx/src/e2/reader.rs:28-36 | with n fields and k 32-bit integers, (n + 1) * 2^k <= 16384 excludes the budget error |
| E2Decoder.NaNIsRefused | sigilyx/src/e1/record.rs:7-28 | where several framings give the same list, it is accepted exactly if it holds no NaN, because equality is that of floating-point numbers |
| E2Decoder.NaNExample | sigilyx/src/e2/reader.rs:748-758 | a null integer followed by a NaN is refused as ambiguous, although every framing gives the same values |
| E2Decoder.RefuseNaN | sigilyx/src/e2/reader.rs:732-781 | on the bytes of that record the decoder reports an ambiguity between two lists that are the same, with either base preferred |
| E2Record.DecodeField | sigilyx/src/e2/record.rs:78-148 | a decoded field takes at least one byte and ends inside the record, whatever the bytes are |
| E2Wire.FormReads | sigilyx/src/e2/record.rs:78-148 | every wire form of every type (null markers, compact integers, shortened floats, short and long data, references, serials, packed decimals) is read as its value, wherever it stands, and the decoder stops behind it |
| E2Wire.IntReads | sigilyx/src/e2/record.rs:209-291 | a compact integer is read back, in two's complement at full width and unsigned below it |
| E2Wire.UnpackPacked | sigilyx/src/e2/record.rs:471-479 | packed digits are unpacked in order |
| E2WireRow.RowPass | sigilyx/src/e2/reader.rs:800-845 | one pass with the base a row was stored with reads the row, flag byte included |
| E2WireRow.RowIsFraming | sigilyx/src/e2/reader.rs:732-781 | a stored row is among the exact framings of its record |
| E2WireRow.NeverAnotherRow | sigilyx/src/e2/reader.rs:732-781 | whatever base the reader prefers, a record in wire form is read as its row (up to the two floating-point zeros) or refused; without 32-bit integers it is always read |
| E2Dates.SerialEpoch | sigilyx/src/e2/record.rs:744-750 | day serial 0 is 30 December 1899 |
| E2Dates.SerialReadBack | sigilyx/src/e2/record.rs:744-750 | the text of a day serial parses to the day that many days after 30 December 1899, up to the year 9999 |
| E2Dates.PackedReadBack | sigilyx/src/e2/record.rs:754-767 | the text of a packed timestamp parses to its day and its time in whole seconds, up to the year 9999 |
| E2Dates.CentisecondsReadBack | sigilyx/src/e2/record.rs:770-776 | the text of a time parses to its whole seconds, below 100 hours |
| E2Record.UnpackDigits | sigilyx/src/e2/record.rs:471-479 | the digit loop returns the digits of the first n nibbles, or the first nibble above 9 |
| E2DecimalValue.PackedDecimalValue | sigilyx/src/e2/record.rs:452-499 | the text of a packed decimal (zeros trimmed, filled up, point and sign put in) parses, at its scale, to the number its digits and sign stand for |
| E2Blocks.ReadBlock | sigilyx/src/e2/reader.rs:392-511 | a block that is read ends behind its start and inside the file; blob blocks are known by the offset at which they start |
| E2Blocks.RecordBlockReadBack | sigilyx/src/e2/reader.rs:448-478 | a stored record block is read as its records' bytes, wherever it stands |
| E2Blocks.BlobBlockReadBack | sigilyx/src/e2/reader.rs:406-447 | a stored blob block is read as its bytes, under the offset at which it stands |
| E2Blocks.IndexBlockPassed | sigilyx/src/e2/reader.rs:479-506 | an index block is passed over whole |
| E2Blocks.FrameSpans | sigilyx/src/e2/reader.rs:516-569 | framed records lie inside the block, and there are as many as its header declares |
| E2Blocks.FrameRecordSpans | sigilyx/src/e2/reader.rs:516-569 | the framing loop computes the spans that the recursive definition gives, or fails with it |
| E2Blocks.BlockReadBack | sigilyx/src/e2/reader.rs:516-569 | records laid out behind their sizes are framed as exactly those records, for any top bits of the sizes and anything behind the last record |
| E2Blocks.CountRecords | sigilyx/src/e2/reader.rs:208-221 | the count is the sum of the declared counts, and fails exactly where a block cannot be read |
| E2Blocks.CountIsExact | sigilyx/src/e2/reader.rs:208-282 | on a file that reads to its end, the count is the number of records there are |
| E2Blocks.BlobsComeFirst | sigilyx/src/e2/reader.rs:321-356 | the blobs a record can refer to stand in the file before the record's own block, each at the offset it is known by, and the last blob is the latest of them |
| E2Rows.ResolveBlobs | sigilyx/src/e2/reader.rs:679-727 | every blob reference is replaced by its blob or slice; the row fails exactly if one cannot be resolved |
| E2Rows.DecodeRecord | sigilyx/src/e2/reader.rs:663-730 | a decoded record is the row that its exact framings agree on, with its blobs; it fails only if there is no such row or a search limit is exceeded |
| E2Rows.TakeRow | sigilyx/src/e2/reader.rs:267-273 | the wanted values are moved out one after the other |
| E2Rows.TakenIsProjected | sigilyx/src/e2/reader.rs:266-273 | moving values out gives the projected row exactly if no value that is wanted again is other than a null boolean; so for every projection without repetition |
| E2Rows.RepeatedColumn | sigilyx/src/e2/reader.rs:266-273 | a column named twice is a null boolean the second time |
| E2Batches.E2Reader.constructor | sigilyx/src/e2/reader.rs:113-133 | a new reader has all records of the stream before it, none of them read |
| E2Batches.E2Reader.SetAllowUnverified | sigilyx/src/e2/reader.rs:133-142 | only the permission for unverified types is changed |
| E2Batches.E2Reader.DetectSettings | sigilyx/src/e2/reader.rs:337-346 | flag and base are settled by the first record block and by no later one |
| E2Batches.E2Reader.AdvanceToRecordBlock | sigilyx/src/e2/reader.rs:321-356 | moving on to the next record block loses and adds no record, keeps the blobs on the way, and ends exactly when no record is left |
| E2Batches.E2Reader.DecodeNext | sigilyx/src/e2/reader.rs:252-263 | the next record of the remaining ones is consumed and decoded |
| E2Batches.E2Reader.NextBatch | sigilyx/src/e2/reader.rs:233-282 | unless types are allowed or were checked before, a column of an unverified type (Time, WString) refuses the batch and leaves the reader as it was; otherwise a batch is the next min(size, rest) records, each with its row projected; what remains is the rest; any other error means a broken stream or a record without a row or over the limits |
| E2Batches.ReadInBatches | sigilyx/src/e2/reader.rs:233-282 | for any sequence of positive batch sizes and any projection, the concatenated batches are the projected rows of the sequential decode, up to where the sizes reach; it fails only for an unverified type, a broken stream or a record without a row or over the limits |
| BlockLayout.EmitAllKeeps | sigilyx/src/e1/writer.rs:217-260 | cutting records into blocks loses, moves and repeats no byte; blocks are neither empty nor longer than 262144 bytes; every mark is a block start with exactly the records before it |
| BlockLayout.FinishedHeader | sigilyx/src/e1/writer.rs:309-320 | patching position and count into the unfinished header gives the header of a file whose count was known from the start |
| StreamingWriter.YxdbWriter.constructor | sigilyx/src/e1/writer.rs:144-192 | a new writer has written header and metadata, and holds the start of the data as its first index entry |
| StreamingWriter.YxdbWriter.WriteFrame | sigilyx/src/e1/writer.rs:272-285 | a block is stored compressed or marked as uncompressed, and the file position counts its bytes |
| StreamingWriter.YxdbWriter.FlushBlock | sigilyx/src/e1/writer.rs:267-289 | flushing an empty buffer changes nothing; otherwise one block is written |
| StreamingWriter.YxdbWriter.StartGroup | sigilyx/src/e1/writer.rs:218-225 | before every 65536th record the block is ended and its position noted |
| StreamingWriter.YxdbWriter.AppendData | sigilyx/src/e1/writer.rs:247-259 | a record is cut into blocks as the sequential cut does it |
| StreamingWriter.YxdbWriter.WriteRecord | sigilyx/src/e1/writer.rs:217-260 | one record takes the writer from one state of the sequential cut to the next |
| StreamingWriter.YxdbWriter.WriteBatch | sigilyx/src/e1/writer.rs:199-264 | after a batch, the writer stands where one pass over all rows so far would stand |
| StreamingWriter.YxdbWriter.Finish | sigilyx/src/e1/writer.rs:297-323 | the finished file is the one that all records written determine |
| StreamingWriter.WriteInBatches | sigilyx/src/e1/writer.rs:144-323 | for any split of the rows into batches, the file is byte for byte that of all rows at once |
| Pipeline.NoDeadlock | sigilyx/src/e1/writer.rs:692-844 | in every state that satisfies the invariant, until the writer has finished, one of the two threads can go on |
| Pipeline.StepKeeps | sigilyx/src/e1/writer.rs:692-844 | every step of either thread keeps the invariant: channel sizes, the count of outstanding blocks and its bound at every point (3 after a drain, 4 before the next one, 5 after the last send), the order of bytes, exact index positions, and progress along the sequential cut |
| Pipeline.StepsDecreaseRank | sigilyx/src/e1/writer.rs:692-844 | every step of either thread brings the end nearer |
| Pipeline.RunInv | sigilyx/src/e1/writer.rs:692-844 | the invariant holds at the end of every run, under every interleaving, and a run is no longer than the rank of its start |
| Pipeline.EveryRunWritesTheFile | sigilyx/src/e1/writer.rs:472-531 | every run is finite; its file position counts the bytes written; a run that cannot be continued has finished, with the same file that the streaming writer produces |
| Pipeline.FinishedWritesAll | sigilyx/src/e1/writer.rs:822-844 | at the end the written bytes are the sequential concatenation of the stored blocks, and the index their positions |
| E1File.FieldsReadBack | sigilyx/src/e1/writer.rs:540-573 | metadata size, index position and record count are read back from the header |
| E1File.IndexEntries | sigilyx/src/e1/writer.rs:751-820 | entry k of the index is a file offset from which decompressing to the end of the block region yields exactly the records from k * 65536 on |
| E1File.WriteThenRead | sigilyx/src/e1/reader.rs:1280-1412 | reading a written file gives the records back, for every chunk budget that no record exceeds |
| E1File.WriteThenStall | sigilyx/src/e1/reader.rs:1280-1412 | reading a written file never ends if a record is at least as long as the chunk budget and one block of 262144 bytes together |
| E1File.RegionReadBack | sigilyx/src/e1/reader.rs:125-132 | the block region that the reader cuts out is exactly the stream of stored blocks |
| RecordScan.ParseConcat | sigilyx/src/e1/reader.rs:1179-1226 | a scan may stop anywhere and go on with its tail and more data |
| RecordScan.ParseFlatten | sigilyx/src/e1/reader.rs:1179-1226 | scanning concatenated records gives them back, whatever follows them |
| RecordScan.ScanPartial | sigilyx/src/e1/reader.rs:1179-1226 | the scan finds the end offsets of exactly the complete records of the data |
| RecordScan.FixedScan | sigilyx/src/e1/reader.rs:1044-1085 | dividing by the record size finds the same records as scanning one by one |
| RecordScan.IsRecordBlock | sigilyx/src/e1/reader.rs:816-837 | the probe accepts a block exactly if its first three records, as far as they start in it, end in it |
| BlockReader.ParseBlockBoundaries | sigilyx/src/e1/reader.rs:855-876 | the blocks found are those whose length word and payload lie inside the data |
| BlockReader.FrameReadBack | sigilyx/src/e1/reader.rs:855-876 | a stored block is found behind its length word, and decompresses to what was stored |
| BlockReader.StreamReadBack | sigilyx/src/e1/reader.rs:855-876 | the block region of a written file splits into exactly the written blocks, and they decompress to their data |
| BlockReader.OffsetsDisjoint | sigilyx/src/e1/reader.rs:915-931 | the output ranges of different blocks do not overlap |
| BlockReader.RunNext | sigilyx/src/e1/reader.rs:958-994 | running one more decompression job leaves what the others wrote alone |
| BlockReader.RunJobs | sigilyx/src/e1/reader.rs:958-994 | in whatever order the jobs run, every block's contents end up in its own range, or the list fails exactly if a block does (a block that ends inside an item counts as failing) |
| BlockReader.Compact | sigilyx/src/e1/reader.rs:1014-1036 | closing the gaps in place moves every block down without overwriting one not yet moved |
| BlockReader.DecompressBlockList | sigilyx/src/e1/reader.rs:899-1039 | the result is the reserved zero bytes followed by the contents of the accepted blocks in order; it fails exactly if a block does (a block that ends inside an item counts as failing) |
| ChunkedReader.ReadChunked | sigilyx/src/e1/reader.rs:1280-1412 | the loop with its carry buffer computes what the recursive definition of a turn gives |
| ChunkedReader.ReadSound | sigilyx/src/e1/reader.rs:1280-1412 | on success the rows are the first numRecords records of the sequential parse of the concatenated blocks, whatever the budget |
| ChunkedReader.ReadComplete | sigilyx/src/e1/reader.rs:1280-1412 | a clean file whose blocks decompress and whose records do not exceed the budget is read in full |
| ChunkedReader.LoopProgresses | sigilyx/src/e1/reader.rs:1313-1399 | with no record longer than the budget the loop always goes on |
| ChunkedReader.StallIff | sigilyx/src/e1/reader.rs:1313-1399 | a turn changes nothing exactly if blocks are left while the carried bytes already fill the budget (and are not refused as too many) |
| ChunkedReader.LongRecordDiverges | sigilyx/src/e1/reader.rs:1280-1412 | without the option to stop at the count, and with blocks of at most m bytes that all decompress, a wanted record of at least budget + m bytes is never completed: the read repeats a turn for ever |
| ChunkedReader.LongRecordStalls | sigilyx/src/e1/reader.rs:1313-1399 | for blocks of any size, as other writers may make them: the reader repeats such a turn for ever on a file whose first block is uncompressed, fills the budget and ends inside its first record, with another block behind it |
| ChunkedReader.StopAtCountProgresses | sigilyx/src/e1/reader.rs:1391-1397 | reading that stops at the record count never repeats a turn for ever |
| Prefetch.PrefetchWorker.constructor | sigilyx/src/e1/reader.rs:686-722 | a new worker has nothing in flight |
| Prefetch.PrefetchWorker.Step | sigilyx/src/e1/reader.rs:699-722 | a turn of the worker changes nothing that the reader will receive |
| Prefetch.PrefetchWorker.Interleave | sigilyx/src/e1/reader.rs:699-722 | nor do any number of turns at any time |
| Prefetch.PrefetchWorker.Send | sigilyx/src/e1/reader.rs:608-652 | with nothing in flight a job can be sent without waiting, and its result is what will be received |
| Prefetch.PrefetchWorker.Receive | sigilyx/src/e1/reader.rs:543-554 | with a job in flight the wait ends with its result |
| Prefetch.InflateLarger | sigilyx/src/e1/reader.rs:746-777 | a block decompresses to the same bytes in any larger buffer |
| StreamPlan.SkipsExactlyGrid | sigilyx/src/e1/reader.rs:566-596 | under the stated hypotheses on where grid blocks stand, the reader's test skips the grid blocks and no others |
| StreamPlan.RecordBytes | sigilyx/src/e1/reader.rs:478-505 | the bytes delivered inside a record are the bytes of that record |
| StreamReader.YxdbReader.constructor | sigilyx/src/e1/reader.rs:142-152 | a new reader stands before the first record with nothing requested |
| StreamReader.YxdbReader.SubmitNext | sigilyx/src/e1/reader.rs:608-652 | the next stored block is requested exactly if there is one, and it is the block behind the last one received |
| StreamReader.YxdbReader.FetchBlock | sigilyx/src/e1/reader.rs:539-564 | the block in flight is received and becomes current, and the next one is requested: at most one job is in flight, and the flag for it is exact |
| StreamReader.YxdbReader.ReadNextBlock | sigilyx/src/e1/reader.rs:520-602 | blocks are received in file order until one with record data is current |
| StreamReader.YxdbReader.CopyOut | sigilyx/src/e1/reader.rs:492-499 | what is copied out of the current block are the next bytes of the record |
| StreamReader.YxdbReader.ReadBytes | sigilyx/src/e1/reader.rs:478-505 | the next n bytes of the record, across all the blocks they span |
| StreamReader.YxdbReader.NextRecord | sigilyx/src/e1/reader.rs:160-190 | the next record of the sequence, or nothing once all have been read |
| StreamReader.YxdbReader.NextBatch | sigilyx/src/e1/reader.rs:393-473 | a batch is the next min(size, rest) records |
| StreamReader.ReadInBatches | sigilyx/src/e1/reader.rs:393-473 | for any positive batch sizes the concatenated batches are the record sequence, up to where the sizes reach |
| StreamedFile.WrittenPlan | sigilyx/src/e1/reader.rs:142-152 | the block region of every written file tiles, and satisfies all that the streaming reader relies on |
| StreamedFile.StreamBack | sigilyx/src/e1/reader.rs:160-190 | streaming a written file in batches of any positive sizes gives the written records |
| Lzf.Compress | sigilyx/src/e1/lzf.rs:111-253 | the compressor's loops, with the hash table and the back-patched literal headers, write the encoding of the greedy items; the output buffer never holds more than n + n/32 + 1 bytes for n input bytes |
| Lzf.ScanOne | sigilyx/src/e1/lzf.rs:133-223 | while scanning, the output is the start of the literal header plus one plus the literals; every turn advances, and keeps what the finished output will be |
| Lzf.MatchLength | sigilyx/src/e1/lzf.rs:152-156 | the match is as long as it can be, up to its limits |
| Lzf.Greedy | sigilyx/src/e1/lzf.rs:133-223 | whatever the hash table holds, the items are literals, or references of 3 to 264 bytes at distances of 1 to 8192 |
| Lzf.GreedyExpands | sigilyx/src/e1/lzf.rs:133-223 | the items expand to the input, whatever the hash table holds |
| Lzf.RoundTrip | sigilyx/src/e1/lzf.rs:111-253 | compressed data is shorter than its input, and decompresses to it in any buffer of at least its length |
| Lzf.PushRef | sigilyx/src/e1/lzf.rs:158-177 | a back-reference continues the encoding, with the literal header before it closed |
| Lzf.PushLiteral | sigilyx/src/e1/lzf.rs:211-222 | a literal continues the encoding, opening a new run after 32 |
| LzfFormat.DecodeEncode | sigilyx/csrc/lzf_d.c:64-183 | decoding the encoding of any valid items gives what they expand to, within the capacity |
| LzfFormat.EncodeBound | sigilyx/src/e1/lzf.rs:111-253 | an encoding is at most one byte per 32 longer than what it spans |
| LzfFormat.DecodeCapacity | sigilyx/csrc/lzf_d.c:72-76 | a larger buffer changes no successful decompression |
| LzfDecoder.LiteralSwitch | sigilyx/csrc/lzf_d.c:89-99 | entered at label n, the switch falls through n single copies: exactly the n octets of the run are copied, and nothing else is written |
| LzfDecoder.ReferenceSwitch | sigilyx/csrc/lzf_d.c:166-177 | entered at a label up to 9, the switch falls through its single copies, two of them at label 0: together they equal a forward byte-by-byte copy of label + 2 octets, also where source and target overlap |
| LzfDecoder.CopyOctets | sigilyx/csrc/lzf_d.c:156-162 | the byte loop over overlapping areas equals a forward byte-by-byte copy |
| LzfDecoder.CopyDisjoint | sigilyx/csrc/lzf_d.c:150-155 | the block copy of disjoint areas equals a forward byte-by-byte copy |
| LzfDecoder.CopyReference | sigilyx/csrc/lzf_d.c:145-177 | whichever of the three strategies the length and the distance choose, the result equals a forward byte-by-byte copy of code + 2 octets, and nothing else is written |
| LzfDecoder.LiteralRun | sigilyx/csrc/lzf_d.c:68-101 | a literal run is one step of the decoder, or fails with it; one that the input cuts off fails |
| LzfDecoder.BackReference | sigilyx/csrc/lzf_d.c:102-179 | a back-reference is one step of the decoder, or fails with it; one that the input cuts off fails |
| LzfFormat.UncheckedAgrees | sigilyx/build.rs:14-18 | the routine is built without input checks: reading on behind the input, whatever lies there, it does what the model does exactly if no item is cut off by the end of the input |
| LzfDecoder.LzfDecompress | sigilyx/csrc/lzf_d.c:55-184 | the buffer holds what the decoder's definition gives, with its length returned; on failure 0, and input that ends inside an item counts as failing; nothing outside the buffer's range changes |
| LzfDecoder.DecompressInto | sigilyx/src/e1/lzf.rs:63-90 | empty input is empty output, and a zero from the routine is an error; input that ends inside an item counts as failing |
| RecordLayout.RecordBuffers.SerializeField | sigilyx/src/e1/writer.rs:895-1291 | one field's place, data and fix-up are added, and nothing else in the buffers changes |
| RecordLayout.RecordBuffers.FixUp | sigilyx/src/e1/writer.rs:871-880 | all pointers are filled in, in order |
| RecordLayout.RecordBuffers.BuildRecord | sigilyx/src/e1/writer.rs:849-892 | the record of a row is built, whatever the buffers held before |
| RecordLayout.AllFixed | sigilyx/src/e1/writer.rs:871-880 | the fix-ups turn the raw places of all fields into the final ones |
| RecordReader.VarReadBack | sigilyx/src/e1/record.rs:315-368 | null, empty or not: every field of variable length gives back its bytes, for records below 2^31 bytes |
| RecordReader.BlockFound | sigilyx/src/e1/record.rs:339-366 | a block with a one-byte or a four-byte header is found with its data |
| RecordReader.FieldReadBack | sigilyx/src/e1/record.rs:68-256 | every field of a built record gives back the value of its cell: integers, booleans and floats unchanged, text as far as its field holds it |
| RecordReader.ExtractAllFields | sigilyx/src/e1/record.rs:56-62 | all fields in order, up to the first that fails |
| RecordReader.VariableCellsSurvive | sigilyx/src/e1/record.rs:188-212 | text and binary data of variable length come back unchanged, V_WString through UTF-16 |
| TextFields.StringSurvives | sigilyx/src/e1/record.rs:159-171 | text in a String field comes back exactly if its UTF-8 fits and it has no NUL, unless the width of the field cuts a character of it in two |
| TextFields.CutCharacter | sigilyx/src/e1/record.rs:159-171 | a character cut in two may come back all the same, through the replacement of what is left of it |
| TextFields.WideStringSurvives | sigilyx/src/e1/record.rs:173-181 | text in a WString field comes back exactly if its UTF-16 fits and it has no NUL, for the row reader and for the column reader's transcoder |
| TextFields.Utf8Injective | sigilyx/src/e1/reader.rs:1633-1635 | no two texts have the same UTF-8, so what is read back as bytes is read back as text |
| ScalarColumns.NumberReturns | sigilyx/src/e1/reader.rs:1867-2092 | the integer, decimal, day, time or timestamp written for a field is pushed for its column exactly if it is null or one that comes back: every integer of the type; days and timestamps of the years 0 to 9999 in whole seconds; times of whole seconds from 0 to 99 hours; decimals unless a negative one is all fraction and does not end in 0 |
| ScalarColumns.ColumnReturns | sigilyx/src/e1/reader.rs:1867-2092 | a column read from the records of a table is the column written exactly if every number in it is one that comes back |
| ScalarColumns.TimeReturns | sigilyx/src/e1/reader.rs:1553-1561 | through its field of 8 characters, a time comes back exactly if it is a number of whole seconds from 0 to below 100 hours |
| ScalarColumns.UnscaledReturns | sigilyx/src/e1/reader.rs:1951-1969 | through its field, a decimal of the column's precision and scale comes back exactly if scale < precision, or it is not negative, or 10 divides it |
| RecordReader.RecordsAreWellFormed | sigilyx/src/e1/writer.rs:882-891 | a built record is exactly as long as its own size field says, so scanners cut it out whole |
| TableFile.TableRoundTrip | sigilyx/src/e1/writer.rs:472-531 | a table written to a file and read back gives as many records as rows, and every field of every record gives its cell's value |
| LittleEndian.SignedReadBack | sigilyx/src/e1/record.rs:104-139 | an integer in the two's complement range of its field is read back from its little-endian bytes |
| ScalarColumns.IntegerWidths | sigilyx/src/field.rs:95-115 | the fixed part of an integer field holds exactly the numbers of its type, next to the null byte |
| ScalarColumns.TextWidths | sigilyx/src/field.rs:95-115 | next to the null byte, days, times and timestamps that come back fill their fields exactly, and a decimal fits into its field unless it is negative and all fraction |
| Calendar.DaysFollowTheCalendar | sigilyx/src/e1/writer.rs:1392-1404 | day 0 is 1 January 1970, every day is a valid Gregorian date, and the next day number is the next day of the calendar |
| Calendar.DaysRoundTrip | sigilyx/src/e1/reader.rs:1601-1608 | the date of a day number gives the day number back |
| Calendar.CivilRoundTrip | sigilyx/src/e1/reader.rs:1601-1608 | the day number of a valid date gives the date back |
| Calendar.WrapsAtTheEnd | sigilyx/src/e1/writer.rs:1392-1394 | the 32-bit conversion is right exactly below the day number at which its addition wraps |
| Calendar.DateRoundTrip | sigilyx/src/e1/reader.rs:1539-1549 | a date string gives its day number back exactly for the years 0 to 9999, in every longer buffer |
| Calendar.DatetimeRoundTrip | sigilyx/src/e1/reader.rs:1565-1575 | a timestamp string gives the timestamp floored to the second exactly for the years 0 to 9999 |
| Calendar.TimeRoundTrip | sigilyx/src/e1/reader.rs:1553-1561 | a time string gives the whole seconds back exactly for 0 to 99 hours |
| DecimalText.ParseDecimal | sigilyx/src/e1/reader.rs:1416-1451 | the two digit loops compute the value that the definition gives |
| DecimalText.FormatParses | sigilyx/src/e1/writer.rs:1320-1334 | a formatted decimal parses back, for every value and scale |
| DecimalText.DecimalRoundTrip | sigilyx/src/e1/writer.rs:396-404 | for |v| < 10^p and scale s <= p, the field of the inferred width gives v back exactly if s < p, or v is not negative, or 10 divides v; and the reader infers p |
| DecimalText.CutExample | sigilyx/src/e1/writer.rs:1337-1345 | -0.5 with precision 1 and scale 1 comes back as zero |
| AsciiField.FittedReadBack | sigilyx/src/e1/writer.rs:1337-1345 | text in a fixed-width field comes back exactly if it fits and holds no NUL |
| Transcode.ScalarStep | sigilyx/src/e1/reader.rs:1703-1750 | one turn of the scalar path writes the UTF-8 of the scalar value that the units stand for |
| Transcode.TranscodeScalar | sigilyx/src/e1/reader.rs:1703-1751 | the scalar path writes the UTF-8 of the decoded units |
| Transcode.TranscodeUtf16Le | sigilyx/src/e1/reader.rs:1627-1751 | with the eight-unit path the output is the same as the scalar path's, on every input |
| Transcode.Utf8IsValid | sigilyx/src/e1/reader.rs:1633-1635 | the output is always well-formed UTF-8, by the table of the Unicode Standard |
| Transcode.TextSurvives | sigilyx/src/e1/reader.rs:1627-1751 | the UTF-16LE form of any text is transcoded to its UTF-8 form |
| Transcode.ReadersAgree | sigilyx/src/e1/reader.rs:1718-1738 | the transcoder and a decoder that lets unmatched surrogates stand alone agree exactly if no unit behind an unmatched high surrogate is taken along with it |
| Spatial.ParseRingCoords | sigilyx/src/spatial.rs:896-930 | the points of a ring are read, or it fails exactly if there are too few bytes |
| Spatial.WkbMultiLineStringToShp | sigilyx/src/spatial.rs:546-572 | the offset loop parses every line in its own byte order and builds their shape record |
| Spatial.WkbMultiPolygonToShp | sigilyx/src/spatial.rs:575-621 | the nested offset loops collect all rings of all polygons and build their shape record |
| Spatial.ParsePolygon | sigilyx/src/spatial.rs:583-617 | the rings of one polygon, and where the next one starts |
| ShapeFormat.BuildShape | sigilyx/src/spatial.rs:635-771 | the record is its header, part starts, points and the arrays its dimensions need |
| ShapeFormat.ReadShape | sigilyx/src/spatial.rs:835-881 | header, starts, points, Z and M arrays are parsed, with M optional next to Z |
| ShapeFormat.PartsReadBack | sigilyx/src/spatial.rs:244-252 | cutting all points at the part starts gives the parts |
| ShapeFormat.PartsSurvive | sigilyx/src/spatial.rs:204-241 | the parts read from a built record are the parts it was built from, with the dimensions found |
| Spatial.ShpMultiLineToWkb | sigilyx/src/spatial.rs:204-278 | the nested loops write every part as a line of its points; a part that ends before its start has none and a count that wraps, and a part that reaches behind the points fails |
| Spatial.OrderedLines | sigilyx/src/spatial.rs:244-276 | parts in order are written as the lines of their points |
| Spatial.WrappedLine | sigilyx/src/spatial.rs:244-276 | a part that starts behind its end is written as a line without points that claims 2^32 less the difference |
| Spatial.ShpMultiPolyToWkb | sigilyx/src/spatial.rs:285-379 | the nested loops write the MultiPolygon of the grouped rings |
| RingGroups.GroupRings | sigilyx/src/spatial.rs:335-345 | the grouping loop computes the groups of the definition |
| RingGroups.GroupingKeepsRings | sigilyx/src/spatial.rs:335-345 | grouping keeps the rings and their order, each in exactly one polygon; every polygon but the first starts with an outer ring, and no other ring is outer |
| RingGroups.PolygonsReturn | sigilyx/src/spatial.rs:335-345 | polygons return from their rings exactly if each is not empty, starts with an outer ring (the first may not) and holds no other |
| Spatial.MultiLineStringSurvives | sigilyx/src/spatial.rs:204-278 | lines in any byte orders and dimensions survive the conversion to a shape record and back, in little-endian order; M is lost next to Z exactly if no point has one |
| Spatial.MultiPolygonSurvives | sigilyx/src/spatial.rs:285-379 | the same for polygons, with their rings in order; the grouping returns exactly under the condition of PolygonsReturn |

## Left out

- LzfDecoder.LzfDecompress: input that ends inside an item fails in the model; the compiled routine reads behind it, and what it then makes of the bytes there is not claimed (`LzfFormat.UncheckedAgrees` says when this matters).
- StreamReader.YxdbReader.NextRecord: states the reader on block streams that are well formed (they tile the region, decompress, and hold the declared records, with grid blocks only between groups and told apart by the probe); its error returns for other streams are kept in the code but not characterised.
- StreamReader.YxdbReader.constructor: the worker exists from the start, while the code spawns it with the first request.
- StreamReader.YxdbReader.NextBatch: rows are records; `ScalarColumns` and `TextFields` say what is pushed for them to columns of numbers and fixed text.
- Prefetch.PrefetchWorker.Receive: disconnected channels and panics of the worker are not modelled.
- Pipeline.EveryRunWritesTheFile: disconnected channels and panics of the compressor thread are not modelled.
- E2Record.DecodeField: `DaySerialText` truncates day serials to 32 bits as the code does; no property of dates beyond that range is claimed.
- E2Batches.E2Reader.NextBatch: the state of a reader after an error in a block or a record, and the building of data frames, are not modelled.
- E2Decoder.DecodeRecordValues: whether a search stays within its budget is bounded by the size of the whole tree, not counted exactly.
- DecimalText.ParseDecimal: digits beyond the range of 128-bit integers do not wrap, and only ASCII white space is trimmed.
- RecordReader.FieldReadBack: cells are values of the field's own type; casts between column types and units before writing, and floats in decimal fields, are not modelled.
- TextFields.StringSurvives: for text that the field cuts inside a character nothing is claimed; what becomes of it depends on the replacement of malformed UTF-8, a parameter (`TextFields.CutCharacter`).
- RecordReader.VarReadBack: for records of 2^31 bytes and more, lengths and pointers wrap; nothing is claimed.
- ShapeFormat.ReadShape: None stands for an error and for a panic alike; a record with negative counts ends in one of them, by the count.
- Spatial.ShpMultiLineToWkb: None stands for an error and for a panic alike. The count that wraps is that of a release build; a build with overflow checks panics there.
- Spatial.ShpMultiPolyToWkb: part starts out of order give None, for the panic of the slice.
- Spatial.MultiLineStringSurvives: for fewer than 2^31 parts and points, the range of the record's counts.
- Snappy, XML metadata, file opening, seeking and memory mapping: other libraries and the operating system.
- Scoring of the E2 date flag and integer base, and the fall-back order for columns with a spatial index: heuristics without a correctness claim.
- Version 0 files without block framing, and the scan of uncompressed files: they would add only easier forms of the same statements.
- Points, multi-points, single lines and polygons of the spatial conversion: no loops, or one of those modelled.
- The assembly of Polars columns and data frames, parallel iteration over columns and the Python bindings: wrappers.
