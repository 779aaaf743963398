// Reading a compact file in batches: records are decoded as they are reached, references to blobs
// are replaced by the blobs read so far, and the wanted columns are taken from each row.

module E2Rows {
  import opened Bytes
  import opened Fields
  import opened E2Record
  import opened E2Framing
  import opened E2Search
  import opened E2Decoder
  import opened E2Blocks

  datatype Columns = Columns(types: seq<FieldType>, lossy: Lossy)

  function SettingsOf(env: Env): Settings {
    if env.settings == None then Settings(false, false) else env.settings.value
  }

  function SchemaIn(c: Columns, env: Env): Schema {
    Schema(c.types, SettingsOf(env).dateFlag, c.lossy)
  }

  function BaseIn(env: Env): nat {
    if SettingsOf(env).baseFive then 5 else 6
  }

  // -- Blob references --

  function BlobOf(offset: nat, length: nat, env: Env): Option<Bytes> {
    if length == WHOLE_BLOCK then (if offset in env.blobs then Some(env.blobs[offset]) else None)
    else if env.lastBlob == None || env.lastBlob.value !in env.blobs then None
    else
      var blob := env.blobs[env.lastBlob.value];
      if offset + length <= |blob| then Some(blob[offset..offset + length]) else None
  }

  function Resolved(v: FieldValue, t: FieldType, env: Env, lossy: Lossy): Option<FieldValue> {
    if !v.BlobRef? then Some(v)
    else
      var blob := BlobOf(v.offset, v.length, env);
      if blob == None then None
      else Some(if t == Blob || t == SpatialObj then BlobValue(blob) else StringValue(Some(lossy(blob.value))))
  }

  function ResolvedAll(values: Values, c: Columns, env: Env): (r: Option<Values>)
    requires |values| <= |c.types|
    ensures r.Some? ==> |r.value| == |values|
    ensures r.Some? <==> forall i :: 0 <= i < |values| ==> Resolved(values[i], c.types[i], env, c.lossy).Some?
    ensures r.Some?
      ==> forall i :: 0 <= i < |values| ==> Some(r.value[i]) == Resolved(values[i], c.types[i], env, c.lossy)
  {
    if forall i :: 0 <= i < |values| ==> Resolved(values[i], c.types[i], env, c.lossy).Some? then
      Some(seq(|values|, i requires 0 <= i < |values| && Resolved(values[i], c.types[i], env, c.lossy).Some? =>
        Resolved(values[i], c.types[i], env, c.lossy).value))
    else None
  }

  /** Replace every blob reference in place; None where one cannot be resolved. */
  method ResolveBlobs(values: Values, c: Columns, env: Env) returns (r: Option<Values>)
    requires |values| <= |c.types|
    ensures r == ResolvedAll(values, c, env)
  {
    hide BlobOf;
    var row := values;
    var i := 0;
    while i < |values|
      invariant 0 <= i <= |values| == |row|
      invariant forall k :: i <= k < |values| ==> row[k] == values[k]
      invariant forall k :: 0 <= k < i ==> Some(row[k]) == Resolved(values[k], c.types[k], env, c.lossy)
    {
      if values[i].BlobRef? {
        if env.blobs == map[] {
          NoBlobs(values[i], env);
          return None;
        }
        var v := Resolved(values[i], c.types[i], env, c.lossy);
        if v == None {
          return None;
        }
        row := row[i := v.value];
      }
      i := i + 1;
    }
    r := Some(row);
    assert row == ResolvedAll(values, c, env).value;
  }

  lemma NoBlobs(v: FieldValue, env: Env)
    requires v.BlobRef? && env.blobs == map[]
    ensures BlobOf(v.offset, v.length, env) == None
  {
  }

  // -- One record --

  /** The value list that all exact framings of the record agree on. */
  function Accepted(s: Schema, record: Bytes, base: nat): Option<Values> {
    if !HasInt32(s) then (if AllOf(s, record, base) == [] then None else Some(AllOf(s, record, base)[0]))
    else if Unique(Both(s, record, base)) then Some(Both(s, record, base)[0])
    else None
  }

  predicate WithinLimits(s: Schema, record: Bytes, base: nat) {
    HasInt32(s) ==>
      && |s.fields| <= MAX_AMBIGUITY_FIELDS
      && TreeSize(s, record, base, 0, 0, true) <= MAX_AMBIGUITY_STATES
      && TreeSize(s, record, OtherBase(base), 0, 0, true) <= MAX_AMBIGUITY_STATES
  }

  /** The row that a record stands for, where it has one. */
  function Row(c: Columns, item: Framed): Option<Values> {
    var values := Accepted(SchemaIn(c, item.env), item.record, BaseIn(item.env));
    if values == None || |values.value| != |c.types| then None else ResolvedAll(values.value, c, item.env)
  }

  predicate Bounded(c: Columns, item: Framed) {
    WithinLimits(SchemaIn(c, item.env), item.record, BaseIn(item.env))
  }

  lemma AcceptedIsFull(s: Schema, record: Bytes, base: nat)
    requires IsBase(base)
    ensures var a := Accepted(s, record, base); a.Some? ==> |a.value| == |s.fields|
  {
    hide Framings;
    var a := Accepted(s, record, base);
    if a.Some? {
      var values := a.value;
      if values in AllOf(s, record, base) {
        FullIn(s, record, base, values);
      } else {
        assert values in Both(s, record, base);
        FullIn(s, record, OtherBase(base), values);
      }
    }
  }

  lemma FullIn(s: Schema, record: Bytes, base: nat, values: Values)
    requires IsBase(base) && values in AllOf(s, record, base)
    ensures |values| == |s.fields|
  {
    hide Framings;
    FramingsExact(s, record, base, values);
  }

  /**
    * Decode a record and replace its blob references; None if it has no row or the search for it has no
    * end in sight.
    */
  method DecodeRecord(c: Columns, record: Bytes, env: Env, ghost at: nat) returns (r: Option<Values>)
    ensures var item := Framed(record, env, at); r == Row(c, item) || (r == None && !Bounded(c, item))
    ensures r.Some? ==> |r.value| == |c.types|
  {
    var s, base := SchemaIn(c, env), BaseIn(env);
    var outcome := DecodeRecordValues(s, record, base);
    AcceptedIsFull(s, record, base);
    hide Framings;
    hide Uniform;
    hide TreeSize;
    hide SameAll;
    hide HasInt32;
    hide Unique;
    if !outcome.Decoded? {
      return None;
    }
    assert Accepted(s, record, base) == Some(outcome.values);
    r := ResolveBlobs(outcome.values, c, env);
  }

  // -- Projection --

  predicate InRange(projection: seq<nat>, n: nat) {
    forall j :: 0 <= j < |projection| ==> projection[j] < n
  }

  function Projected(row: Values, projection: seq<nat>): (r: Values)
    requires InRange(projection, |row|)
    ensures |r| == |projection|
  {
    seq(|projection|, j requires 0 <= j < |projection| => row[projection[j]])
  }

  /** Values moved out of the row one after the other, each leaving a null boolean behind. */
  function Taken(row: Values, projection: seq<nat>): (r: Values)
    requires InRange(projection, |row|)
    ensures |r| == |projection|
    decreases |projection|
  {
    if projection == [] then []
    else [row[projection[0]]] + Taken(row[projection[0] := BoolValue(None)], projection[1..])
  }

  method TakeRow(row: Values, projection: seq<nat>) returns (taken: Values)
    requires InRange(projection, |row|)
    ensures taken == Taken(row, projection)
  {
    var left := row;
    taken := [];
    var j := 0;
    while j < |projection|
      invariant 0 <= j <= |projection| && |left| == |row|
      invariant taken + Taken(left, projection[j..]) == Taken(row, projection)
    {
      assert projection[j..][0] == projection[j] && projection[j..][1..] == projection[j + 1..];
      taken := taken + [left[projection[j]]];
      left := left[projection[j] := BoolValue(None)];
      j := j + 1;
    }
    assert projection[j..] == [] && taken + [] == taken;
  }

  predicate Distinct(projection: seq<nat>) {
    forall i, j :: 0 <= i < j < |projection| ==> projection[i] != projection[j]
  }

  predicate WantedBefore(projection: seq<nat>, k: nat)
    requires k < |projection|
  {
    projection[k] in projection[..k]
  }

  lemma WantedBeforeStep(projection: seq<nat>, k: nat)
    requires 0 < k < |projection|
    ensures WantedBefore(projection, k) <==> projection[0] == projection[k] || WantedBefore(projection[1..], k - 1)
  {
    assert projection[..k] == [projection[0]] + projection[1..][..k - 1];
  }

  lemma {:induction false} TakenAt(row: Values, projection: seq<nat>, k: nat)
    requires InRange(projection, |row|) && k < |projection|
    ensures Taken(row, projection)[k] == if WantedBefore(projection, k) then BoolValue(None) else row[projection[k]]
    decreases |projection|
  {
    if k > 0 {
      TakenAt(row[projection[0] := BoolValue(None)], projection[1..], k - 1);
      WantedBeforeStep(projection, k);
      hide WantedBefore;
    }
  }

  /** Taking values out gives the projected row exactly if no value is wanted twice, null booleans aside. */
  lemma TakenIsProjected(row: Values, projection: seq<nat>)
    requires InRange(projection, |row|)
    ensures Taken(row, projection) == Projected(row, projection) <==>
      forall i, k :: 0 <= i < k < |projection| && projection[i] == projection[k]
        ==> row[projection[k]] == BoolValue(None)
    ensures Distinct(projection) ==> Taken(row, projection) == Projected(row, projection)
  {
    var t, p := Taken(row, projection), Projected(row, projection);
    forall k | 0 <= k < |projection|
      ensures t[k] == if WantedBefore(projection, k) then BoolValue(None) else p[k]
    {
      TakenAt(row, projection, k);
    }
    hide Taken;
    if t == p {
      forall i, k | 0 <= i < k < |projection| && projection[i] == projection[k]
        ensures row[projection[k]] == BoolValue(None)
      {
        assert projection[..k][i] == projection[k];
        assert t[k] == p[k];
      }
    }
  }

  /** A column that is wanted twice is a null boolean the second time. */
  lemma RepeatedColumn(v: FieldValue)
    ensures Taken([v], [0, 0]) == [v, BoolValue(None)] && Projected([v], [0, 0]) == [v, v]
  {
    TakenAt([v], [0, 0], 0);
    TakenAt([v], [0, 0], 1);
    hide Taken;
    assert [0, 0][..1] == [0] && [0, 0][..0] == [];
  }
}

module E2Batches {
  import opened Bytes
  import opened BatchSizes
  import opened Fields
  import opened E2Record
  import opened E2Framing
  import opened E2Blocks
  import opened E2Rows

  predicate Verified(t: FieldType) {
    t != Time && t != WString
  }

  class E2Reader {
    const raw: Bytes
    const snappy: Snappy
    const detect: Detector
    const columns: Columns
    var filePos: nat
    var blobBlocks: map<nat, Bytes>
    var lastBlobOffset: Option<nat>
    var currentBlock: Bytes
    var currentSpans: seq<Span>
    var currentSpanIdx: nat
    var dateFlagDetected: bool
    var hasDateFlag: bool
    var baseFive: bool
    var recordsDecoded: nat
    var exhausted: bool
    var allowUnverified: bool
    var typesChecked: bool
    /** Where the search for the current block began. */
    ghost var blockAt: nat

    ghost predicate Valid()
      reads this`filePos, this`currentBlock, this`currentSpans, this`currentSpanIdx, this`exhausted
    {
      && InBlock(currentBlock, currentSpans) && currentSpanIdx <= |currentSpans|
      && (exhausted ==> ReadBlock(raw, filePos, snappy) == End)
    }

    function Known(): Env
      reads this`blobBlocks, this`lastBlobOffset, this`dateFlagDetected, this`hasDateFlag, this`baseFive
    {
      Env(blobBlocks, lastBlobOffset, if dateFlagDetected then Some(Settings(hasDateFlag, baseFive)) else None)
    }

    ghost function Later(): Listing
      reads this`filePos, this`blobBlocks, this`lastBlobOffset, this`dateFlagDetected, this`hasDateFlag, this`baseFive
    {
      Records(raw, filePos, Known(), snappy, detect)
    }

    /** The records of the current block that have not been consumed. */
    ghost function Current(): seq<Framed>
      requires Valid()
      reads this`filePos, this`currentBlock, this`currentSpans, this`currentSpanIdx, this`exhausted, this`blockAt
      reads this`blobBlocks, this`lastBlobOffset, this`dateFlagDetected, this`hasDateFlag, this`baseFive
    {
      WithEnv(Slices(currentBlock, currentSpans)[currentSpanIdx..], Known(), blockAt)
    }

    /** All records still to come. */
    ghost function Rest(): seq<Framed>
      requires Valid()
      reads this`filePos, this`currentBlock, this`currentSpans, this`currentSpanIdx, this`exhausted, this`blockAt
      reads this`blobBlocks, this`lastBlobOffset, this`dateFlagDetected, this`hasDateFlag, this`baseFive
    {
      Current() + Later().items
    }

    constructor (raw: Bytes, start: nat, snappy: Snappy, detect: Detector, columns: Columns)
      ensures Valid() && this.raw == raw && this.snappy == snappy && this.detect == detect && this.columns == columns
      ensures
        var all := Records(raw, start, Env(map[], None, None), snappy, detect);
        Rest() == all.items && Later().clean == all.clean
    {
      this.raw, this.snappy, this.detect, this.columns := raw, snappy, detect, columns;
      filePos, blobBlocks, lastBlobOffset := start, map[], None;
      currentBlock, currentSpans, currentSpanIdx := [], [], 0;
      dateFlagDetected, hasDateFlag, baseFive, recordsDecoded, exhausted := false, false, false, 0, false;
      allowUnverified, typesChecked := false, false;
      blockAt := start;
    }

    /** Allow reading types whose decoders were never verified against real files, or forbid it. */
    method SetAllowUnverified(allow: bool)
      modifies this`allowUnverified
      ensures allowUnverified == allow
    {
      allowUnverified := allow;
    }

    /** The first batch is refused over a column of an unverified type. */
    predicate Refuses()
      reads this`allowUnverified, this`typesChecked
    {
      !allowUnverified && !typesChecked && exists i :: 0 <= i < |columns.types| && !Verified(columns.types[i])
    }

    method AllVerified() returns (ok: bool)
      ensures ok <==> forall i :: 0 <= i < |columns.types| ==> Verified(columns.types[i])
    {
      for i := 0 to |columns.types|
        invariant forall j :: 0 <= j < i ==> Verified(columns.types[j])
      {
        if !Verified(columns.types[i]) {
          return false;
        }
      }
      ok := true;
    }

    /** Settle the date flag and the integer base with the first record block. */
    method DetectSettings(data: Bytes, spans: seq<Span>)
      requires InBlock(data, spans)
      modifies this`dateFlagDetected, this`hasDateFlag, this`baseFive
      ensures Known() == Detect(old(Known()), data, Slices(data, spans), detect) && dateFlagDetected
    {
      if !dateFlagDetected {
        if |spans| > 0 {
          var settings := detect(data);
          hasDateFlag, baseFive := settings.dateFlag, settings.baseFive;
        } else {
          hasDateFlag, baseFive := false, false;
        }
        dateFlagDetected := true;
      }
    }

    /** Make the next block with a record current, keeping the blobs on the way; None for a broken stream. */
    method AdvanceToRecordBlock() returns (r: Option<bool>)
      requires Valid() && currentSpanIdx == |currentSpans|
      modifies this
      ensures Valid() && recordsDecoded == old(recordsDecoded) && typesChecked == old(typesChecked)
      ensures r == None ==> !old(Later()).clean
      ensures r.Some? ==> Rest() == old(Rest()) && Later().clean == old(Later()).clean
      ensures r == Some(true) ==> currentSpanIdx < |currentSpans|
      ensures r == Some(false) ==> Rest() == [] && Later().clean && currentSpanIdx == |currentSpans|
    {
      hide FrameSpans;
      hide Slices;
      hide ReadBlock;
      hide Records;
      hide Known;
      hide Current;
      hide Detect;
      NothingCurrent();
      while !exhausted
        invariant Valid() && recordsDecoded == old(recordsDecoded) && typesChecked == old(typesChecked)
        invariant currentSpanIdx == |currentSpans|
        invariant Rest() == Later().items && Later() == old(Later())
        decreases |raw| - filePos, !exhausted
      {
        RecordsStep(raw, filePos, Known(), snappy, detect);
        var step := ReadBlock(raw, filePos, snappy);
        match step {
          case End =>
            exhausted := true;
            NothingCurrent();
          case Broken =>
            return None;
          case BlobBlock(offset, data, next) =>
            KeepBlob(offset, data, next);
            NothingCurrent();
          case RecordBlock(data, next) =>
            var spans := FrameRecordSpans(data);
            if spans == None {
              return None;
            }
            EnterBlock(data, spans.value, next);
            if |currentSpans| > 0 {
              return Some(true);
            }
            NothingCurrent();
        }
      }
      RecordsStep(raw, filePos, Known(), snappy, detect);
      r := Some(false);
    }

    /** Take the next record of the current block and decode it. */
    method DecodeNext() returns (row: Option<Values>)
      requires Valid() && currentSpanIdx < |currentSpans|
      modifies this`currentSpanIdx
      ensures Valid() && old(Rest()) != [] && Rest() == old(Rest())[1..] && Later() == old(Later())
      ensures row == Row(columns, old(Rest())[0]) || (row == None && !Bounded(columns, old(Rest())[0]))
      ensures row.Some? ==> |row.value| == |columns.types|
    {
      hide Row;
      hide Bounded;
      hide Records;
      FirstCurrent();
      var span := currentSpans[currentSpanIdx];
      row := DecodeRecord(columns, currentBlock[span.offset..span.offset + span.length], Known(), blockAt);
      currentSpanIdx := currentSpanIdx + 1;
    }

    lemma FirstCurrent()
      requires Valid() && currentSpanIdx < |currentSpans|
      ensures var span := currentSpans[currentSpanIdx];
        Current() == [Framed(currentBlock[span.offset..span.offset + span.length], Known(), blockAt)]
          + WithEnv(Slices(currentBlock, currentSpans)[currentSpanIdx + 1..], Known(), blockAt)
    {
    }

    /**
      * The next rows, at most `batchSize` of them, with the wanted columns. None for an error; no
      * rows when all records have been read (or none is wanted).
      */
    method NextBatch(batchSize: nat, projection: seq<nat>) returns (r: Option<seq<Values>>)
      requires Valid() && InRange(projection, |columns.types|)
      modifies this
      ensures r.Some? ==> Valid() && Later().clean == old(Later()).clean && !Refuses() && !old(Refuses())
      ensures r.Some? ==> |r.value| == Least(batchSize, old(|Rest()|)) && Rest() == old(Rest())[|r.value|..]
      ensures r.Some? ==> forall k :: 0 <= k < |r.value| ==> RowIs(columns, old(Rest())[k], projection, r.value[k])
      ensures r.Some? && |r.value| < batchSize ==> old(Later()).clean
      ensures r == None ==> old(Refuses()) || !old(Later()).clean || Troubled(columns, old(Rest()), batchSize)
      ensures old(Refuses()) ==> r == None && Valid() && Rest() == old(Rest()) && Refuses()
    {
      hide Current;
      hide Later;
      hide InBlock;
      hide RowIs;
      hide Troubled;
      if !allowUnverified && !typesChecked {
        var ok := AllVerified();
        if !ok {
          return None;
        }
      }
      typesChecked := true;
      r := NextRows(batchSize, projection);
    }

    method NextRows(batchSize: nat, projection: seq<nat>) returns (r: Option<seq<Values>>)
      requires Valid() && InRange(projection, |columns.types|)
      modifies this
      ensures r.Some? ==> Valid() && Later().clean == old(Later()).clean && typesChecked == old(typesChecked)
      ensures r.Some? ==> |r.value| == Least(batchSize, old(|Rest()|)) && Rest() == old(Rest())[|r.value|..]
      ensures r.Some? ==> forall k :: 0 <= k < |r.value| ==> RowIs(columns, old(Rest())[k], projection, r.value[k])
      ensures r.Some? && |r.value| < batchSize ==> old(Later()).clean
      ensures r == None ==> !old(Later()).clean || Troubled(columns, old(Rest()), batchSize)
    {
      hide Row;
      hide Bounded;
      hide Records;
      hide Current;
      hide RowIs;
      var rows := [];
      var produced := 0;
      ghost var all := Rest();
      while produced < batchSize
        invariant Valid() && 0 <= produced == |rows| <= batchSize && produced <= |all| && Rest() == all[produced..]
        invariant Later().clean == old(Later()).clean && typesChecked == old(typesChecked)
        invariant forall k :: 0 <= k < |rows| ==> RowIs(columns, all[k], projection, rows[k])
        decreases batchSize - produced, |currentSpans| <= currentSpanIdx
      {
        if currentSpanIdx >= |currentSpans| {
          var more := AdvanceToRecordBlock();
          if more == None {
            return None;
          }
          if !more.value {
            break;
          }
        } else {
          var row := DecodeNext();
          RestOfRest(all, produced, 1);
          assert all[produced..][0] == all[produced];
          if row == None {
            return None;
          }
          recordsDecoded := recordsDecoded + 1;
          var taken := TakeRow(row.value, projection);
          TakenRow(columns, all[produced], projection, row.value, taken);
          rows := rows + [taken];
          produced := produced + 1;
        }
      }
      r := Some(rows);
    }

    lemma NothingCurrent()
      requires Valid() && currentSpanIdx == |currentSpans|
      ensures Current() == [] && Rest() == Later().items
    {
    }

    method KeepBlob(offset: nat, data: Bytes, next: nat)
      modifies this`filePos, this`blobBlocks, this`lastBlobOffset
      ensures filePos == next && Known() == AddBlob(old(Known()), offset, data)
    {
      filePos := next;
      blobBlocks := blobBlocks[offset := data];
      lastBlobOffset := Some(offset);
    }

    /** Make a block current, with its first record next. */
    method EnterBlock(data: Bytes, spans: seq<Span>, next: nat)
      requires Valid() && InBlock(data, spans) && !exhausted
      modifies this`filePos, this`currentBlock, this`currentSpans, this`currentSpanIdx, this`dateFlagDetected,
        this`hasDateFlag, this`baseFive, this`blockAt
      ensures Valid() && filePos == next && currentSpanIdx == 0 && currentSpans == spans
      ensures Known() == Detect(old(Known()), data, Slices(data, spans), detect)
      ensures Current() == WithEnv(Slices(data, spans), Known(), old(filePos))
      ensures Rest() == WithEnv(Slices(data, spans), Known(), old(filePos)) + Later().items
      ensures spans == [] ==> WithEnv(Slices(data, spans), Known(), old(filePos)) == []
    {
      ghost var at := filePos;
      filePos := next;
      DetectSettings(data, spans);
      currentBlock, currentSpans, currentSpanIdx := data, spans, 0;
      blockAt := at;
      assert Slices(data, spans)[0..] == Slices(data, spans);
    }
  }

  /** The record has a row, and `taken` are the wanted values of it. */
  ghost predicate RowIs(c: Columns, item: Framed, projection: seq<nat>, taken: Values)
    requires InRange(projection, |c.types|)
  {
    var row := Row(c, item);
    row.Some? && |row.value| == |c.types| && taken == Taken(row.value, projection)
  }

  lemma TakenRow(c: Columns, item: Framed, projection: seq<nat>, row: Values, taken: Values)
    requires InRange(projection, |c.types|) && Row(c, item) == Some(row) && |row| == |c.types|
    requires taken == Taken(row, projection)
    ensures RowIs(c, item, projection, taken)
  {
  }

  /** One of the first `n` records has no row, or its search exceeds a limit. */
  ghost predicate Troubled(c: Columns, items: seq<Framed>, n: nat) {
    exists k :: 0 <= k < |items| && k < n && (Row(c, items[k]) == None || !Bounded(c, items[k]))
  }

  /** What the block at `pos` adds to the records from there on. */
  lemma RecordsStep(raw: Bytes, pos: nat, env: Env, snappy: Snappy, detect: Detector)
    ensures var step, all := ReadBlock(raw, pos, snappy), Records(raw, pos, env, snappy, detect);
      && (step.End? ==> all == Listing([], true))
      && (step.Broken? ==> !all.clean)
      && (step.BlobBlock? ==> (
        && pos < step.next <= |raw|
        && all == Records(raw, step.next, AddBlob(env, step.offset, step.data), snappy, detect)))
      && (step.RecordBlock? ==> pos < step.next <= |raw| && (FrameSpans(step.data) == None ==> !all.clean))
    ensures var step := ReadBlock(raw, pos, snappy);
      step.RecordBlock? && FrameSpans(step.data).Some? ==> (
        var records := Slices(step.data, FrameSpans(step.data).value);
        var env' := Detect(env, step.data, records, detect);
        var rest := Records(raw, step.next, env', snappy, detect);
        Records(raw, pos, env, snappy, detect) == Listing(WithEnv(records, env', pos) + rest.items, rest.clean))
  {
    hide FrameSpans;
    hide Slices;
  }

  /**
    * Any sequence of positive batch sizes: together the batches are the projected rows of the records, up
    * to where the sizes reach.
    */
  method ReadInBatches(reader: E2Reader, sizes: seq<nat>, projection: seq<nat>) returns (r: Option<seq<Values>>)
    requires reader.Valid() && InRange(projection, |reader.columns.types|)
    requires forall i :: 0 <= i < |sizes| ==> sizes[i] > 0
    modifies reader
    ensures r.Some? ==> |r.value| == Least(Sum(sizes), old(|reader.Rest()|))
    ensures r.Some?
      ==> forall k :: 0 <= k < |r.value| ==> RowIs(reader.columns, old(reader.Rest())[k], projection, r.value[k])
    ensures r == None ==> (
      || old(reader.Refuses()) || !old(reader.Later()).clean
      || Troubled(reader.columns, old(reader.Rest()), Sum(sizes)))
    ensures r.Some? && sizes != [] ==> !old(reader.Refuses())
  {
    hide Row;
    hide Bounded;
    hide Records;
    hide E2Reader.Current;
    hide E2Reader.Rest;
    hide E2Reader.Later;
    hide E2Reader.Valid;
    hide RowIs;
    hide Troubled;
    hide E2Reader.Refuses;
    ghost var all := reader.Rest();
    var rows := [];
    var n := 0;
    while n < |sizes|
      invariant 0 <= n <= |sizes| && reader.Valid() && reader.Later().clean == old(reader.Later()).clean
      invariant if n == 0 then reader.Refuses() == old(reader.Refuses())
        else !reader.Refuses() && !old(reader.Refuses())
      invariant |rows| == Least(Sum(sizes[..n]), |all|) && reader.Rest() == all[|rows|..]
      invariant forall k :: 0 <= k < |rows| ==> RowIs(reader.columns, all[k], projection, rows[k])
    {
      assert sizes[..n + 1] == sizes[..n] + [sizes[n]];
      SumAppend(sizes[..n], sizes[n]);
      SumGrows(sizes, n + 1);
      var batch := reader.NextBatch(sizes[n], projection);
      if batch == None {
        if Troubled(reader.columns, all[|rows|..], sizes[n]) {
          TroubledLater(reader.columns, all, |rows|, sizes[n], Sum(sizes));
        }
        return None;
      }
      rows := rows + batch.value;
      n := n + 1;
    }
    assert sizes[..n] == sizes;
    r := Some(rows);
  }

  lemma TroubledLater(c: Columns, items: seq<Framed>, from: nat, n: nat, m: nat)
    requires from <= |items| && Troubled(c, items[from..], n) && (from + n <= m || from == |items|)
    ensures Troubled(c, items, m)
  {
    hide Row;
    hide Bounded;
    var k :| 0 <= k < |items[from..]| && k < n && (Row(c, items[from..][k]) == None || !Bounded(c, items[from..][k]));
    assert items[from..][k] == items[from + k];
  }
}
