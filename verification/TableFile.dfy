// A table written to a file and read back: records, blocks, index and header together.

module TableFile {
  import opened Bytes
  import opened RecordLayout
  import opened RecordReader
  import opened BlockLayout
  import opened ChunkedReader
  import opened E1File
  import opened Fields
  import RecordScan

  /** The records of the rows of a table. */
  function RecordsOf(fields: seq<FieldMeta>, rows: seq<seq<Cell>>): (r: seq<Bytes>)
    requires forall i :: 0 <= i < |rows| ==> Row(fields, rows[i])
    ensures |r| == |rows|
  {
    seq(|rows|, i requires 0 <= i < |rows| => RecordOf(fields, rows[i]))
  }

  /** Rows of the schema with values in range, and records shorter than 2^31 bytes. */
  ghost predicate Table(fields: seq<FieldMeta>, rows: seq<seq<Cell>>) {
    && fields != [] && LaidOut(fields)
    && (forall i :: 0 <= i < |rows| ==> Row(fields, rows[i]) && RangesHold(fields, rows[i]))
    && (forall i :: 0 <= i < |rows| ==> |RecordOf(fields, rows[i])| < TWO_31)
  }

  predicate RangesHold(fields: seq<FieldMeta>, cells: seq<Cell>)
    requires Row(fields, cells)
  {
    forall k :: 0 <= k < |fields| ==> RecordReader.InRange(fields[k], cells[k])
  }

  /** A written table is read back: as many records as rows, and each field gives its cell's value. */
  lemma TableRoundTrip(fields: seq<FieldMeta>, rows: seq<seq<Cell>>, budget: nat, meta: Bytes, lossy: Lossy)
    requires Table(fields, rows) && budget > 0 && Representable(meta, RecordsOf(fields, rows))
    requires forall i :: 0 <= i < |rows| ==> |RecordOf(fields, rows[i])| <= budget
    ensures RecordScan.Valid(FormatOf(fields))
    ensures var file := YxdbFile(meta, RecordsOf(fields, rows));
      && |file| >= HEADER_SIZE && HEADER_SIZE + 2 * MetaInfoSize(file) <= |file|
      && ReadFile(FormatOf(fields), budget, file) == Rows(RecordsOf(fields, rows))
    ensures forall i, k :: 0 <= i < |rows| && 0 <= k < |fields| ==> CellRead(fields, rows[i], k, lossy)
  {
    hide Row;
    hide RangesHold;
    hide RecordOf;
    hide LaidOut;
    hide YxdbFile;
    hide ReadFile;
    hide Representable;
    hide CellRead;
    hide MetaInfoSize;
    hide RecordScan.WellFormed;
    hide RecordScan.Valid;
    FormatValid(fields);
    var records := RecordsOf(fields, rows);
    forall i | 0 <= i < |rows|
      ensures records[i] == RecordOf(fields, rows[i]) && RecordScan.WellFormed(FormatOf(fields), records[i])
    {
      TableRow(fields, rows, i);
      RecordsAreWellFormed(fields, rows[i]);
    }
    AllRecords(FormatOf(fields), records);
    WriteThenRead(FormatOf(fields), budget, meta, records);
    forall i, k | 0 <= i < |rows| && 0 <= k < |fields| ensures CellRead(fields, rows[i], k, lossy) {
      TableRow(fields, rows, i);
      CellReadBack(fields, rows[i], k, lossy);
    }
  }

  /** Field `k` of the record of a row gives back the row's value. */
  ghost predicate CellRead(fields: seq<FieldMeta>, cells: seq<Cell>, k: nat, lossy: Lossy) {
    && Row(fields, cells) && k < |fields|
    && ExtractField(RecordOf(fields, cells), fields[k], lossy) == ReadValue(fields[k], cells[k], lossy)
  }

  lemma CellReadBack(fields: seq<FieldMeta>, cells: seq<Cell>, k: nat, lossy: Lossy)
    requires Row(fields, cells) && RangesHold(fields, cells) && |RecordOf(fields, cells)| < TWO_31 && k < |fields|
    ensures CellRead(fields, cells, k, lossy)
  {
    FieldReadBack(fields, cells, k, lossy);
    hide RecordOf;
    hide ExtractField;
    hide ReadValue;
  }

  lemma AllRecords(format: RecordScan.Format, records: seq<Bytes>)
    requires RecordScan.Valid(format) && forall i :: 0 <= i < |records| ==> RecordScan.WellFormed(format, records[i])
    ensures RecordScan.AllWellFormed(format, records)
  {
  }

  lemma TableRow(fields: seq<FieldMeta>, rows: seq<seq<Cell>>, i: nat)
    requires Table(fields, rows) && i < |rows|
    ensures fields != [] && LaidOut(fields) && Row(fields, rows[i]) && RangesHold(fields, rows[i])
    ensures |RecordOf(fields, rows[i])| < TWO_31
    ensures RecordsOf(fields, rows)[i] == RecordOf(fields, rows[i])
    ensures |VarUpTo(fields, rows[i], |fields|)| < TWO_32
  {
    hide RangesHold;
    hide RecordOf;
    VarIsShort(fields, rows[i]);
  }

  lemma VarIsShort(fields: seq<FieldMeta>, cells: seq<Cell>)
    requires Row(fields, cells) && |RecordOf(fields, cells)| < TWO_31
    ensures |VarUpTo(fields, cells, |fields|)| < TWO_32
  {
    RecordIs(fields, cells);
    if !HasVar(fields) {
      NoData(fields, cells, |fields|);
    }
    hide RecordOf;
    hide FixedUpTo;
    hide VarUpTo;
    hide HasVar;
  }

  lemma {:induction false} NoData(fields: seq<FieldMeta>, cells: seq<Cell>, n: nat)
    requires Row(fields, cells) && n <= |fields| && !HasVar(fields)
    ensures VarUpTo(fields, cells, n) == []
  {
    hide *;
    if n > 0 {
      NoData(fields, cells, n - 1);
      NextParts(fields, cells, n - 1);
      NoOwnData(fields, cells, n - 1);
    } else {
      NothingYet(fields, cells);
    }
  }

  lemma NothingYet(fields: seq<FieldMeta>, cells: seq<Cell>)
    requires Row(fields, cells)
    ensures VarUpTo(fields, cells, 0) == []
  {
    hide Row;
  }

  lemma NoOwnData(fields: seq<FieldMeta>, cells: seq<Cell>, i: nat)
    requires Row(fields, cells) && i < |fields| && !HasVar(fields)
    ensures OwnData(fields, cells, i) == []
  {
    assert !IsVariable(fields[i].fieldType);
    hide VarBlock;
    hide VarData;
  }
}
