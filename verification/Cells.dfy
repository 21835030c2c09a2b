/** The cells of a table leaf page: the size of the payload, the rowid, and the payload, which holds
    one row. */
module Cells {
  import opened Numbers
  import opened ValueList
  import opened Records
  import opened Payloads

  /** Result codes.  RcOther stands for SQLITERK_MISUSE and the errors of reading the file. */
  datatype Rc = RcOk | RcDamaged | RcCancelled | RcOther

  datatype TableRow = TableRow(rowid: nat, values: seq<Value>)

  /** What a cell comes to.  Rejected: the cell is damaged, or its payload is empty, which is a misuse.
      Overrun: the code reads past the end of a buffer. */
  datatype Outcome = Reported(row: TableRow) | Rejected(misuse: bool) | Overrun

  /** The overflow pages that are asked for, and the outcome. */
  datatype Cell = Cell(acquired: seq<int>, outcome: Outcome)

  function DecodeCell(db: Db, page: seq<byte>, offset: int): Cell
    requires ValidDb(db) && |page| == db.pageSize
  {
    if offset < 0 then Cell([], Overrun)
    else
      match DecodeVarint(page, offset)
      case Parsed(n, payloadSize) =>
        (if payloadSize > MAX_PAYLOAD then Cell([], Rejected(false))
         else
           match DecodeVarint(page, offset + n)
           case Parsed(m, rowid) =>
             if rowid < 0 then Cell([], Overrun)
             else RowCell(rowid, ReadPayload(db, page, offset + n + m, payloadSize))
           case Damaged => Cell([], Rejected(false))
           case _ => Cell([], Overrun))
      case Damaged => Cell([], Rejected(false))
      case _ => Cell([], Overrun)
  }

  function RowCell(rowid: nat, p: Payload): Cell {
    match p
    case BadPayload(misuse) => Cell([], Rejected(misuse))
    case Beyond => Cell([], Overrun)
    case Payload(bytes, acquired) => Cell(acquired, RowOutcome(rowid, DecodeRecord(bytes)))
  }

  function RowOutcome(rowid: nat, d: Decoded): Outcome {
    match d
    case Row(values) => Reported(TableRow(rowid, values))
    case DamagedRow => Rejected(false)
    case Undefined => Overrun
  }

  /** A number decoded is not negative. */
  lemma {:induction false} VarintNat(data: seq<byte>, offset: nat, i: nat, out: nat)
    requires i < MAX_VARINT
    ensures var r := ScanVarint(data, offset, i, out); r.Parsed? ==> r.value >= 0
    decreases MAX_VARINT - i
  {
    if offset + i < |data| && data[offset + i] >= 128 && i + 1 < MAX_VARINT {
      VarintNat(data, offset, i + 1, (out + (data[offset + i] as int - 128)) * 128);
    }
  }

  /** One round of the loop of sqliterkBtreeParseCell, with sqliterkBtreeParsePayload: the list of
      values is emptied first, and holds the row's values in the end. */
  method ParseCell(db: Db, page: seq<byte>, offset: int, column: Values) returns (cell: Cell)
    requires ValidDb(db) && |page| == db.pageSize && column.Valid()
    modifies column, column.values
    ensures column.Valid() && (column.values == old(column.values) || fresh(column.values))
    ensures cell == DecodeCell(db, page, offset)
    ensures cell.outcome.Reported? ==> column.Contents() == cell.outcome.row.values
  {
    column.Clear();
    if offset < 0 { return Cell([], Overrun); }
    hide ReadPayload, RowCell, ScanVarint, ValidDb;
    var size := ParseVarint64(page, offset);
    VarintNat(page, offset, 0, 0);
    if size.Damaged? { return Cell([], Rejected(false)); }
    if !size.Parsed? { return Cell([], Overrun); }
    if size.value > MAX_PAYLOAD { return Cell([], Rejected(false)); }
    var rowid := ParseVarint64(page, offset + size.length);
    VarintNat(page, offset + size.length, 0, 0);
    if rowid.Damaged? { return Cell([], Rejected(false)); }
    if !rowid.Parsed? { return Cell([], Overrun); }
    var payload := ParsePayload(db, page, offset + size.length + rowid.length, size.value);
    cell := ParseRow(rowid.value, payload, column);
  }

  method ParseRow(rowid: nat, payload: Payload, column: Values) returns (cell: Cell)
    requires column.Valid() && column.Contents() == []
    modifies column, column.values
    ensures column.Valid() && (column.values == old(column.values) || fresh(column.values))
    ensures cell == RowCell(rowid, payload)
    ensures cell.outcome.Reported? ==> column.Contents() == cell.outcome.row.values
  {
    hide DecodeRecord;
    match payload
    case BadPayload(misuse) => cell := Cell([], Rejected(misuse));
    case Beyond => cell := Cell([], Overrun);
    case Payload(bytes, acquired) =>
      var rc := ParseRecord(bytes, column);
      if rc == Ok {
        var values := column.All();
        assert values == DecodeRecord(bytes).values;
        cell := Cell(acquired, Reported(TableRow(rowid, values)));
      } else {
        cell := Cell(acquired, if rc == RowDamaged then Rejected(false) else Overrun);
      }
  }

  /** Which cells are refused before their payload is read: those with more than 64 MB of it, and those
      with none. */
  lemma SizeIsRefused(db: Db, page: seq<byte>, offset: nat, n: nat, size: int)
    requires ValidDb(db) && |page| == db.pageSize && DecodeVarint(page, offset) == Parsed(n, size)
    ensures size > 64 * 1024 * 1024 ==> DecodeCell(db, page, offset) == Cell([], Rejected(false))
    ensures size == 0 && DecodeVarint(page, offset + n).Parsed? ==>
              DecodeCell(db, page, offset) == Cell([], Rejected(true))
  {
    hide ScanVarint;
    if DecodeVarint(page, offset + n).Parsed? { VarintNat(page, offset + n, 0, 0); }
  }

  // ---------- a stored row is read back ----------

  /** At offset of the page lies the cell of a row, as the file format has it. */
  ghost predicate StoredCell(db: Db, page: seq<byte>, offset: nat, rowid: nat, cs: seq<Column>, chain: seq<int>)
    requires ValidDb(db) && |page| == db.pageSize
  {
    && AllLegal(cs) && |Types(cs)| <= MAX_PAYLOAD && rowid < TWO56
    && var payload := EncodeRecord(cs);
       && |payload| <= 0x400_0000
       && var a, b := EncodeVarint(|payload|), EncodeVarint(rowid);
          && offset + |a| + |b| <= |page|
          && page[offset..offset + |a|] == a && page[offset + |a|..offset + |a| + |b|] == b
          && Stored(db, page, offset + |a| + |b|, payload, chain)
  }

  /** A stored row is reported with its rowid and its values, and its overflow pages are asked for. */
  lemma CellRoundTrip(db: Db, page: seq<byte>, offset: nat, rowid: nat, cs: seq<Column>, chain: seq<int>)
    requires ValidDb(db) && |page| == db.pageSize && StoredCell(db, page, offset, rowid, cs, chain)
    ensures DecodeCell(db, page, offset) == Cell(chain, Reported(TableRow(rowid, ValuesOf(cs))))
  {
    hide EncodeVarint, EncodeRecord, Stored, ReadPayload, DecodeVarint, ValidDb, DecodeRecord;
    var payload := EncodeRecord(cs);
    var a, b := EncodeVarint(|payload|), EncodeVarint(rowid);
    VarintAt(page, offset, |payload|);
    VarintAt(page, offset + |a|, rowid);
    NotEmpty(cs);
    PayloadRoundTrip(db, page, offset + |a| + |b|, payload, chain);
    RecordRoundTrip(cs);
  }

  lemma NotEmpty(cs: seq<Column>)
    requires AllLegal(cs) && |Types(cs)| <= MAX_PAYLOAD
    ensures |EncodeRecord(cs)| > 0
  {
  }
}
