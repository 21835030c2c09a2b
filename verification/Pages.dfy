/** B-tree pages as the repair kit sees them: section 1.6 of the SQLite "Database File Format". */
module Pages {
  import opened Numbers
  import opened ValueList
  import opened Records
  import opened Payloads
  import opened Cells

  const INTERIOR_INDEX: int := 2
  const INTERIOR_TABLE: int := 5
  const LEAF_INDEX: int := 10
  const LEAF_TABLE: int := 13

  predicate IsType(t: int) {
    t == INTERIOR_INDEX || t == INTERIOR_TABLE || t == LEAF_INDEX || t == LEAF_TABLE
  }

  /** sqliterkPagenoHeaderOffset: page 1 starts with the header of the file. */
  function HeaderOffset(pageno: int): nat { if pageno == 1 then 100 else 0 }

  /** What the walker finds on a page. */
  datatype PageView =
    | Inner(kids: seq<int>)
    | LeafTable(cells: seq<Cell>)
    | LeafIndex
    | NoPage       // it cannot be read
    | Untyped      // its type is none of the four
    | Miscounted   // the number of its cells makes no sense
    | OverrunPage  // the code reads outside the page

  /** The start of a page: its type and the cell pointer array. */
  datatype Head = Head(kind: int, pointers: seq<int>) | NoHead(view: PageView)

  function ShortAt(data: seq<byte>, offset: nat): int
    requires offset + 2 <= |data|
  {
    ParseInt(data, offset, 2).value
  }

  function Pointers(data: seq<byte>, at: nat, count: nat): (ps: seq<int>)
    requires at + 2 * count <= |data|
    ensures |ps| == count
  {
    seq(count, i requires 0 <= i < count => ShortAt(data, at + 2 * i))
  }

  function ArrayOffset(kind: int): nat { if kind == INTERIOR_TABLE then 12 else 8 }

  function HeadOf(db: Db, pageno: int): (h: Head)
    requires ValidDb(db)
    ensures h.Head? ==> Acquire(db, pageno).Page? && IsType(h.kind)
  {
    match Acquire(db, pageno)
    case Unreadable => NoHead(NoPage)
    case Page(data) =>
      var h := HeaderOffset(pageno);
      var kind, count := data[h] as int, ShortAt(data, h + 3);
      if !IsType(kind) then NoHead(Untyped)
      else if count <= 0 || count * 2 + ArrayOffset(kind) > db.pageSize then NoHead(Miscounted)
      else if h + ArrayOffset(kind) + 2 * count > |data| then NoHead(OverrunPage)
      else Head(kind, Pointers(data, h + ArrayOffset(kind), count))
  }

  /** Four bytes can be read at each of the positions. */
  predicate Inside(data: seq<byte>, pointers: seq<int>) {
    forall i | 0 <= i < |pointers| :: 0 <= pointers[i] <= |data| - 4
  }

  /** The children: the left child of each cell, then the right-most pointer, which is always read at
      offset 8. */
  function Kids(data: seq<byte>, pointers: seq<int>, table: bool): (kids: seq<int>)
    requires |data| >= 12 && Inside(data, pointers)
    ensures |kids| == |pointers| + if table then 1 else 0
  {
    seq(|pointers|, i requires 0 <= i < |pointers| => PagenoAt(data, pointers[i])) +
    if table then [PagenoAt(data, 8)] else []
  }

  function CellsAt(db: Db, data: seq<byte>, pointers: seq<int>): (cells: seq<Cell>)
    requires ValidDb(db) && |data| == db.pageSize
    ensures |cells| == |pointers|
  {
    seq(|pointers|, i requires 0 <= i < |pointers| => DecodeCell(db, data, pointers[i]))
  }

  function View(db: Db, pageno: int): PageView
    requires ValidDb(db)
  {
    match HeadOf(db, pageno)
    case NoHead(view) => view
    case Head(kind, pointers) =>
      var data := Acquire(db, pageno).data;
      if kind == LEAF_TABLE then LeafTable(CellsAt(db, data, pointers))
      else if kind == LEAF_INDEX then LeafIndex
      else if Inside(data, pointers) then Inner(Kids(data, pointers, kind == INTERIOR_TABLE))
      else OverrunPage
  }

  // ---------- the methods ----------

  /** The first part of sqliterkBtreeParsePage: type, number of cells, and the cell pointer array. */
  method ParseHead(db: Db, pageno: int) returns (head: Head)
    requires ValidDb(db)
    ensures head == HeadOf(db, pageno)
  {
    var page := Acquire(db, pageno);
    if page.Unreadable? { return NoHead(NoPage); }
    var data, h := page.data, HeaderOffset(pageno);
    hide ValidDb, ParseInt;
    var kind := data[h] as int;
    if !IsType(kind) { return NoHead(Untyped); }
    var offsetCellPointerArray := if kind == INTERIOR_TABLE then 12 else 8;
    var cellsCount := ShortAt(data, 3 + h);
    if cellsCount <= 0 || cellsCount * 2 + offsetCellPointerArray > db.pageSize { return NoHead(Miscounted); }
    if h + offsetCellPointerArray + 2 * cellsCount > |data| { return NoHead(OverrunPage); }
    var pointers := ParsePointers(data, h + offsetCellPointerArray, cellsCount);
    head := Head(kind, pointers);
  }

  method ParsePointers(data: seq<byte>, at: nat, cellsCount: nat) returns (pointers: seq<int>)
    requires at + 2 * cellsCount <= |data|
    ensures pointers == Pointers(data, at, cellsCount)
  {
    hide ParseInt, ParseInt64;
    var cellPointerArray := new int[cellsCount + 1];
    var i := 0;
    while i < cellsCount
      invariant i <= cellsCount
      invariant forall k | 0 <= k < i :: cellPointerArray[k] == ShortAt(data, at + 2 * k)
    {
      cellPointerArray[i] := ShortAt(data, at + i * 2);
      i := i + 1;
    }
    pointers := cellPointerArray[..cellsCount];
  }

  /** The page numbers of the children. */
  method ParseKids(data: seq<byte>, cellPointerArray: seq<int>, hasRightMostPageno: bool) returns (kids: seq<int>)
    requires |data| >= 12 && Inside(data, cellPointerArray)
    ensures kids == Kids(data, cellPointerArray, hasRightMostPageno)
  {
    hide ParseInt, ParseInt64;
    var cellsCount := |cellPointerArray|;
    var pagenosCount := cellsCount + if hasRightMostPageno then 1 else 0;
    var pagenos := new int[pagenosCount + 1];
    var i := 0;
    while i < cellsCount
      invariant i <= cellsCount
      invariant forall k | 0 <= k < i :: pagenos[k] == PagenoAt(data, cellPointerArray[k])
    {
      pagenos[i] := PagenoAt(data, cellPointerArray[i]);
      i := i + 1;
    }
    if hasRightMostPageno { pagenos[cellsCount] := PagenoAt(data, 8); }
    kids := pagenos[..pagenosCount];
  }

  // ---------- pages as the file format has them ----------

  /** An interior page of a table B-tree with these children. */
  predicate InteriorTablePage(db: Db, pageno: int, kids: seq<int>)
    requires ValidDb(db)
  {
    Acquire(db, pageno).Page? && |kids| > 1 &&
    var data, h, n := Acquire(db, pageno).data, if pageno == 1 then 100 else 0, |kids| - 1;
    && h + 12 + 2 * n <= |data|
    && data[h] == 5 && ShortAt(data, h + 3) == n
    && PagenoAt(data, h + 8) == kids[n]
    && forall i | 0 <= i < n ::
         0 <= ShortAt(data, h + 12 + 2 * i) <= |data| - 4 && PagenoAt(data, ShortAt(data, h + 12 + 2 * i)) == kids[i]
  }

  /** The children of an interior page are found in order.  The right-most one is found exactly if the
      page is not page 1, or if bytes 8 to 11 of the file happen to be the right number. */
  lemma InteriorPageRead(db: Db, pageno: int, kids: seq<int>)
    requires ValidDb(db) && InteriorTablePage(db, pageno, kids)
    ensures var data, n := Acquire(db, pageno).data, |kids| - 1;
            && View(db, pageno) == Inner(kids[..n] + [PagenoAt(data, 8)])
            && (View(db, pageno) == Inner(kids) <==> pageno != 1 || PagenoAt(data, 8) == kids[n])
  {
    hide ParseInt, ParseInt64;
    var data, h, n := Acquire(db, pageno).data, HeaderOffset(pageno), |kids| - 1;
    var pointers := Pointers(data, h + 12, n);
    assert Inside(data, pointers);
    assert Kids(data, pointers, true) == kids[..n] + [PagenoAt(data, 8)];
    assert kids == kids[..n] + [kids[n]];
    assert (kids[..n] + [PagenoAt(data, 8)])[n] == PagenoAt(data, 8);
  }

  /** Bytes 8 to 11 of a database file, in the middle of the magic string of section 1.3. */
  const MAGIC8: seq<byte> := [0x6f, 0x72, 0x6d, 0x61]

  /** When page 1 is an interior page, its right-most child is never looked at: what the walker takes
      for it is not the number of a page. */
  lemma PageOneLosesItsRightMostChild(db: Db, kids: seq<int>)
    requires ValidDb(db) && InteriorTablePage(db, 1, kids)
    requires Acquire(db, 1).data[8..12] == MAGIC8 && |db.pages| < 0x6f72_6d61
    ensures exists p :: View(db, 1) == Inner(kids[..|kids| - 1] + [p]) && !IsPageno(db, p)
  {
    var data := Acquire(db, 1).data;
    InteriorPageRead(db, 1, kids);
    assert PagenoAt(data, 8) == 0x6f72_6d61 by {
      assert data[8..12][0] == 0x6f && data[8..12][1] == 0x72 && data[8..12][2] == 0x6d && data[8..12][3] == 0x61;
      assert Word([0x72, 0x6d, 0x61]) == 0x72_6d61;
      assert data[8..8 + 4][1..] == [0x72, 0x6d, 0x61];
    }
  }

  /** A row in the file: its rowid, its columns, and the overflow pages of its payload. */
  datatype FileRow = FileRow(rowid: nat, columns: seq<Column>, chain: seq<int>)

  /** A leaf page of a table B-tree with these rows. */
  ghost predicate LeafTablePage(db: Db, pageno: int, rows: seq<FileRow>)
    requires ValidDb(db)
  {
    Acquire(db, pageno).Page? && |rows| > 0 &&
    var data, h, n := Acquire(db, pageno).data, if pageno == 1 then 100 else 0, |rows|;
    && h + 8 + 2 * n <= |data|
    && data[h] == 13 && ShortAt(data, h + 3) == n
    && forall i | 0 <= i < n ::
         && 0 <= ShortAt(data, h + 8 + 2 * i)
         && StoredCell(db, data, ShortAt(data, h + 8 + 2 * i), rows[i].rowid, rows[i].columns, rows[i].chain)
  }

  function CellOf(row: FileRow): Cell {
    Cell(row.chain, Reported(TableRow(row.rowid, ValuesOf(row.columns))))
  }

  /** The rows of a leaf page are found in order, each with its rowid and values. */
  lemma LeafPageRead(db: Db, pageno: int, rows: seq<FileRow>)
    requires ValidDb(db) && LeafTablePage(db, pageno, rows)
    ensures View(db, pageno) == LeafTable(seq(|rows|, i requires 0 <= i < |rows| => CellOf(rows[i])))
  {
    hide ParseInt, ParseInt64, StoredCell, DecodeCell;
    var data, h, n := Acquire(db, pageno).data, HeaderOffset(pageno), |rows|;
    var pointers := Pointers(data, h + 8, n);
    forall i | 0 <= i < n ensures CellsAt(db, data, pointers)[i] == CellOf(rows[i]) {
      CellRoundTrip(db, data, pointers[i], rows[i].rowid, rows[i].columns, rows[i].chain);
    }
    assert CellsAt(db, data, pointers) == seq(|rows|, i requires 0 <= i < |rows| => CellOf(rows[i]));
  }

  /** What the walker makes of a page before it looks at its cells: it cannot be read, its type is none of
      the four, or the number of its cells is not positive or too large for a page. */
  lemma RefusedIff(db: Db, pageno: int)
    requires ValidDb(db)
    ensures View(db, pageno) == NoPage <==> Acquire(db, pageno).Unreadable?
    ensures Acquire(db, pageno).Page? ==>
              var data, h := Acquire(db, pageno).data, if pageno == 1 then 100 else 0;
              var typed := data[h] == 2 || data[h] == 5 || data[h] == 10 || data[h] == 13;
              var count, start := ShortAt(data, h + 3), if data[h] == 5 then 12 else 8;
              && (View(db, pageno) == Untyped <==> !typed)
              && (View(db, pageno) == Miscounted <==> typed && (count <= 0 || 2 * count + start > db.pageSize))
  {
    hide ShortAt, CellsAt;
  }

  /** The only page of a table without rows. */
  ghost predicate EmptyTablePage(db: Db, pageno: int)
    requires ValidDb(db)
  {
    && pageno != 1 && Acquire(db, pageno).Page?
    && var data := Acquire(db, pageno).data; data[0] == 13 && data[3] == 0 && data[4] == 0
  }

  /** It is taken for a damaged page. */
  lemma EmptyPageIsRefused(db: Db, pageno: int)
    requires ValidDb(db) && EmptyTablePage(db, pageno)
    ensures View(db, pageno) == Miscounted
  {
    var data := Acquire(db, pageno).data;
    var p := data[3..5];
    assert p[0] == 0 && p[1..] == [0];
    assert ShortAt(data, 3) == 0;
    hide ShortAt;
    RefusedIff(db, pageno);
  }

  /** An overflow page starts with a page number.  Unless that number is 2^24 or more, the page is not
      taken for a B-tree page. */
  lemma OverflowPageIsUntyped(db: Db, pageno: int)
    requires ValidDb(db) && pageno != 1 && Acquire(db, pageno).Page?
    requires 0 <= PagenoAt(Acquire(db, pageno).data, 0) < 0x100_0000
    ensures View(db, pageno) == Untyped
  {
    var data := Acquire(db, pageno).data;
    assert data[0..4][0] == data[0] && |data[0..4][1..]| == 3;
    WordBound(data[0..4][1..]);
  }

  lemma WordBound(p: seq<byte>)
    requires |p| == 3
    ensures 0 <= Word(p) < 0x100_0000
  {
  }
}
