/** Tables and whole databases as they lie in a file, and what the repair kit gets out of them. */
module Databases {
  import opened Cells
  import opened Pages
  import opened Payloads
  import opened Walker
  import opened Extraction
  import opened Recovery
  import opened Schema
  import opened RepairKit
  import opened Records
  import opened ValueList
  import Numbers

  // ---------- a table in a file ----------

  /** A table B-tree as the file format has it. */
  datatype Table =
    | LeafPage(pageno: int, rows: seq<FileRow>)
    | InteriorPage(pageno: int, children: seq<Table>)

  /** The pages of the table. */
  function Shape(table: Table): Tree
    decreases table
  {
    match table
    case LeafPage(pageno, _) => Tree(pageno, [])
    case InteriorPage(pageno, children) => Tree(pageno, Shapes(children))
  }

  function Shapes(tables: seq<Table>): seq<Tree>
    decreases tables
  {
    if tables == [] then [] else [Shape(tables[0])] + Shapes(tables[1..])
  }

  /** The table is stored in the file.  Its interior pages are not page 1. */
  ghost predicate StoredTable(db: Db, table: Table)
    requires ValidDb(db)
    decreases table
  {
    match table
    case LeafPage(pageno, rows) =>
      IsPageno(db, pageno) && if rows == [] then EmptyTablePage(db, pageno) else LeafTablePage(db, pageno, rows)
    case InteriorPage(pageno, children) =>
      && IsPageno(db, pageno) && pageno != 1
      && InteriorTablePage(db, pageno, Roots(Shapes(children))) && StoredTables(db, children)
  }

  ghost predicate StoredTables(db: Db, tables: seq<Table>)
    requires ValidDb(db)
    decreases tables
  {
    tables == [] || (StoredTable(db, tables[0]) && StoredTables(db, tables[1..]))
  }

  /** All rows of the table, with their values. */
  function TableRows(table: Table): seq<TableRow>
    decreases table
  {
    match table
    case LeafPage(_, rows) => RowValues(rows)
    case InteriorPage(_, children) => TablesRows(children)
  }

  function TablesRows(tables: seq<Table>): seq<TableRow>
    decreases tables
  {
    if tables == [] then [] else TableRows(tables[0]) + TablesRows(tables[1..])
  }

  function RowValues(rows: seq<FileRow>): seq<TableRow> {
    if rows == [] then [] else [CellOf(rows[0]).outcome.row] + RowValues(rows[1..])
  }

  lemma {:induction false} CellRowsAre(rows: seq<FileRow>)
    ensures CellRows(seq(|rows|, i requires 0 <= i < |rows| => CellOf(rows[i]))) == RowValues(rows)
  {
    var cells := seq(|rows|, i requires 0 <= i < |rows| => CellOf(rows[i]));
    if rows != [] {
      CellRowsAre(rows[1..]);
      var rest := rows[1..];
      assert cells[1..] == seq(|rest|, i requires 0 <= i < |rest| => CellOf(rest[i]));
    }
  }

  lemma {:induction false} TableUnfolds(db: Db, table: Table)
    requires ValidDb(db) && StoredTable(db, table)
    ensures Unfolds(Views(db), Shape(table)) && Rows(Views(db), Shape(table)) == TableRows(table)
    decreases table
  {
    match table
    case LeafPage(pageno, rows) =>
      if rows == [] {
        EmptyPageIsRefused(db, pageno);
      } else {
        LeafPageRead(db, pageno, rows);
        CellRowsAre(rows);
      }
    case InteriorPage(pageno, children) =>
      InteriorPageRead(db, pageno, Roots(Shapes(children)));
      TablesUnfold(db, children);
  }

  lemma {:induction false} TablesUnfold(db: Db, tables: seq<Table>)
    requires ValidDb(db) && StoredTables(db, tables)
    ensures UnfoldsAll(Views(db), Shapes(tables)) && RowsAll(Views(db), Shapes(tables)) == TablesRows(tables)
    decreases tables
  {
    if tables != [] {
      TableUnfolds(db, tables[0]);
      TablesUnfold(db, tables[1..]);
      assert Shapes(tables)[1..] == Shapes(tables[1..]);
    }
  }

  /** From bytes to rows: walking a stored table hands over all its rows, with their rowids and values,
      in the order in which they lie in the table. */
  lemma TableExtracted(db: Db, table: Table, s: State, fuel: nat)
    requires ValidDb(db) && StoredTable(db, table)
    requires NoneChecking(s, Nodes(Shape(table))) && |s.status| == |db.pages| && fuel >= Depth(Shape(table))
    ensures var w := Visit(Views(db), {}, table.pageno, s, fuel);
            w.Done? && w.s.log == s.log + TableRows(table)
  {
    TableUnfolds(db, table);
    InOrder(Views(db), Shape(table), s, fuel);
  }

  // ---------- a database in a file ----------

  /** The cells of a page with these rows. */
  function CellsOf(rows: seq<FileRow>): seq<Cell> {
    seq(|rows|, i requires 0 <= i < |rows| => CellOf(rows[i]))
  }

  /** What a row of sqlite_master stands for: a view or a trigger; a table; or an index, given by the
      tree of its pages. */
  datatype Content = NoPages | TablePages(table: Table) | IndexPages(tree: Tree)

  /** A row of sqlite_master: rowid and overflow pages, the five columns, and what it stands for. */
  datatype Entry = Entry(
    rowid: nat, chain: seq<int>, kind: seq<Numbers.byte>, name: seq<Numbers.byte>, tblName: seq<Numbers.byte>,
    root: Column, sql: Column, content: Content)

  function RowOf(e: Entry): FileRow {
    FileRow(e.rowid, [TextColumn(e.kind), TextColumn(e.name), TextColumn(e.tblName), e.root, e.sql], e.chain)
  }

  function RowsOf(entries: seq<Entry>): seq<FileRow> {
    seq(|entries|, i requires 0 <= i < |entries| => RowOf(entries[i]))
  }

  function TreeOf(c: Content): Tree
    requires !c.NoPages?
  {
    match c
    case TablePages(table) => Shape(table)
    case IndexPages(tree) => tree
  }

  /** The trees the entries stand for. */
  function TreesOf(entries: seq<Entry>): seq<Tree> {
    if entries == [] then []
    else (if entries[0].content.NoPages? then [] else [TreeOf(entries[0].content)]) + TreesOf(entries[1..])
  }

  /** The fourth column is the number of the root page.  The tree has no part in sqlite_master. */
  predicate Names(e: Entry, t: Tree) {
    && ValueOf(e.root) == Integer(t.pageno) && 1 < t.pageno < 0x8000_0000
    && 1 !in Nodes(t) && !Starts(e.name, "sqlite_master")
  }

  /** What an entry stands for is in the file; the fourth column is 0 where there is nothing. */
  ghost predicate StoredEntry(db: Db, e: Entry)
    requires ValidDb(db)
  {
    match e.content
    case NoPages => ValueOf(e.root) == Integer(0)
    case TablePages(table) => Names(e, Shape(table)) && StoredTable(db, table)
    case IndexPages(tree) => Names(e, tree) && StoredIndex(db, tree)
  }

  /** The pages of an index are there.  Their content is not modelled. */
  ghost predicate StoredIndex(db: Db, t: Tree)
    requires ValidDb(db)
  {
    Opens(Views(db), t.pageno) && Unfolds(Views(db), t) && Rows(Views(db), t) == []
  }

  /** sqlite_master lies on page 1, and what its entries stand for is in the file. */
  ghost predicate StoredDatabase(db: Db, entries: seq<Entry>)
    requires ValidDb(db)
  {
    LeafTablePage(db, 1, RowsOf(entries)) && forall e | e in entries :: StoredEntry(db, e)
  }

  /** The rows of the table an entry stands for, unless it is a system table. */
  function EntryRows(e: Entry): seq<TableRow> {
    if e.content.TablePages? && !SystemName(e.name) then TableRows(e.content.table) else []
  }

  /** The rows of sqlite_master, and right after each one the rows of its table. */
  function DatabaseRows(entries: seq<Entry>): seq<TableRow> {
    if entries == [] then []
    else [CellOf(RowOf(entries[0])).outcome.row] + (EntryRows(entries[0]) + DatabaseRows(entries[1..]))
  }

  lemma StoredOpens(db: Db, table: Table)
    requires ValidDb(db) && StoredTable(db, table)
    ensures Opens(Views(db), table.pageno)
  {
    TableUnfolds(db, table);
    match table
    case LeafPage(pageno, rows) =>
      if rows == [] { EmptyPageIsRefused(db, pageno); } else { LeafPageRead(db, pageno, rows); }
    case InteriorPage(pageno, children) => InteriorPageRead(db, pageno, Roots(Shapes(children)));
  }

  function KindOf(e: Entry): Kind { if SystemName(e.name) then SystemKind else TableKind }

  /** Where an entry leads, and what is found there. */
  lemma EntryLeads(db: Db, convert: Value -> int, e: Entry)
    requires ValidDb(db) && StoredEntry(db, e)
    ensures var views, to := Views(db), Followed(Views(db), convert);
            to(CellOf(RowOf(e)).outcome.row) ==
            if e.content.NoPages? then Nowhere else Target(KindOf(e), TreeOf(e.content).pageno)
    ensures var views, to := Views(db), Followed(Views(db), convert);
            !e.content.NoPages? ==>
              && UnfoldsAs(views, to, KindOf(e), TreeOf(e.content))
              && RowsAs(views, to, KindOf(e), TreeOf(e.content)) == EntryRows(e)
  {
    var views, to, row := Views(db), Followed(Views(db), convert), CellOf(RowOf(e)).outcome.row;
    var root := if e.content.NoPages? then 0 else TreeOf(e.content).pageno;
    EntryValues(e);
    hide View, StoredTable, UnfoldsAs, RowsAs, Unfolds, SystemName, Starts, Followed, Views;
    TargetIs(views, convert, row, e.name, root);
    if !e.content.NoPages? {
      if e.content.TablePages? {
        StoredOpens(db, e.content.table);
        TableUnfolds(db, e.content.table);
      }
      TableUnfoldsAs(views, to, KindOf(e), TreeOf(e.content));
    }
  }

  lemma EntryValues(e: Entry)
    ensures var values := CellOf(RowOf(e)).outcome.row.values;
            |values| == 5 && values[0] == Text(e.kind) && values[1] == Text(e.name) && values[3] == ValueOf(e.root)
  {
    var none: seq<Column> := [];
    FirstValue(e.sql, none);
    FirstValue(e.root, [e.sql]);
    FirstValue(TextColumn(e.tblName), [e.root, e.sql]);
    FirstValue(TextColumn(e.name), [TextColumn(e.tblName), e.root, e.sql]);
    FirstValue(TextColumn(e.kind), [TextColumn(e.name), TextColumn(e.tblName), e.root, e.sql]);
  }

  lemma FirstValue(c: Column, cs: seq<Column>)
    ensures ValuesOf([c] + cs) == [ValueOf(c)] + ValuesOf(cs)
  {
    assert ([c] + cs)[1..] == cs;
  }

  lemma {:induction false} EntriesLead(db: Db, convert: Value -> int, entries: seq<Entry>)
    requires ValidDb(db) && forall e | e in entries :: StoredEntry(db, e)
    ensures var views, to, cells := Views(db), Followed(Views(db), convert), CellsOf(RowsOf(entries));
            && Roots(TreesOf(entries)) == Onward(to, cells)
            && UnfoldAllAs(views, to, KindsOnward(to, cells), TreesOf(entries))
            && Interleaved(views, to, cells, TreesOf(entries)) == DatabaseRows(entries)
            && 1 !in NodesAll(TreesOf(entries))
    decreases entries
  {
    if entries != [] {
      var views, to, cells := Views(db), Followed(Views(db), convert), CellsOf(RowsOf(entries));
      var rest, e := CellsOf(RowsOf(entries[1..])), entries[0];
      EntryLeads(db, convert, e);
      EntriesLead(db, convert, entries[1..]);
      CellsOfMore(entries);
      StoredApart(db, e);
      hide CellsOf, RowsOf, StoredEntry, RowOf, CellOf, Followed, View, Views, UnfoldsAs, RowsAs, EntryRows, TreeOf;
      var row := CellOf(RowOf(e)).outcome.row;
      if e.content.NoPages? {
        NextRow(views, to, cells, TreesOf(entries[1..]));
        assert [] + TreesOf(entries[1..]) == TreesOf(entries[1..]);
        assert [] + DatabaseRows(entries[1..]) == DatabaseRows(entries[1..]);
        NoEntryRows(e);
      } else {
        var t := TreeOf(e.content);
        assert TreesOf(entries)[0] == t && TreesOf(entries)[1..] == TreesOf(entries[1..]);
        assert KindsOnward(to, cells) == [KindOf(e)] + KindsOnward(to, rest);
        assert KindsOnward(to, cells)[0] == KindOf(e) && KindsOnward(to, cells)[1..] == KindsOnward(to, rest);
        assert Onward(to, cells) == [t.pageno] + Onward(to, rest);
      }
    }
  }

  lemma StoredApart(db: Db, e: Entry)
    requires ValidDb(db) && StoredEntry(db, e)
    ensures !e.content.NoPages? ==> 1 !in Nodes(TreeOf(e.content))
  {
  }

  lemma NoEntryRows(e: Entry)
    requires e.content.NoPages?
    ensures EntryRows(e) == []
  {
  }

  lemma CellsOfMore(entries: seq<Entry>)
    requires entries != []
    ensures var cells := CellsOf(RowsOf(entries));
            && cells != [] && cells[0] == CellOf(RowOf(entries[0])) && cells[0].outcome.Reported?
            && cells[1..] == CellsOf(RowsOf(entries[1..]))
  {
  }

  lemma FirstPageIs(db: Db, rows: seq<FileRow>)
    requires ValidDb(db) && LeafTablePage(db, 1, rows)
    ensures ViewAt(Views(db), 1) == LeafTable(CellsOf(rows)) && |db.pages| > 0
  {
    LeafPageRead(db, 1, rows);
    hide View;
  }

  lemma DatabaseUnfolds(db: Db, convert: Value -> int, entries: seq<Entry>)
    requires ValidDb(db) && StoredDatabase(db, entries)
    ensures var views, to, t := Views(db), Followed(Views(db), convert), Tree(1, TreesOf(entries));
            && UnfoldsAs(views, to, MasterKind, t) && ViewAt(views, 1) == LeafTable(CellsOf(RowsOf(entries)))
            && RowsAs(views, to, MasterKind, t) == DatabaseRows(entries) && |db.pages| > 0
  {
    hide StoredEntry, LeafTablePage, View, Views, ViewAt, ValidDb, CellsOf, RowsOf, Onward, KindsOnward, TreesOf;
    hide DatabaseRows, Interleaved, Roots, RowsAllAs, NodesAll, Followed, UnfoldAllAs;
    FirstPageIs(db, RowsOf(entries));
    EntriesLead(db, convert, entries);
  }

  /** From bytes to a database: the run hands over every row of sqlite_master, and right after it all rows
      of its table, in the order in which they lie in the file; each row once, and no others, if no page
      elsewhere in the file looks like one of a B-tree. */
  lemma DatabaseExtracted(db: Db, convert: Value -> int, entries: seq<Entry>, fuel: nat)
    requires ValidDb(db) && StoredDatabase(db, entries) && fuel > DepthAll(TreesOf(entries))
    ensures var w := RunOne(Views(db), {}, Followed(Views(db), convert), 1, Fresh(|db.pages|), fuel);
            w.Done? && w.s.log == DatabaseRows(entries)
    ensures (forall p | 2 <= p <= |db.pages| && Opens(Views(db), p) :: p in NodesAll(TreesOf(entries))) ==>
              var w := Run(Views(db), {}, Followed(Views(db), convert), 0, Fresh(|db.pages|), fuel);
              w.Done? && w.s.log == DatabaseRows(entries)
  {
    var views, to, t := Views(db), Followed(Views(db), convert), Tree(1, TreesOf(entries));
    DatabaseUnfolds(db, convert, entries);
    hide *;
    Starting(views, t, fuel);
    DescendInOrder(views, to, MasterKind, t, Fresh(|views|), fuel);
    StartsFrom(views, to, fuel, RowsAs(views, to, MasterKind, t));
    if forall p | 2 <= p <= |db.pages| && Opens(views, p) :: p in NodesAll(TreesOf(entries)) {
      WholeDatabase(views, to, t, fuel);
    }
  }

  lemma Starting(views: seq<PageView>, t: Tree, fuel: nat)
    requires t.pageno == 1 && fuel > DepthAll(t.kids) && ViewAt(views, 1).LeafTable?
    ensures var s := Fresh(|views|); NoneChecking(s, Nodes(t)) && |s.status| == |views|
    ensures fuel >= Depth(t) && Nodes(t) == {1} + NodesAll(t.kids) && Opens(views, 1)
  {
  }

  lemma StartsFrom(views: seq<PageView>, to: TableRow -> Target, fuel: nat, rows: seq<TableRow>)
    requires var w := Descend(views, {}, to, MasterKind, 1, Fresh(|views|), fuel);
             w.Done? && w.s.log == Fresh(|views|).log + rows
    requires Opens(views, 1)
    ensures var w := RunOne(views, {}, to, 1, Fresh(|views|), fuel); w.Done? && w.s.log == rows
  {
    hide Descend;
    assert [] + rows == rows;
  }
}
