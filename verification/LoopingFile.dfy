/** A database file on which the repair kit's walk does not end. */
module LoopingFile {
  import opened Numbers
  import opened ValueList
  import opened Records
  import opened Payloads
  import opened Cells
  import opened Pages
  import opened Walker
  import opened Recovery
  import opened RepairKit
  import opened Schema
  import opened FileHeader

  /** Page 1: the header of the file, with the page size 512 and no reserved bytes; behind it the head of
      an interior page of an index, with cells for the children 2 and 1.  Everything else is zero. */
  function PageOne(): (page: seq<byte>)
    ensures |page| == 512
    ensures forall i | 0 <= i < 512 :: page[i] == OnPageOne(i)
  {
    seq(512, i requires 0 <= i => OnPageOne(i))
  }

  function OnPageOne(i: nat): byte {
    if i < 16 then MAGIC[i]
    else if i == 16 || i == 100 || i == 104 || i == 115 then 2
    else if i == 109 then 112 else if i == 111 then 116 else if i == 119 then 1 else 0
  }

  /** Page 2: a leaf page of a table with one cell at offset 10: a payload of 547 bytes, rowid 1.  Of the
      payload, a record with one blob of 544 bytes, 39 bytes are here; the rest is on page 1, from its fifth
      byte on.  The four bytes before, which should be the number of the next overflow page, are the
      first ones of the file. */
  function PageTwo(): (page: seq<byte>)
    ensures |page| == 512
    ensures forall i | 0 <= i < 512 ::
              page[i] == if i == 0 then 13 else if i == 4 then 1 else if i == 9 then 10
                         else if i == 10 then 132 else if i == 11 then 35 else if i == 12 then 1
                         else if i == 13 then 3 else if i == 14 then 136 else if i == 15 then 76
                         else if i == 55 then 1 else 0
  {
    seq(512, i => if i == 0 then 13 else if i == 4 then 1 else if i == 9 then 10
                  else if i == 10 then 132 else if i == 11 then 35 else if i == 12 then 1
                  else if i == 13 then 3 else if i == 14 then 136 else if i == 15 then 76
                  else if i == 55 then 1 else 0)
  }

  function Looping(): (db: Db)
    ensures ValidDb(db)
  {
    Db(512, 512, [Page(PageOne()), Page(PageTwo())])
  }

  lemma ShortIs(data: seq<byte>, offset: nat)
    requires offset + 2 <= |data| && data[offset] == 0 && data[offset + 1] < 128
    ensures ShortAt(data, offset) == data[offset + 1] as int
  {
    var p := data[offset..offset + 2];
    assert p[0] == 0 && p[1..] == [data[offset + 1]];
  }

  lemma PagenoIs(data: seq<byte>, offset: nat)
    requires offset + 4 <= |data| && data[offset] == 0 && data[offset + 1] == 0 && data[offset + 2] == 0
    ensures PagenoAt(data, offset) == data[offset + 3] as int
  {
    var p := data[offset..offset + 4];
    assert p[0] == 0 && p[1..] == [0, 0, data[offset + 3]];
  }

  lemma PageOneView()
    ensures View(Looping(), 1) == Inner([2, 1])
  {
    var db, data := Looping(), PageOne();
    assert Acquire(db, 1) == Page(data);
    hide PageOne, PagenoAt, ShortAt;
    ShortIs(data, 103);
    ShortIs(data, 108);
    ShortIs(data, 110);
    PagenoIs(data, 112);
    PagenoIs(data, 116);
    assert Pointers(data, 108, 2) == [112, 116];
    assert Kids(data, [112, 116], false) == [2, 1];
  }

  /** The payload as it lies in the file. */
  function Blob(): seq<byte> {
    PageTwo()[13..52] + PageOne()[4..512]
  }

  lemma BlobBytes()
    ensures |Blob()| == 547 && Blob()[0] == 3 && Blob()[1] == 136 && Blob()[2] == 76
  {
  }

  lemma BlobRecord()
    ensures DecodeRecord(Blob()) == Row([Binary(Blob()[3..547])])
  {
    var data := Blob();
    BlobBytes();
    hide Blob;
    assert DecodeVarint(data, 0) == Parsed(1, 3);
    assert ScanVarint(data, 1, 1, 1024) == Parsed(2, 1100);
    assert DecodeVarint(data, 1) == Parsed(2, 1100);
    assert DecodeField(data, 3, 1100) == Got(Binary(data[3..547]));
    assert DecodeColumns(data, 3, 3, 547) == Row([]);
    hide DecodeVarint, ScanVarint, DecodeField;
    assert SerialLength(1100) == 544;
    assert DecodeColumns(data, 1, 3, 3) == Prepend([Binary(data[3..547])], Row([]));
    assert [Binary(data[3..547])] + [] == [Binary(data[3..547])];
  }

  lemma NoPageNumber()
    ensures PagenoAt(PageOne(), 0) == 0x53514C69
  {
    var p := PageOne()[0..4];
    assert p[0] == 83 && p[1..] == [81, 76, 105];
  }

  /** The header of the file is in order: the repair kit reads the file in pages of 512 bytes. */
  lemma LoopingOpens()
    ensures OpenPlain(PageOne() + PageTwo()) == Opened(Looping())
  {
    var file := PageOne() + PageTwo();
    assert file[..16] == MAGIC;
    var p := file[16..18];
    assert p[0] == 2 && p[1..] == [0];
    assert file[20] == 0;
    assert ShortAt(file, 16) == 512;
    hide ShortAt, PageOne, PageTwo;
    assert file[512..] == PageTwo() && file[..512] == PageOne();
    assert PageTwo()[..512] == PageTwo() && PageTwo()[512..] == [];
    assert Split(PageTwo(), 512) == [Page(PageTwo())] + [];
  }

  lemma PageTwoPayload()
    ensures ReadPayload(Looping(), PageTwo(), 13, 547) == Payload(Blob(), [1])
  {
    var db, page := Looping(), PageTwo();
    assert LocalSize(547, 512) == 39;
    PagenoIs(page, 52);
    NoPageNumber();
    assert Acquire(db, 1) == Page(PageOne());
    hide PageOne, PageTwo, PagenoAt;
    ChainEnds(db, PagenoAt(PageOne(), 0), 0);
    NextLink(db, 1, 508);
    LinkIs(1, PageOne()[4..512], [], []);
    assert PageOne()[4..512] + [] == PageOne()[4..512] && [1] + [] == [1];
    assert ReadChain(db, 1, 508) == Chain(PageOne()[4..512], [1]);
    assert PageTwo()[13..52] + PageOne()[4..512] + Zeros(0) == Blob();
  }

  lemma PageTwoVarints()
    ensures DecodeVarint(PageTwo(), 10) == Parsed(2, 547) && DecodeVarint(PageTwo(), 12) == Parsed(1, 1)
  {
    var page := PageTwo();
    assert page[10] == 132 && page[11] == 35 && page[12] == 1;
    hide PageTwo;
    assert ScanVarint(page, 10, 1, 512) == Parsed(2, 547);
  }

  lemma PageTwoCell()
    ensures DecodeCell(Looping(), PageTwo(), 10) == Cell([1], Reported(TableRow(1, [Binary(Blob()[3..547])])))
  {
    BlobBytes();
    PageTwoPayload();
    BlobRecord();
    PageTwoVarints();
    hide PageOne, PageTwo, DecodeVarint, ReadPayload, DecodeRecord, Blob;
  }

  lemma PageTwoHead()
    ensures HeadOf(Looping(), 2) == Head(LEAF_TABLE, [10]) && Acquire(Looping(), 2) == Page(PageTwo())
  {
    var db, data := Looping(), PageTwo();
    assert data[0] == 13 && data[3] == 0 && data[4] == 1 && data[8] == 0 && data[9] == 10;
    assert Acquire(db, 2) == Page(data);
    hide PageTwo, PageOne, ShortAt;
    ShortIs(data, 3);
    ShortIs(data, 8);
    assert Pointers(data, 8, 1) == [10];
  }

  lemma PageTwoView()
    ensures View(Looping(), 2) == LeafTable([Cell([1], Reported(TableRow(1, [Binary(LoopingRow())])))])
  {
    PageTwoCell();
    PageTwoHead();
    hide PageTwo, PageOne, DecodeCell, HeadOf, Acquire, Looping;
    assert CellsAt(Looping(), PageTwo(), [10]) == [DecodeCell(Looping(), PageTwo(), 10)];
  }

  function LoopingRow(): seq<byte> {
    BlobBytes();
    Blob()[3..547]
  }

  lemma LoopingViews()
    ensures Views(Looping()) ==
            [Inner([2, 1]), LeafTable([Cell([1], Reported(TableRow(1, [Binary(LoopingRow())])))])]
  {
    PageOneView();
    PageTwoView();
    assert |Looping().pages| == 2;
    hide View, PageOne, PageTwo, Blob, LoopingRow, Looping;
    var views := Views(Looping());
    assert views[0] == ViewAt(views, 1) && views[1] == ViewAt(views, 2);
  }

  lemma TwoPages(row: TableRow, to: TableRow -> Target, masters: int -> bool, rank: seq<nat>, m: nat)
    ensures var views := [Inner([2, 1]), LeafTable([Cell([1], Reported(row))])];
            Sound(views) && Opens(views, 1) && !Ranked(Graph(views, to, masters), rank, m)
  {
    var views := [Inner([2, 1]), LeafTable([Cell([1], Reported(row))])];
    assert views[1].cells[0].acquired[0] == 1 && ViewAt(views, 1).Inner?;
    assert Cell([1], Reported(row)) in views[1].cells && 1 in Cell([1], Reported(row)).acquired;
    assert Reached(views, 1);
    var g := Graph(views, to, masters);
    assert Loose(g, 1) && 1 in Below(g, 1);
  }

  /** The run of sqliterkParse starts with page 1. */
  lemma RunStarts(views: seq<PageView>, s: State, fuel: nat)
    requires |views| > 0 && StatusAt(s.status, 1) == Unchecked && Opens(views, 1)
    requires Visit(views, {}, 1, s, fuel) == OutOfFuel
    ensures ParseFrom(views, {}, 0, s, fuel) == OutOfFuel
  {
  }

  /** The row of the file is none of sqlite_master: it has one column. */
  lemma RowLeadsNowhere(row: TableRow, convert: Value -> int)
    requires |row.values| == 1
    ensures var views := [Inner([2, 1]), LeafTable([Cell([1], Reported(row))])];
            Flat(views, Followed(views, convert))
  {
  }

  /** A file with a header in order, which the code reads within its buffers, and on which the run ends at
      no depth, whether or not rows of sqlite_master are followed; its pages cannot be ranked. */
  lemma WalkDoesNotEnd(convert: Value -> int, to: TableRow -> Target, masters: int -> bool,
                       rank: seq<nat>, m: nat, fuel: nat)
    ensures OpenPlain(PageOne() + PageTwo()) == Opened(Looping())
    ensures Sound(Views(Looping())) && !Ranked(Graph(Views(Looping()), to, masters), rank, m)
    ensures var views := Views(Looping());
            && ParseFrom(views, {}, 0, Fresh(2), fuel) == OutOfFuel
            && Run(views, {}, Followed(views, convert), 0, Fresh(2), fuel) == OutOfFuel
  {
    LoopingOpens();
    hide *;
    LoopingViews();
    var row := TableRow(1, [Binary(LoopingRow())]);
    TwoPages(row, to, masters, rank, m);
    var s, views := Fresh(2), Views(Looping());
    FreshIs(s);
    OverflowMayUndoTheMark(row, s, fuel);
    RunStarts(views, s, fuel);
    RowLeadsNowhere(row, convert);
    RunIsParse(views, {}, Followed(views, convert), 0, s, fuel);
  }

  lemma FreshIs(s: State)
    requires s == Fresh(2)
    ensures |s.status| == 2 && s.status[0] == Unchecked && s.status[1] == Unchecked
    ensures StatusAt(s.status, 1) == Unchecked
  {
  }
}
