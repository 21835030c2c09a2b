/** The repair kit itself: the pager's page statuses, the callbacks that change them, and the walk. */
module RepairKit {
  import opened ValueList
  import opened Payloads
  import opened Cells
  import opened Pages
  import opened Walker
  import opened Extraction
  import opened Recovery
  import opened Schema
  import Numbers

  /** What the walker finds on each page of a file. */
  function Views(db: Db): (views: seq<PageView>)
    requires ValidDb(db)
    ensures |views| == |db.pages|
    ensures forall p :: ViewAt(views, p) == View(db, p)
  {
    seq(|db.pages|, i requires 0 <= i < |db.pages| => View(db, i + 1))
  }

  /** Reading the file never leaves a buffer. */
  ghost predicate Sound(views: seq<PageView>) {
    && (forall p | 0 <= p < |views| :: !views[p].OverrunPage?)
    && (forall p, c | 0 <= p < |views| && views[p].LeafTable? && c in views[p].cells :: c.outcome != Overrun)
  }

  /** A row is handed over. */
  function Logged(s: State, row: TableRow): State { s.(log := s.log + [row]) }

  /** What a row of a B-tree of some kind comes to: the client is asked, and a row of sqlite_master is
      followed. */
  function ReportedRow(views: seq<PageView>, cancels: set<nat>, to: TableRow -> Target, kind: Kind,
                       row: TableRow, s: State, fuel: nat): Walk
  {
    if |s.log| in cancels then Done(Logged(s, row), RcCancelled)
    else if kind != MasterKind then Done(Logged(s, row), RcOk)
    else
      match AfterRow(views, cancels, to, row, Logged(s, row), fuel)
      case OutOfFuel => OutOfFuel
      case Done(s', _) => Done(s', RcOk)
  }

  /** The walk over the cells of a leaf page whose rows are handed over. */
  function CellsWalk(views: seq<PageView>, cancels: set<nat>, to: TableRow -> Target, kind: Kind,
                     cells: seq<Cell>, s: State, fuel: nat): Walk
  {
    if kind == MasterKind then DescendCells(views, cancels, to, cells, s, fuel)
    else var (s', rc) := VisitCells(views, cancels, cells, s); Done(s', rc)
  }

  /** The walk over a leaf page of a table. */
  function LeafWalk(views: seq<PageView>, cancels: set<nat>, to: TableRow -> Target, kind: Kind,
                    cells: seq<Cell>, s: State, fuel: nat): Walk
  {
    if kind == SystemKind then Done(s, RcOk) else CellsWalk(views, cancels, to, kind, cells, s, fuel)
  }

  class Kit {
    const db: Db
    const pagesStatus: array<Status>
    /** The calls of the client's callback, by number, that it answers by cancelling. */
    const cancels: set<nat>
    /** Rows of sqlite_master are followed into the B-trees they name. */
    const recursive: bool
    /** What the C library makes of floating-point numbers and texts that are read as integers. */
    const convert: Value -> int
    /** Pages that may be walked as part of sqlite_master, pages of system tables, and ranks below m of the
        pages that overflow chains run into: see Closed, Hides and Ranked. */
    ghost const masters: int -> bool
    ghost const hidden: int -> bool
    ghost const rank: seq<nat>
    ghost const m: nat
    /** The rows handed to the client. */
    var log: seq<TableRow>
    /** SQLITERK_INTEGRITY_DATA: some page has been checked to the end. */
    var integrity: bool

    ghost predicate Valid()
      reads this`integrity, pagesStatus
    {
      && Fixed() && (integrity || forall p | 0 <= p < pagesStatus.Length :: pagesStatus[p] != Checked)
    }

    ghost predicate Fixed() {
      && ValidDb(db) && pagesStatus.Length == |db.pages| && Sound(Views(db))
      && Ranked(G(), rank, m) && Closed(G()) && masters(1) && Hides(G(), hidden)
    }

    /** Where rows lead. */
    ghost function To(): TableRow -> Target
      requires ValidDb(db)
    {
      if recursive then Followed(Views(db), convert) else _ => Nowhere
    }

    ghost function G(): Graph
      requires ValidDb(db)
    {
      Graph(Views(db), To(), masters)
    }

    ghost function Now(): State
      reads this, pagesStatus
    {
      State(pagesStatus[..], log)
    }

    lemma Parts()
      requires Valid()
      ensures ValidDb(db) && pagesStatus.Length == |db.pages| && Sound(Views(db))
      ensures Ranked(G(), rank, m) && Closed(G()) && masters(1) && Hides(G(), hidden)
      ensures G().views == Views(db) && G().to == To() && G().masters == masters && |Views(db)| == |db.pages|
    {
    }

    lemma NowIs()
      ensures Now().log == log && |Now().status| == pagesStatus.Length
      ensures forall p | 0 <= p < pagesStatus.Length :: Now().status[p] == pagesStatus[p]
    {
    }

    /** A pager just opened: every page is unchecked. */
    constructor (db: Db, cancels: set<nat>, recursive: bool, convert: Value -> int,
                 ghost masters: int -> bool, ghost hidden: int -> bool, ghost rank: seq<nat>, ghost m: nat)
      requires ValidDb(db) && Sound(Views(db)) && masters(1)
      requires
        var views := Views(db);
        var g := Graph(views, if recursive then Followed(views, convert) else _ => Nowhere, masters);
        Ranked(g, rank, m) && Closed(g) && Hides(g, hidden)
      ensures Valid() && fresh(pagesStatus) && this.db == db && this.cancels == cancels
      ensures this.recursive == recursive && this.convert == convert && Now() == Fresh(|db.pages|)
      ensures this.masters == masters && this.hidden == hidden && this.rank == rank && this.m == m
    {
      hide Ranked, Closed, Hides, Sound;
      this.db, this.cancels, this.recursive, this.convert := db, cancels, recursive, convert;
      this.masters, this.hidden, this.rank, this.m := masters, hidden, rank, m;
      log, integrity := [], false;
      pagesStatus := new Status[|db.pages|](_ => Unchecked);
    }

    /** sqliterkPagerSetStatus */
    method SetStatus(pageno: int, status: Status)
      requires Valid()
      modifies this`integrity, pagesStatus
      ensures Valid() && Now() == Mark(old(Now()), pageno, status)
      ensures forall i | 0 <= i < |db.pages| ::
                pagesStatus[i] == if i + 1 == pageno then status else old(pagesStatus[i])
      ensures integrity == (old(integrity) || (status == Checked && IsPageno(db, pageno)))
    {
      hide Ranked, Closed, Hides, Sound, ValidDb;
      if IsPageno(db, pageno) {
        pagesStatus[pageno - 1] := status;
        integrity := integrity || status == Checked;
      }
    }

    /** sqliterkPagerGetStatus */
    method GetStatus(pageno: int) returns (status: Status)
      requires Valid()
      ensures status == StatusAt(pagesStatus[..], pageno)
    {
      hide Ranked, Closed, Hides, Sound, ValidDb;
      status := if IsPageno(db, pageno) then pagesStatus[pageno - 1] else Invalid;
    }

    /** sqliterkNotify_onBeginParsePage */
    method OnBeginParsePage(pageno: int) returns (rc: Rc)
      requires Valid()
      modifies this`integrity, pagesStatus
      ensures Valid()
      ensures if StatusAt(old(pagesStatus[..]), pageno) == Checking then rc == RcOther && Now() == old(Now())
              else rc == RcOk && Now() == Mark(old(Now()), pageno, Checking)
    {
      var status := GetStatus(pageno);
      if status == Checking { return RcOther; }
      SetStatus(pageno, Checking);
      rc := RcOk;
    }

    /** sqliterkNotify_onEndParsePage */
    method OnEndParsePage(pageno: int, result: Rc)
      requires Valid()
      modifies this`integrity, pagesStatus
      ensures Valid()
      ensures Now() == Ended(old(Now()), pageno, result)
      ensures forall i | 0 <= i < |db.pages| ::
                pagesStatus[i] ==
                if i + 1 != pageno || result == RcCancelled then old(pagesStatus[i])
                else if result == RcOk then Checked
                else if result == RcDamaged then DamagedPage
                else Invalid
    {
      match result
      case RcOk => SetStatus(pageno, Checked);
      case RcDamaged => SetStatus(pageno, DamagedPage);
      case RcCancelled =>
      case RcOther => SetStatus(pageno, Invalid);
    }

    /** The client's callback. */
    method CallClient(row: TableRow) returns (rc: Rc)
      modifies this`log
      ensures log == old(log) + [row] && rc == if |old(log)| in cancels then RcCancelled else RcOk
    {
      rc := if |log| in cancels then RcCancelled else RcOk;
      log := log + [row];
    }

    /** The callbacks for an overflow page.  That it is refused while being checked is ignored. */
    method ParseOverflowPage(pageno: int)
      requires Valid()
      modifies this`integrity, pagesStatus
      ensures Valid()
      ensures Now() == Touch(Views(db), old(Now()), pageno)
      ensures forall i | 0 <= i < |db.pages| ::
                pagesStatus[i] ==
                if i + 1 != pageno then old(pagesStatus[i])
                else if Acquire(db, pageno).Unreadable? then Invalid
                else Checked
    {
      var _ := OnBeginParsePage(pageno);
      assert Now() == Mark(old(Now()), pageno, Checking) by {
        assert pagesStatus[..] == Marked(old(pagesStatus[..]), pageno, Checking);
      }
      var page := Acquire(db, pageno);
      UnreadableIsNoPage(db, pageno);
      OnEndParsePage(pageno, if page.Unreadable? then RcOther else RcOk);
    }

    method ParseOverflowPages(pagenos: seq<int>)
      requires Valid()
      modifies this`integrity, pagesStatus
      ensures Valid()
      ensures Now() == TouchAll(Views(db), old(Now()), pagenos)
    {
      hide Touch, Ranked, Sound, Views, ValidDb;
      var i := 0;
      while i < |pagenos|
        invariant i <= |pagenos|
        invariant Valid()
        invariant TouchAll(Views(db), Now(), pagenos[i..]) == TouchAll(Views(db), old(Now()), pagenos)
      {
        ParseOverflowPage(pagenos[i]);
        assert pagenos[i..][1..] == pagenos[i + 1..];
        i := i + 1;
      }
    }

    /** sqliterkBtreeSetMeta: the name of a system table decides, otherwise the kind stays. */
    method SetMeta(kind: Kind, name: seq<Numbers.byte>) returns (named: Kind)
      ensures named == NamedKind(kind, name)
    {
      var i := 0;
      while i < |SYSTEM_NAMES|
        invariant i <= |SYSTEM_NAMES|
        invariant forall j | 0 <= j < i :: !HasPrefix(name, SYSTEM_NAMES[j])
      {
        if HasPrefix(name, SYSTEM_NAMES[i]) { return SystemKind; }
        i := i + 1;
      }
      named := if HasPrefix(name, MASTER_NAME) then MasterKind else kind;
    }

    /** sqliterkNotify_onParseColumn: a row is handed over, and a row of sqlite_master is followed. */
    method OnParseColumn(row: TableRow, column: Values, kind: Kind, ghost fuel: nat) returns (rc: Rc)
      requires Valid() && column.Valid() && column.Contents() == row.values
      requires kind == MasterKind && To()(row).Target? ==>
                 && Fits(G(), To()(row).kind, [To()(row).root])
                 && fuel > Depths(G(), Logged(Now(), row), m) + Weight(G(), rank, To()(row).root)
      modifies this`log, this`integrity, pagesStatus
      ensures Valid()
      ensures ReportedRow(Views(db), cancels, To(), kind, row, old(Now()), fuel) == Done(Now(), rc)
      decreases fuel, 1, 0
    {
      hide Fixed, Fits, Depths, Weight, Descend, AfterRow;
      ghost var before := Now();
      rc := CallClient(row);
      assert Now() == Logged(before, row);
      if rc == RcOk && kind == MasterKind {
        FollowRow(row, column, fuel);
      }
    }

    /** The B-tree that a row of sqlite_master names is walked. */
    method FollowRow(row: TableRow, column: Values, ghost fuel: nat)
      requires Valid() && column.Valid() && column.Contents() == row.values
      requires To()(row).Target? ==>
                 && Fits(G(), To()(row).kind, [To()(row).root])
                 && fuel > Depths(G(), Now(), m) + Weight(G(), rank, To()(row).root)
      modifies this`log, this`integrity, pagesStatus
      ensures Valid()
      ensures var w := AfterRow(Views(db), cancels, To(), row, old(Now()), fuel); w.Done? && w.s == Now()
      decreases fuel, 0, 3
    {
      Parts();
      hide Fixed, Fits, Depths, Weight, Descend, Opens, HasPrefix, NamedKind, Views;
      if !recursive { return; }
      var hasType, _ := column.GetText(0);
      var hasName, name := column.GetText(1);
      var value := column.GetInteger64(3, convert);
      var root := Numbers.ToInt(value);
      if !hasType || !hasName { return; }
      var ok := BtreeOpen(root);
      if !ok { return; }
      var kind := SetMeta(KindOfRoot(root), name);
      assert To()(row) == Target(kind, root);
      var _ := BtreeParsePage(root, kind, fuel);
    }

    /** sqliterkBtreeParseCell, for the leaf page with this number, in a table or in sqlite_master. */
    method ParseCells(pageno: int, cellPointerArray: seq<int>, kind: Kind, ghost fuel: nat) returns (rc: Rc)
      requires Valid() && HeadOf(db, pageno) == Head(LEAF_TABLE, cellPointerArray) && Fits(G(), kind, [pageno])
      requires FuelForAll(G(), rank, m, Below(G(), pageno), Now(), fuel)
      modifies this`log, this`integrity, pagesStatus
      ensures Valid()
      ensures CellsWalk(Views(db), cancels, To(), kind, ViewAt(Views(db), pageno).cells, old(Now()), fuel) ==
              Done(Now(), rc)
      decreases fuel, 2, 0
    {
      hide *;
      Parts();
      NowIs();
      ghost var g := G();
      LeafIs(db, pageno, cellPointerArray);
      var data := Acquire(db, pageno).data;
      ghost var cells := CellsAt(db, data, cellPointerArray);
      CellsHaveFuel(g, rank, m, kind, pageno, Now(), fuel);
      var column := new Values();
      assert cells[0..] == cells;
      var i := 0;
      while i < |cellPointerArray|
        invariant i <= |cellPointerArray| == |cells|
        invariant Valid()
        invariant column.Valid() && fresh(column) && fresh(column.values)
        invariant Ready(g, rank, m, kind, cells[i..], Now(), fuel)
        invariant CellsWalk(g.views, cancels, g.to, kind, cells[i..], Now(), fuel) ==
                  CellsWalk(g.views, cancels, g.to, kind, cells, old(Now()), fuel)
      {
        var cell := ParseCell(db, data, cellPointerArray[i], column);
        CellAt(db, data, cellPointerArray, i);
        assert cell == cells[i..][0] == cells[i];
        assert cells[i..][1..] == cells[i + 1..];
        NextCell(g, rank, m, cancels, kind, cells[i..], Now(), fuel);
        ParseOverflowPages(cell.acquired);
        if !cell.outcome.Reported? { return if cell.outcome.misuse then RcOther else RcDamaged; }
        rc := OnParseColumn(cell.outcome.row, column, kind, fuel);
        if rc != RcOk { return; }
        i := i + 1;
      }
      assert cells[i..] == [];
      NoMoreCells(g.views, cancels, g.to, kind, Now(), fuel);
      rc := RcOk;
    }

    /** A leaf page of a table.  Those of system tables are skipped. */
    method ParseLeaf(pageno: int, cellPointerArray: seq<int>, kind: Kind, ghost fuel: nat) returns (rc: Rc)
      requires Valid() && HeadOf(db, pageno) == Head(LEAF_TABLE, cellPointerArray) && Fits(G(), kind, [pageno])
      requires FuelForAll(G(), rank, m, Below(G(), pageno), Now(), fuel) && ViewAt(Views(db), pageno).LeafTable?
      modifies this`log, this`integrity, pagesStatus
      ensures Valid()
      ensures LeafWalk(Views(db), cancels, To(), kind, ViewAt(Views(db), pageno).cells, old(Now()), fuel) ==
              Done(Now(), rc)
      decreases fuel, 2, 1
    {
      hide Fixed, Fits, FuelForAll, CellsWalk, Views, HeadOf;
      if kind == SystemKind { return RcOk; }
      rc := ParseCells(pageno, cellPointerArray, kind, fuel);
    }

    /** sqliterkBtreeParsePage, in a B-tree of this kind.  The depth of the recursion is at most fuel. */
    method BtreeParsePage(pageno: int, kind: Kind, ghost fuel: nat) returns (rc: Rc)
      requires Valid() && Fits(G(), kind, [pageno])
      requires fuel > Depths(G(), Now(), m) + Weight(G(), rank, pageno)
      modifies this`log, this`integrity, pagesStatus
      ensures Valid()
      ensures Descend(Views(db), cancels, To(), kind, pageno, old(Now()), fuel) == Done(Now(), rc)
      decreases fuel, 0, 2
    {
      hide Fits, Depths, Weight;
      if pageno > |db.pages| { return RcOther; }
      ghost var before := Now();
      rc := OnBeginParsePage(pageno);
      if rc != RcOk { return; }
      assert Now() == Mark(before, pageno, Checking);
      rc := ParseContent(pageno, kind, before, fuel);
      OnEndParsePage(pageno, rc);
    }

    /** The part between the callbacks, for a page just begun. */
    method ParseContent(pageno: int, kind: Kind, ghost before: State, ghost fuel: nat) returns (rc: Rc)
      requires Valid() && |before.status| == |db.pages| && Fits(G(), kind, [pageno])
      requires fuel > Depths(G(), before, m) + Weight(G(), rank, pageno)
      requires pageno <= |db.pages| && StatusAt(before.status, pageno) != Checking
      requires Now() == Mark(before, pageno, Checking)
      modifies this`log, this`integrity, pagesStatus
      ensures Valid()
      ensures Descend(Views(db), cancels, To(), kind, pageno, before, fuel) == Done(Ended(Now(), pageno, rc), rc)
      decreases fuel, 0, 1
    {
      hide *;
      Parts();
      ghost var g := G();
      var head := ParseHead(db, pageno);
      ViewOfHead(db, pageno);
      FuelIsLeft(g, rank, m, pageno, before, fuel);
      if head.NoHead? {
        rc := if head.view.NoPage? then RcOther else RcDamaged;
        DescendDud(g.views, cancels, g.to, kind, pageno, before, fuel);
      } else if head.kind == LEAF_TABLE {
        rc := ParseLeaf(pageno, head.pointers, kind, fuel - 1);
        DescendLeaf(g.views, cancels, g.to, kind, pageno, before, fuel, Now(), rc);
      } else if head.kind == LEAF_INDEX {
        rc := RcOk;
        DescendIndex(g.views, cancels, g.to, kind, pageno, before, fuel);
      } else {
        var pagenos := ParseKids(Acquire(db, pageno).data, head.pointers, head.kind == INTERIOR_TABLE);
        BelowInner(g, kind, pageno);
        ParseChildren(pagenos, kind, fuel - 1);
        rc := RcOk;
        DescendInner(g.views, cancels, g.to, kind, pageno, before, fuel, Now());
      }
    }

    /** The loop over the children: a cancelled child ends it. */
    method ParseChildren(pagenos: seq<int>, kind: Kind, ghost fuel: nat)
      requires Valid() && Fits(G(), kind, pagenos) && FuelForAll(G(), rank, m, pagenos, Now(), fuel)
      modifies this`log, this`integrity, pagesStatus
      ensures Valid()
      ensures DescendKids(Views(db), cancels, To(), kind, pagenos, old(Now()), fuel) == Done(Now(), RcOk)
      decreases fuel, 1
    {
      ghost var g := G();
      Parts();
      hide *;
      var i := 0;
      while i < |pagenos|
        invariant i <= |pagenos| && Valid() && Fits(g, kind, pagenos[i..])
        invariant FuelForAll(g, rank, m, pagenos[i..], Now(), fuel)
        invariant DescendKids(g.views, cancels, g.to, kind, pagenos[i..], Now(), fuel) ==
                  DescendKids(g.views, cancels, g.to, kind, pagenos, old(Now()), fuel)
      {
        assert pagenos[i..][0] == pagenos[i] && pagenos[i..][1..] == pagenos[i + 1..];
        Parts();
        NowIs();
        NextChild(g, rank, m, cancels, kind, pagenos[i..], Now(), fuel);
        var rc := BtreeParsePage(pagenos[i], kind, fuel);
        if rc == RcCancelled { return; }
        i := i + 1;
      }
      assert pagenos[i..] == [];
      NoMoreKids(g.views, cancels, g.to, kind, Now(), fuel);
    }

    /** sqliterkBtreeOpen: the page can be read, and is page 1 or has a type. */
    method BtreeOpen(pageno: int) returns (ok: bool)
      requires Valid()
      ensures ok == Opens(Views(db), pageno)
    {
      var page := Acquire(db, pageno);
      UnreadableIsNoPage(db, pageno);
      if page.Unreadable? { return false; }
      ok := pageno == 1 || IsType(page.data[HeaderOffset(pageno)] as int);
    }

    /** sqliterkParsePage */
    method ParsePage(pageno: int, ghost fuel: nat) returns (ghost rc: Rc)
      requires Valid() && fuel >= Enough(Views(db), m)
      modifies this`log, this`integrity, pagesStatus
      ensures Valid()
      ensures RunOne(Views(db), cancels, To(), pageno, old(Now()), fuel) == Done(Now(), rc)
    {
      EnoughFuel(G(), rank, m, pageno, Now());
      assert Fits(G(), KindOfRoot(pageno), [pageno]);
      hide Fixed, Views, Descend, Depths, Weight, Enough, Opens, Fits;
      rc := RcOk;
      var status := GetStatus(pageno);
      if status != Unchecked { return; }
      var ok := BtreeOpen(pageno);
      if !ok { return; }
      rc := BtreeParsePage(pageno, KindOfRoot(pageno), fuel);
    }

    /** sqliterkParse, on a kit just opened.  Without a cancellation no page stays marked as being checked,
        and every page that can be opened is dealt with; if no overflow chain runs into it and it belongs to
        no system table, its status says what is on it, and its rows have been handed over. */
    method Parse()
      requires Valid() && Now() == Fresh(|db.pages|)
      modifies this`log, this`integrity, pagesStatus
      ensures Valid()
      ensures Run(Views(db), cancels, To(), 0, old(Now()), Enough(Views(db), m)) == Done(Now(), RcOk)
      ensures !recursive ==>
                ParseFrom(Views(db), cancels, 0, old(Now()), Enough(Views(db), m)) == Done(Now(), RcOk)
      ensures cancels == {} ==>
                && (forall p | 0 <= p < |db.pages| :: pagesStatus[p] != Checking)
                && (forall p | 0 <= p < |db.pages| && Opens(Views(db), p + 1) :: Past(pagesStatus[p]))
                && (forall p | Opens(Views(db), p) && !Reached(Views(db), p) && !hidden(p) :: Judged(G(), Now(), p))
    {
      hide *;
      Parts();
      ghost var g, fuel := G(), Enough(Views(db), m);
      ghost var before := Now();
      var i := 0;
      while i < |db.pages|
        invariant i <= |db.pages|
        invariant Valid()
        invariant Run(g.views, cancels, g.to, i, Now(), fuel) == Run(g.views, cancels, g.to, 0, before, fuel)
      {
        ghost var here := Now();
        ghost var rc := ParsePage(i + 1, fuel);
        NextPage(g.views, cancels, g.to, i, here, Now(), rc, fuel);
        i := i + 1;
      }
      NoMorePages(g.views, cancels, g.to, i, Now(), fuel);
      if !recursive {
        FlatTo();
        RunIsParse(g.views, cancels, g.to, 0, before, fuel);
      }
      if cancels == {} {
        NothingIsLost(g, hidden, rank, m, fuel);
        NowIs();
      }
    }

    lemma FlatTo()
      requires ValidDb(db) && !recursive
      ensures Flat(Views(db), To())
    {
    }
  }

  lemma NextPage(views: seq<PageView>, cancels: set<nat>, to: TableRow -> Target, i: nat,
                 before: State, after: State, rc: Rc, fuel: nat)
    requires i < |views| && RunOne(views, cancels, to, i + 1, before, fuel) == Done(after, rc)
    ensures Run(views, cancels, to, i, before, fuel) == Run(views, cancels, to, i + 1, after, fuel)
  {
  }

  lemma NoMorePages(views: seq<PageView>, cancels: set<nat>, to: TableRow -> Target, i: nat, s: State, fuel: nat)
    requires i >= |views|
    ensures Run(views, cancels, to, i, s, fuel) == Done(s, RcOk)
  {
  }

  lemma ViewOfHead(db: Db, pageno: int)
    requires ValidDb(db) && Sound(Views(db))
    ensures var v := ViewAt(Views(db), pageno);
            match HeadOf(db, pageno)
            case NoHead(view) => v == view && (view.NoPage? || view.Untyped? || view.Miscounted?)
            case Head(kind, pointers) =>
              && Acquire(db, pageno).Page?
              && var data := Acquire(db, pageno).data;
                 && |data| >= 12
                 && if kind == LEAF_TABLE then v.LeafTable?
                    else if kind == LEAF_INDEX then v == LeafIndex
                    else Inside(data, pointers) && v == Inner(Kids(data, pointers, kind == INTERIOR_TABLE))
  {
    var v := ViewAt(Views(db), pageno);
    assert v == View(db, pageno) && !v.OverrunPage?;
    if HeadOf(db, pageno).NoHead? { HeadViews(db, pageno); }
  }

  lemma HeadViews(db: Db, pageno: int)
    requires ValidDb(db) && HeadOf(db, pageno).NoHead?
    ensures var view := HeadOf(db, pageno).view;
            view.NoPage? || view.Untyped? || view.Miscounted? || view.OverrunPage?
  {
  }

  /** The cells are those of a page whose rows are handed over, and there is fuel for what they lead to. */
  ghost predicate Ready(g: Graph, rank: seq<nat>, m: nat, kind: Kind, cells: seq<Cell>, s: State, fuel: nat) {
    kind == MasterKind ==>
      && Ranked(g, rank, m) && Closed(g) && InMasters(g, cells) && Reaching(g.views, cells)
      && |s.status| == |g.views| && FuelForAll(g, rank, m, Onward(g.to, cells), s, fuel)
  }

  lemma CellsHaveFuel(g: Graph, rank: seq<nat>, m: nat, kind: Kind, pageno: int, s: State, fuel: nat)
    requires Ranked(g, rank, m) && Closed(g) && Fits(g, kind, [pageno]) && ViewAt(g.views, pageno).LeafTable?
    requires |s.status| == |g.views| && FuelForAll(g, rank, m, Below(g, pageno), s, fuel)
    ensures Ready(g, rank, m, kind, ViewAt(g.views, pageno).cells, s, fuel)
  {
    assert pageno in [pageno];
    LeafReaches(g.views, pageno);
    hide Ranked, FuelForAll, Reaching;
  }

  /** One cell of the loop. */
  lemma NextCell(g: Graph, rank: seq<nat>, m: nat, cancels: set<nat>, kind: Kind, cells: seq<Cell>, s: State, fuel: nat)
    requires Ready(g, rank, m, kind, cells, s, fuel) && cells != []
    ensures var s1 := TouchAll(g.views, s, cells[0].acquired);
            match cells[0].outcome
            case Reported(row) =>
              && (kind == MasterKind && g.to(row).Target? ==>
                    && Fits(g, g.to(row).kind, [g.to(row).root])
                    && fuel > Depths(g, Logged(s1, row), m) + Weight(g, rank, g.to(row).root))
              && var w := ReportedRow(g.views, cancels, g.to, kind, row, s1, fuel);
                 && w.Done?
                 && (w.rc == RcOk ==> Ready(g, rank, m, kind, cells[1..], w.s, fuel))
                 && CellsWalk(g.views, cancels, g.to, kind, cells, s, fuel) ==
                    if w.rc == RcOk then CellsWalk(g.views, cancels, g.to, kind, cells[1..], w.s, fuel) else w
            case Rejected(misuse) =>
              CellsWalk(g.views, cancels, g.to, kind, cells, s, fuel) == Done(s1, if misuse then RcOther else RcDamaged)
            case Overrun => true
  {
    if kind == MasterKind && cells[0].outcome.Reported? {
      MasterCell(g, rank, m, cancels, cells, s, fuel);
    }
    hide Ready, TouchAll, Fits, Depths, Weight, Descend;
  }

  lemma MasterCell(g: Graph, rank: seq<nat>, m: nat, cancels: set<nat>, cells: seq<Cell>, s: State, fuel: nat)
    requires Ready(g, rank, m, MasterKind, cells, s, fuel) && cells != [] && cells[0].outcome.Reported?
    ensures var row, s1 := cells[0].outcome.row, TouchAll(g.views, s, cells[0].acquired);
            && (g.to(row).Target? ==>
                  && Fits(g, g.to(row).kind, [g.to(row).root])
                  && fuel > Depths(g, Logged(s1, row), m) + Weight(g, rank, g.to(row).root))
            && var w := AfterRow(g.views, cancels, g.to, row, Logged(s1, row), fuel);
               w.Done? && Ready(g, rank, m, MasterKind, cells[1..], w.s, fuel)
  {
    var row, s1 := cells[0].outcome.row, TouchAll(g.views, s, cells[0].acquired);
    var s2 := Logged(s1, row);
    ReachingParts(g.views, cells);
    hide Ranked, Reached, Reaching, Kept, FuelForAll, Closed, TouchAll, AfterRow, Depths, Weight;
    CellKept(g, cancels, cells[0], s);
    KeptSize(g, cancels, s, s2);
    StillFuel(g, rank, m, cancels, Onward(g.to, cells), Onward(g.to, cells), s, s2, fuel);
    if g.to(row).Target? {
      assert Onward(g.to, cells)[0] == g.to(row).root;
      FirstHasFuel(g, rank, m, Onward(g.to, cells), s2, fuel);
      assert cells[0] in cells;
    }
    RowHalts(g, rank, m, cancels, cells, s2, fuel);
    var s3 := AfterRow(g.views, cancels, g.to, row, s2, fuel).s;
    KeptSize(g, cancels, s2, s3);
    StillFuel(g, rank, m, cancels, Onward(g.to, cells), Onward(g.to, cells[1..]), s2, s3, fuel);
    assert InMasters(g, cells[1..]);
  }

  lemma NoMoreCells(views: seq<PageView>, cancels: set<nat>, to: TableRow -> Target, kind: Kind, s: State, fuel: nat)
    ensures CellsWalk(views, cancels, to, kind, [], s, fuel) == Done(s, RcOk)
  {
  }

  /** The children of a page are what is below it. */
  lemma BelowInner(g: Graph, kind: Kind, pageno: int)
    requires ViewAt(g.views, pageno).Inner? && Closed(g) && Fits(g, kind, [pageno])
    ensures Below(g, pageno) == ViewAt(g.views, pageno).kids && Fits(g, kind, ViewAt(g.views, pageno).kids)
  {
    assert pageno in [pageno];
  }

  lemma DescendDud(views: seq<PageView>, cancels: set<nat>, to: TableRow -> Target, kind: Kind,
                   pageno: int, s: State, fuel: nat)
    requires fuel > 0 && pageno <= |views| && StatusAt(s.status, pageno) != Checking
    requires var v := ViewAt(views, pageno); v.NoPage? || v.Untyped? || v.Miscounted?
    ensures var rc := if ViewAt(views, pageno).NoPage? then RcOther else RcDamaged;
            Descend(views, cancels, to, kind, pageno, s, fuel) ==
            Done(Ended(Mark(s, pageno, Checking), pageno, rc), rc)
  {
  }

  lemma DescendIndex(views: seq<PageView>, cancels: set<nat>, to: TableRow -> Target, kind: Kind,
                     pageno: int, s: State, fuel: nat)
    requires fuel > 0 && pageno <= |views| && StatusAt(s.status, pageno) != Checking && ViewAt(views, pageno).LeafIndex?
    ensures Descend(views, cancels, to, kind, pageno, s, fuel) ==
            Done(Ended(Mark(s, pageno, Checking), pageno, RcOk), RcOk)
  {
  }

  lemma DescendLeaf(views: seq<PageView>, cancels: set<nat>, to: TableRow -> Target, kind: Kind,
                    pageno: int, s: State, fuel: nat, s2: State, rc: Rc)
    requires fuel > 0 && pageno <= |views| && StatusAt(s.status, pageno) != Checking && ViewAt(views, pageno).LeafTable?
    requires var cells := ViewAt(views, pageno).cells;
             LeafWalk(views, cancels, to, kind, cells, Mark(s, pageno, Checking), fuel - 1) == Done(s2, rc)
    ensures Descend(views, cancels, to, kind, pageno, s, fuel) == Done(Ended(s2, pageno, rc), rc)
  {
  }

  lemma DescendInner(views: seq<PageView>, cancels: set<nat>, to: TableRow -> Target, kind: Kind,
                     pageno: int, s: State, fuel: nat, s2: State)
    requires fuel > 0 && pageno <= |views| && StatusAt(s.status, pageno) != Checking && ViewAt(views, pageno).Inner?
    requires var kids := ViewAt(views, pageno).kids;
             DescendKids(views, cancels, to, kind, kids, Mark(s, pageno, Checking), fuel - 1) == Done(s2, RcOk)
    ensures Descend(views, cancels, to, kind, pageno, s, fuel) == Done(Ended(s2, pageno, RcOk), RcOk)
  {
  }

  /** One child of the loop. */
  lemma NextChild(g: Graph, rank: seq<nat>, m: nat, cancels: set<nat>, kind: Kind, kids: seq<int>, s: State, fuel: nat)
    requires Ranked(g, rank, m) && Closed(g) && Fits(g, kind, kids) && |s.status| == |g.views| && kids != []
    requires FuelForAll(g, rank, m, kids, s, fuel)
    ensures Fits(g, kind, [kids[0]]) && Fits(g, kind, kids[1..])
    ensures fuel > Depths(g, s, m) + Weight(g, rank, kids[0])
    ensures var w := Descend(g.views, cancels, g.to, kind, kids[0], s, fuel);
            && w.Done? && FuelForAll(g, rank, m, kids[1..], w.s, fuel)
            && DescendKids(g.views, cancels, g.to, kind, kids, s, fuel) ==
               if w.rc == RcCancelled then Done(w.s, RcOk)
               else DescendKids(g.views, cancels, g.to, kind, kids[1..], w.s, fuel)
  {
    assert Fits(g, kind, [kids[0]]) && Fits(g, kind, kids[1..]);
    hide Ranked, Closed, Fits, Descend, FuelForAll, Depths, Weight, Kept;
    FirstHasFuel(g, rank, m, kids, s, fuel);
    DescendHalts(g, rank, m, cancels, kind, kids[0], s, fuel);
    StillFuel(g, rank, m, cancels, kids, kids[1..], s, Descend(g.views, cancels, g.to, kind, kids[0], s, fuel).s, fuel);
  }

  lemma NoMoreKids(views: seq<PageView>, cancels: set<nat>, to: TableRow -> Target, kind: Kind, s: State, fuel: nat)
    ensures DescendKids(views, cancels, to, kind, [], s, fuel) == Done(s, RcOk)
  {
  }

  lemma UnreadableIsNoPage(db: Db, pageno: int)
    requires ValidDb(db)
    ensures ViewAt(Views(db), pageno).NoPage? <==> Acquire(db, pageno).Unreadable?
  {
  }

  /** Which pages a walk can start from: the type of page 1 is not looked at. */
  lemma OpensIff(db: Db, pageno: int)
    requires ValidDb(db)
    ensures Opens(Views(db), pageno) <==>
              && Acquire(db, pageno).Page?
              && (|| pageno == 1
                  || var first := Acquire(db, pageno).data[0]; first == 2 || first == 5 || first == 10 || first == 13)
  {
    RefusedIff(db, pageno);
    hide View;
  }

  lemma CellAt(db: Db, data: seq<Numbers.byte>, pointers: seq<int>, i: nat)
    requires ValidDb(db) && |data| == db.pageSize && i < |pointers|
    ensures CellsAt(db, data, pointers)[i] == DecodeCell(db, data, pointers[i])
  {
  }

  lemma LeafIs(db: Db, pageno: int, pointers: seq<int>)
    requires ValidDb(db) && Sound(Views(db)) && HeadOf(db, pageno) == Head(LEAF_TABLE, pointers)
    ensures Acquire(db, pageno).Page? && |Acquire(db, pageno).data| == db.pageSize
    ensures ViewAt(Views(db), pageno) == LeafTable(CellsAt(db, Acquire(db, pageno).data, pointers))
    ensures forall c | c in CellsAt(db, Acquire(db, pageno).data, pointers) :: c.outcome != Overrun
  {
    hide DecodeCell;
    NoOverrun(Views(db), pageno);
  }

  lemma NoOverrun(views: seq<PageView>, pageno: int)
    requires Sound(views) && ViewAt(views, pageno).LeafTable?
    ensures forall c | c in ViewAt(views, pageno).cells :: c.outcome != Overrun
  {
  }
}
