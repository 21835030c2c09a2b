/** What a whole run over the file achieves, whatever the graph of pages looks like. */
module Recovery {
  import opened Cells
  import opened Pages
  import opened Walker
  import opened Extraction

  // ---------- cancelling ----------

  /** Only a leaf page ever ends as cancelled, and only because the client cancelled at its last row.
      The interior page above it ends well, so the walk goes on from there. */
  lemma CancelStopsOneLevel(views: seq<PageView>, cancels: set<nat>, pageno: int, s: State, fuel: nat)
    requires |s.status| == |views|
    requires Visit(views, cancels, pageno, s, fuel).Done? && Visit(views, cancels, pageno, s, fuel).rc == RcCancelled
    ensures ViewAt(views, pageno).LeafTable?
    ensures var w := Visit(views, cancels, pageno, s, fuel); |w.s.log| > |s.log| && |w.s.log| - 1 in cancels
  {
    match ViewAt(views, pageno)
    case Inner(kids) => KidsNotCancelled(views, cancels, kids, Mark(s, pageno, Checking), fuel - 1);
    case LeafTable(cells) => CellsCancelled(views, cancels, cells, Mark(s, pageno, Checking));
    case _ =>
  }

  lemma {:induction false} KidsNotCancelled(views: seq<PageView>, cancels: set<nat>, kids: seq<int>,
                                            s: State, fuel: nat)
    ensures var w := VisitKids(views, cancels, kids, s, fuel); w.Done? ==> w.rc == RcOk
    decreases |kids|
  {
    if kids != [] {
      var w := Visit(views, cancels, kids[0], s, fuel);
      if w.Done? && w.rc != RcCancelled {
        KidsNotCancelled(views, cancels, kids[1..], w.s, fuel);
      }
    }
  }

  lemma {:induction false} CellsCancelled(views: seq<PageView>, cancels: set<nat>, cells: seq<Cell>, s: State)
    ensures var (s', rc) := VisitCells(views, cancels, cells, s);
            |s'.log| >= |s.log| && (rc == RcCancelled ==> |s'.log| > |s.log| && |s'.log| - 1 in cancels)
    decreases |cells|
  {
    if cells != [] {
      TouchAllNoNew(views, s, cells[0].acquired);
      if cells[0].outcome.Reported? {
        var s1 := TouchAll(views, s, cells[0].acquired);
        CellsCancelled(views, cancels, cells[1..], s1.(log := s1.log + [cells[0].outcome.row]));
      }
    }
  }

  // ---------- no leaf page is lost ----------

  /** The rows lie one after the other in the log. */
  ghost predicate Holds(log: seq<TableRow>, rows: seq<TableRow>) {
    exists before, after :: log == before + rows + after
  }

  lemma HoldsMore(log: seq<TableRow>, rows: seq<TableRow>, more: seq<TableRow>)
    requires Holds(log, rows)
    ensures Holds(log + more, rows)
  {
    var before, after :| log == before + rows + after;
    assert log + more == before + rows + (after + more);
  }

  /** The rows lie in the log in this order, with others in between. */
  ghost predicate Scattered(log: seq<TableRow>, rows: seq<TableRow>)
    decreases |log|
  {
    rows == [] ||
    (&& log != []
     && ((log[0] == rows[0] && Scattered(log[1..], rows[1..])) || Scattered(log[1..], rows)))
  }

  lemma {:induction false} ScatteredLater(before: seq<TableRow>, log: seq<TableRow>, rows: seq<TableRow>)
    requires Scattered(log, rows)
    ensures Scattered(before + log, rows)
    decreases |before|
  {
    if before == [] {
      assert before + log == log;
    } else {
      ScatteredLater(before[1..], log, rows);
      assert (before + log)[1..] == before[1..] + log;
    }
  }

  lemma {:induction false} ScatteredMore(log: seq<TableRow>, rows: seq<TableRow>, more: seq<TableRow>)
    requires Scattered(log, rows)
    ensures Scattered(log + more, rows)
    decreases |log|
  {
    if rows != [] {
      assert (log + more)[1..] == log[1..] + more;
      if log[0] == rows[0] && Scattered(log[1..], rows[1..]) {
        ScatteredMore(log[1..], rows[1..], more);
      } else {
        ScatteredMore(log[1..], rows, more);
      }
    }
  }

  lemma {:induction false} ScatteredAll(rows: seq<TableRow>)
    ensures Scattered(rows, rows)
    decreases |rows|
  {
    if rows != [] { ScatteredAll(rows[1..]); }
  }

  lemma HoldsScattered(log: seq<TableRow>, rows: seq<TableRow>)
    requires Holds(log, rows)
    ensures Scattered(log, rows)
  {
    var before, after :| log == before + rows + after;
    ScatteredAll(rows);
    ScatteredMore(rows, rows, after);
    ScatteredLater(before, rows + after, rows);
    assert before + (rows + after) == log;
  }

  ghost predicate Past(x: Status) {
    x != Unchecked && x != Checking
  }

  /** The rows of a leaf page are in the log: one after the other, or, if rows of the page lead to other
      B-trees, in this order. */
  ghost predicate Given(g: Graph, log: seq<TableRow>, pageno: int) {
    ViewAt(g.views, pageno).LeafTable? ==>
      var rows := CellRows(ViewAt(g.views, pageno).cells);
      if Below(g, pageno) == [] then Holds(log, rows) else Scattered(log, rows)
  }

  lemma GivenMore(g: Graph, log: seq<TableRow>, more: seq<TableRow>, pageno: int)
    requires Given(g, log, pageno)
    ensures Given(g, log + more, pageno)
  {
    if ViewAt(g.views, pageno).LeafTable? {
      var rows := CellRows(ViewAt(g.views, pageno).cells);
      if Below(g, pageno) == [] { HoldsMore(log, rows, more); } else { ScatteredMore(log, rows, more); }
    }
  }

  /** What the repair kit is to say about a page, in the end: it is checked if it is an interior page, a
      leaf of an index, or a leaf of a table all of whose cells are in order; it is invalid if it cannot be
      read; and otherwise it is damaged, unless the first bad cell has an empty payload. */
  function Verdict(v: PageView): Status {
    match v
    case Inner(_) => Checked
    case LeafIndex => Checked
    case LeafTable(cells) => CellsVerdict(cells)
    case Untyped => DamagedPage
    case Miscounted => DamagedPage
    case NoPage => Invalid
    case OverrunPage => Invalid
  }

  function CellsVerdict(cells: seq<Cell>): Status {
    if cells == [] then Checked
    else
      match cells[0].outcome
      case Reported(_) => CellsVerdict(cells[1..])
      case Rejected(misuse) => if misuse then Invalid else DamagedPage
      case Overrun => Invalid
  }

  /** The result code stands for the verdict. */
  predicate Means(rc: Rc, x: Status) {
    match rc
    case RcOk => x == Checked
    case RcDamaged => x == DamagedPage
    case RcOther => x == Invalid
    case RcCancelled => false
  }

  lemma {:induction false} CellsMean(views: seq<PageView>, cells: seq<Cell>, s: State)
    ensures Means(VisitCells(views, {}, cells, s).1, CellsVerdict(cells))
    decreases |cells|
  {
    if cells != [] && cells[0].outcome.Reported? {
      var s1 := TouchAll(views, s, cells[0].acquired);
      CellsMean(views, cells[1..], s1.(log := s1.log + [cells[0].outcome.row]));
    }
  }

  /** The page has been dealt with as it should be: its rows have been handed over, and its status says
      what is on it. */
  ghost predicate Judged(g: Graph, s: State, p: int) {
    Given(g, s.log, p) && StatusAt(s.status, p) == Verdict(ViewAt(g.views, p))
  }

  lemma EndedMeans(g: Graph, s: State, pageno: int, rc: Rc)
    requires 1 <= pageno <= |s.status| && Given(g, s.log, pageno) && Means(rc, Verdict(ViewAt(g.views, pageno)))
    ensures Judged(g, Ended(s, pageno, rc), pageno)
  {
    hide Given, Verdict;
  }

  /** The pages of system tables: those below a root that a row of sqlite_master gives for one. */
  ghost predicate Hides(g: Graph, hidden: int -> bool) {
    && (forall p, y | hidden(p) && ViewAt(g.views, p).Inner? && y in ViewAt(g.views, p).kids :: hidden(y))
    && forall p | g.masters(p) && ViewAt(g.views, p).LeafTable? :: HidesFrom(g, hidden, ViewAt(g.views, p).cells)
  }

  ghost predicate HidesFrom(g: Graph, hidden: int -> bool, cells: seq<Cell>) {
    forall c | c in cells && c.outcome.Reported? && g.to(c.outcome.row).Target? &&
               g.to(c.outcome.row).kind == SystemKind :: hidden(g.to(c.outcome.row).root)
  }

  /** A walk is in a system table only on pages of system tables. */
  ghost predicate Suits(hidden: int -> bool, kind: Kind, pagenos: seq<int>) {
    kind == SystemKind ==> forall y | y in pagenos :: hidden(y)
  }

  /** Every page that is past has been dealt with as it should be, unless some overflow chain runs into the
      page or it belongs to a system table. */
  ghost predicate Covered(g: Graph, hidden: int -> bool, s: State) {
    forall p | 1 <= p <= |g.views| && !Reached(g.views, p) && !hidden(p) && Past(StatusAt(s.status, p)) ::
      Judged(g, s, p)
  }

  /** Marks change on pages other than these, or on one page that has been dealt with. */
  lemma CoveredStep(g: Graph, hidden: int -> bool, a: State, b: State, pageno: int)
    requires |a.status| == |b.status| == |g.views| && Covered(g, hidden, a) && a.log <= b.log
    requires forall p | !Reached(g.views, p) && p != pageno :: StatusAt(b.status, p) == StatusAt(a.status, p)
    requires 1 <= pageno <= |g.views| && !hidden(pageno) && Past(StatusAt(b.status, pageno)) ==> Judged(g, b, pageno)
    ensures Covered(g, hidden, b)
  {
    hide Reached, Given, Verdict;
    forall p | 1 <= p <= |g.views| && !Reached(g.views, p) && !hidden(p) && Past(StatusAt(b.status, p))
      ensures Judged(g, b, p)
    {
      if p != pageno {
        assert b.log == a.log + b.log[|a.log|..];
        GivenMore(g, a.log, b.log[|a.log|..], p);
      }
    }
  }

  /** The same statuses on the pages no chain runs into. */
  ghost predicate SameElsewhere(views: seq<PageView>, a: State, b: State) {
    && |a.status| == |b.status| == |views|
    && forall p | !Reached(views, p) :: StatusAt(b.status, p) == StatusAt(a.status, p)
  }

  lemma {:induction false} TouchAllFrame(views: seq<PageView>, s: State, pagenos: seq<int>)
    requires |s.status| == |views| && forall q | q in pagenos :: Reached(views, q)
    ensures SameElsewhere(views, s, TouchAll(views, s, pagenos)) && TouchAll(views, s, pagenos).log == s.log
    decreases |pagenos|
  {
    hide Reached;
    if pagenos != [] {
      assert Reached(views, pagenos[0]);
      TouchAllFrame(views, Touch(views, s, pagenos[0]), pagenos[1..]);
    }
  }

  lemma {:induction false} CellsFrame(views: seq<PageView>, cells: seq<Cell>, s: State)
    requires |s.status| == |views| && Reaching(views, cells)
    ensures SameElsewhere(views, s, VisitCells(views, {}, cells, s).0)
    decreases |cells|
  {
    hide Reached;
    if cells != [] {
      TouchAllFrame(views, s, cells[0].acquired);
      if cells[0].outcome.Reported? {
        var s1 := TouchAll(views, s, cells[0].acquired);
        CellsFrame(views, cells[1..], s1.(log := s1.log + [cells[0].outcome.row]));
      }
    }
  }

  lemma LeafCovers(g: Graph, hidden: int -> bool, pageno: int, cells: seq<Cell>, s: State)
    requires |s.status| == |g.views| && Covered(g, hidden, s) && ViewAt(g.views, pageno) == LeafTable(cells)
    ensures var (s2, rc) := VisitCells(g.views, {}, cells, Mark(s, pageno, Checking));
            Covered(g, hidden, Ended(s2, pageno, rc))
  {
    var s1 := Mark(s, pageno, Checking);
    CellsInOrder(g.views, cells, s1);
    LeafReaches(g.views, pageno);
    CellsFrame(g.views, cells, s1);
    CellsMean(g.views, cells, s1);
    var (s2, rc) := VisitCells(g.views, {}, cells, s1);
    assert s2.log == s.log + CellRows(cells) + [];
    assert Holds(s2.log, CellRows(cells));
    HoldsScattered(s2.log, CellRows(cells));
    assert Given(g, s2.log, pageno);
    hide VisitCells, CellRows, Reached, Given, Covered, CellsVerdict;
    EndedMeans(g, s2, pageno, rc);
    hide Judged;
    CoveredStep(g, hidden, s, Ended(s2, pageno, rc), pageno);
  }

  lemma {:induction false} DescendCovers(g: Graph, hidden: int -> bool, rank: seq<nat>, m: nat, kind: Kind,
                                         pageno: int, s: State, fuel: nat)
    requires Ranked(g, rank, m) && Closed(g) && Hides(g, hidden) && |s.status| == |g.views| && Covered(g, hidden, s)
    requires Fits(g, kind, [pageno]) && Suits(hidden, kind, [pageno])
    requires fuel > Depths(g, s, m) + Weight(g, rank, pageno)
    ensures var w := Descend(g.views, {}, g.to, kind, pageno, s, fuel);
            w.Done? && Kept(g, {}, s, w.s) && Covered(g, hidden, w.s)
    decreases fuel, 0
  {
    DescendHalts(g, rank, m, {}, kind, pageno, s, fuel);
    if pageno <= |g.views| && StatusAt(s.status, pageno) != Checking {
      FuelIsLeft(g, rank, m, pageno, s, fuel);
      assert pageno in [pageno];
      var w := Descend(g.views, {}, g.to, kind, pageno, s, fuel);
      match ViewAt(g.views, pageno)
      case Inner(kids) =>
        hide Ranked, Reached, Depths, Weight, Kept, FuelForAll, Hides, Closed, Covered, Descend;
        InnerCovers(g, hidden, rank, m, kind, pageno, s, fuel);
      case LeafTable(cells) =>
        match kind {
          case TableKind =>
            hide *;
            TableWalk(g, pageno, cells, s, fuel);
            LeafCovers(g, hidden, pageno, cells, s);
          case SystemKind =>
            hide Ranked, Reached, Depths, Weight, Kept, FuelForAll, Fits, Hides, Closed, Given;
            CoveredStep(g, hidden, s, w.s, pageno);
          case MasterKind =>
            hide Ranked, Reached, Depths, Weight, Kept, FuelForAll, Hides, Closed, Covered, Descend;
            MasterCovers(g, hidden, rank, m, pageno, cells, s, fuel);
        }
      case _ =>
        hide Ranked, Reached, Depths, Weight, Kept, FuelForAll, Fits, Hides, Closed;
        CoveredStep(g, hidden, s, w.s, pageno);
    }
  }

  lemma {:induction false} InnerCovers(g: Graph, hidden: int -> bool, rank: seq<nat>, m: nat, kind: Kind,
                                       pageno: int, s: State, fuel: nat)
    requires Ranked(g, rank, m) && Closed(g) && Hides(g, hidden) && |s.status| == |g.views| && Covered(g, hidden, s)
    requires Fits(g, kind, [pageno]) && Suits(hidden, kind, [pageno]) && fuel > 0
    requires pageno <= |g.views| && StatusAt(s.status, pageno) != Checking && ViewAt(g.views, pageno).Inner?
    requires FuelForAll(g, rank, m, Below(g, pageno), Mark(s, pageno, Checking), fuel - 1)
    ensures var w := Descend(g.views, {}, g.to, kind, pageno, s, fuel); w.Done? && Covered(g, hidden, w.s)
    decreases fuel - 1, |ViewAt(g.views, pageno).kids| + 2
  {
    var kids, s1 := ViewAt(g.views, pageno).kids, Mark(s, pageno, Checking);
    assert Fits(g, kind, kids) && Suits(hidden, kind, kids) by { assert pageno in [pageno]; }
    hide Ranked, Reached, Depths, Weight, Kept, FuelForAll, Fits, Suits, Hides, Closed, Given;
    CoveredStep(g, hidden, s, s1, pageno);
    KidsCover(g, hidden, rank, m, kind, kids, s1, fuel - 1);
    var w := DescendKids(g.views, {}, g.to, kind, kids, s1, fuel - 1);
    CoveredStep(g, hidden, w.s, Ended(w.s, pageno, w.rc), pageno);
  }

  lemma TableWalk(g: Graph, pageno: int, cells: seq<Cell>, s: State, fuel: nat)
    requires fuel > 0 && pageno <= |g.views| && StatusAt(s.status, pageno) != Checking
    requires ViewAt(g.views, pageno) == LeafTable(cells)
    ensures var (s2, rc) := VisitCells(g.views, {}, cells, Mark(s, pageno, Checking));
            Descend(g.views, {}, g.to, TableKind, pageno, s, fuel) == Done(Ended(s2, pageno, rc), rc)
  {
  }

  /** A leaf page of sqlite_master. */
  lemma {:induction false} MasterCovers(g: Graph, hidden: int -> bool, rank: seq<nat>, m: nat,
                                        pageno: int, cells: seq<Cell>, s: State, fuel: nat)
    requires Ranked(g, rank, m) && Closed(g) && Hides(g, hidden) && |s.status| == |g.views| && Covered(g, hidden, s)
    requires g.masters(pageno) && ViewAt(g.views, pageno) == LeafTable(cells)
    requires pageno <= |g.views| && StatusAt(s.status, pageno) != Checking && fuel > 0
    requires FuelForAll(g, rank, m, Below(g, pageno), Mark(s, pageno, Checking), fuel - 1)
    ensures var w := Descend(g.views, {}, g.to, MasterKind, pageno, s, fuel); w.Done? && Covered(g, hidden, w.s)
    decreases fuel - 1, |cells| + 2
  {
    hide *;
    LeafReaches(g.views, pageno);
    if Below(g, pageno) == [] {
      FlatLeaf(g, pageno, cells, s, fuel);
      LeafCovers(g, hidden, pageno, cells, s);
    } else {
      var s1 := Mark(s, pageno, Checking);
      MasterHas(g, hidden, pageno, cells);
      MasterWalk(g, pageno, cells, s, fuel);
      BegunCovers(g, hidden, s, pageno);
      CellsCover(g, hidden, rank, m, cells, s1, fuel - 1);
      var w := DescendCells(g.views, {}, g.to, cells, s1, fuel - 1);
      RowsAreGiven(g, pageno, s1.log, w.s.log);
      EndedCovers(g, hidden, w.s, pageno, w.rc);
    }
  }

  lemma MasterHas(g: Graph, hidden: int -> bool, pageno: int, cells: seq<Cell>)
    requires Closed(g) && Hides(g, hidden) && g.masters(pageno) && ViewAt(g.views, pageno) == LeafTable(cells)
    ensures Below(g, pageno) == Onward(g.to, cells) && InMasters(g, cells) && HidesFrom(g, hidden, cells)
    ensures Verdict(LeafTable(cells)) == CellsVerdict(cells)
  {
  }

  /** A page is begun. */
  lemma BegunCovers(g: Graph, hidden: int -> bool, s: State, pageno: int)
    requires |s.status| == |g.views| && Covered(g, hidden, s)
    ensures var s1 := Mark(s, pageno, Checking);
            |s1.status| == |g.views| && s1.log == s.log && Covered(g, hidden, s1)
  {
    hide Reached, Covered, Judged;
    if 1 <= pageno <= |g.views| { CoveredStep(g, hidden, s, Mark(s, pageno, Checking), pageno); }
  }

  /** A page is ended as its contents say. */
  lemma EndedCovers(g: Graph, hidden: int -> bool, s: State, pageno: int, rc: Rc)
    requires |s.status| == |g.views| && Covered(g, hidden, s)
    requires Given(g, s.log, pageno) && Means(rc, Verdict(ViewAt(g.views, pageno)))
    ensures Covered(g, hidden, Ended(s, pageno, rc))
  {
    hide Reached, Covered, Judged, Given, Verdict, Means;
    if 1 <= pageno <= |g.views| {
      EndedMeans(g, s, pageno, rc);
      CoveredStep(g, hidden, s, Ended(s, pageno, rc), pageno);
    }
  }

  lemma MasterWalk(g: Graph, pageno: int, cells: seq<Cell>, s: State, fuel: nat)
    requires fuel > 0 && pageno <= |g.views| && StatusAt(s.status, pageno) != Checking
    requires ViewAt(g.views, pageno) == LeafTable(cells)
    ensures var w := DescendCells(g.views, {}, g.to, cells, Mark(s, pageno, Checking), fuel - 1);
            w.Done? ==> Descend(g.views, {}, g.to, MasterKind, pageno, s, fuel) == Done(Ended(w.s, pageno, w.rc), w.rc)
  {
    hide DescendCells;
  }

  lemma FlatLeaf(g: Graph, pageno: int, cells: seq<Cell>, s: State, fuel: nat)
    requires fuel > 0 && pageno <= |g.views| && StatusAt(s.status, pageno) != Checking
    requires ViewAt(g.views, pageno) == LeafTable(cells) && g.masters(pageno) && Below(g, pageno) == []
    ensures var (s2, rc) := VisitCells(g.views, {}, cells, Mark(s, pageno, Checking));
            Descend(g.views, {}, g.to, MasterKind, pageno, s, fuel) == Done(Ended(s2, pageno, rc), rc)
  {
    CellsAreVisited(g.views, {}, g.to, cells, Mark(s, pageno, Checking), fuel - 1);
  }

  lemma RowsAreGiven(g: Graph, pageno: int, before: seq<TableRow>, log: seq<TableRow>)
    requires ViewAt(g.views, pageno).LeafTable? && Below(g, pageno) != [] && before <= log
    requires Scattered(log[|before|..], CellRows(ViewAt(g.views, pageno).cells))
    ensures Given(g, log, pageno)
  {
    ScatteredLater(before, log[|before|..], CellRows(ViewAt(g.views, pageno).cells));
    assert before + log[|before|..] == log;
  }

  lemma {:induction false} KidsCover(g: Graph, hidden: int -> bool, rank: seq<nat>, m: nat, kind: Kind,
                                     kids: seq<int>, s: State, fuel: nat)
    requires Ranked(g, rank, m) && Closed(g) && Hides(g, hidden) && |s.status| == |g.views| && Covered(g, hidden, s)
    requires Fits(g, kind, kids) && Suits(hidden, kind, kids) && FuelForAll(g, rank, m, kids, s, fuel)
    ensures var w := DescendKids(g.views, {}, g.to, kind, kids, s, fuel);
            w.Done? && w.rc == RcOk && |w.s.status| == |g.views| && Covered(g, hidden, w.s) && s.log <= w.s.log
    decreases fuel, |kids| + 1
  {
    if kids != [] {
      FirstHasFuel(g, rank, m, kids, s, fuel);
      assert Fits(g, kind, [kids[0]]) && Fits(g, kind, kids[1..]);
      assert Suits(hidden, kind, [kids[0]]) && Suits(hidden, kind, kids[1..]);
      hide Ranked, Reached, Kept, FuelForAll, Closed, Fits, Suits, Hides, Covered, Descend, Depths, Weight;
      DescendHalts(g, rank, m, {}, kind, kids[0], s, fuel);
      DescendCovers(g, hidden, rank, m, kind, kids[0], s, fuel);
      var w := Descend(g.views, {}, g.to, kind, kids[0], s, fuel);
      KeptSize(g, {}, s, w.s);
      assert Uncancelled({}, s, w.s);
      StillFuel(g, rank, m, {}, kids, kids[1..], s, w.s, fuel);
      KidsCover(g, hidden, rank, m, kind, kids[1..], w.s, fuel);
    }
  }

  lemma {:induction false} CellsCover(g: Graph, hidden: int -> bool, rank: seq<nat>, m: nat,
                                      cells: seq<Cell>, s: State, fuel: nat)
    requires Ranked(g, rank, m) && Closed(g) && Hides(g, hidden) && |s.status| == |g.views| && Covered(g, hidden, s)
    requires InMasters(g, cells) && HidesFrom(g, hidden, cells) && Reaching(g.views, cells)
    requires FuelForAll(g, rank, m, Onward(g.to, cells), s, fuel)
    ensures var w := DescendCells(g.views, {}, g.to, cells, s, fuel);
            && w.Done? && Means(w.rc, CellsVerdict(cells)) && |w.s.status| == |g.views| && Covered(g, hidden, w.s)
            && s.log <= w.s.log && Scattered(w.s.log[|s.log|..], CellRows(cells))
    decreases fuel, |cells| + 1
  {
    if cells != [] {
      ReachingParts(g.views, cells);
      CellCovers(g, hidden, cells[0], s);
      CellKept(g, {}, cells[0], s);
      if cells[0].outcome.Reported? {
        var row := cells[0].outcome.row;
        var s1 := TouchAll(g.views, s, cells[0].acquired);
        var s2 := s1.(log := s1.log + [row]);
        assert InMasters(g, cells[1..]) && HidesFrom(g, hidden, cells[1..]);
        hide Ranked, Reached, Reaching, Kept, FuelForAll, Closed, TouchAll, Hides, Covered, Scattered;
        KeptSize(g, {}, s, s2);
        StillFuel(g, rank, m, {}, Onward(g.to, cells), Onward(g.to, cells), s, s2, fuel);
        RowCovers(g, hidden, rank, m, cells, s2, fuel);
        var s3 := AfterRow(g.views, {}, g.to, row, s2, fuel).s;
        KeptSize(g, {}, s2, s3);
        StillFuel(g, rank, m, {}, Onward(g.to, cells), Onward(g.to, cells[1..]), s2, s3, fuel);
        hide InMasters, HidesFrom, Onward;
        CellsCover(g, hidden, rank, m, cells[1..], s3, fuel);
        var w := DescendCells(g.views, {}, g.to, cells[1..], s3, fuel);
        RowAhead(s.log, row, s3.log, w.s.log, CellRows(cells[1..]));
      }
    }
  }

  lemma CellCovers(g: Graph, hidden: int -> bool, cell: Cell, s: State)
    requires |s.status| == |g.views| && Covered(g, hidden, s) && Reaching(g.views, [cell])
    ensures var s1 := TouchAll(g.views, s, cell.acquired);
            && |s1.status| == |g.views| && Covered(g, hidden, s1)
            && (cell.outcome.Reported? ==> Covered(g, hidden, s1.(log := s1.log + [cell.outcome.row])))
  {
    assert cell in [cell];
    hide Reached, Given;
    TouchAllFrame(g.views, s, cell.acquired);
    var s1 := TouchAll(g.views, s, cell.acquired);
    CoveredStep(g, hidden, s, s1, 0);
    if cell.outcome.Reported? {
      CoveredStep(g, hidden, s1, s1.(log := s1.log + [cell.outcome.row]), 0);
    }
  }

  lemma {:induction false} RowCovers(g: Graph, hidden: int -> bool, rank: seq<nat>, m: nat, cells: seq<Cell>,
                                     s: State, fuel: nat)
    requires Ranked(g, rank, m) && Closed(g) && Hides(g, hidden) && |s.status| == |g.views| && Covered(g, hidden, s)
    requires InMasters(g, cells) && HidesFrom(g, hidden, cells)
    requires cells != [] && cells[0].outcome.Reported? && FuelForAll(g, rank, m, Onward(g.to, cells), s, fuel)
    ensures var w := AfterRow(g.views, {}, g.to, cells[0].outcome.row, s, fuel);
            w.Done? && Kept(g, {}, s, w.s) && Covered(g, hidden, w.s)
    decreases fuel, 1
  {
    match g.to(cells[0].outcome.row)
    case Nowhere => KeptSame(g, {}, s);
    case Target(kind, root) =>
      assert Onward(g.to, cells)[0] == root;
      FirstHasFuel(g, rank, m, Onward(g.to, cells), s, fuel);
      assert Fits(g, kind, [root]) && Suits(hidden, kind, [root]) by { assert cells[0] in cells; }
      hide *;
      DescendCovers(g, hidden, rank, m, kind, root, s, fuel);
  }

  lemma RowAhead(log: seq<TableRow>, row: TableRow, later: seq<TableRow>, last: seq<TableRow>, rows: seq<TableRow>)
    requires log + [row] <= later <= last && Scattered(last[|later|..], rows)
    ensures log <= last && Scattered(last[|log|..], [row] + rows)
  {
    var tail := last[|log|..];
    assert tail[0] == last[|log|] == (log + [row])[|log|] == row;
    var between := last[|log| + 1..|later|];
    ScatteredLater(between, last[|later|..], rows);
    assert tail[1..] == between + last[|later|..];
    assert ([row] + rows)[1..] == rows;
  }

  // ---------- a whole run ----------

  /** Every page up to the i-th that can be opened has been looked at. */
  ghost predicate LookedAt(views: seq<PageView>, s: State, i: nat)
    requires |s.status| == |views|
  {
    forall p | 0 <= p < i && p < |views| && Opens(views, p + 1) :: s.status[p] != Unchecked
  }

  lemma LookedAtMore(g: Graph, cancels: set<nat>, a: State, b: State, i: nat)
    requires |a.status| == |g.views| && Kept(g, cancels, a, b) && LookedAt(g.views, a, i) && i < |g.views|
    requires Opens(g.views, i + 1) ==> b.status[i] != Unchecked
    ensures LookedAt(g.views, b, i + 1)
  {
  }

  /** Depth enough for a walk that starts at any page, whatever is being checked. */
  function Enough(views: seq<PageView>, m: nat): nat {
    Times(|views|, m) + m
  }

  lemma EnoughFuel(g: Graph, rank: seq<nat>, m: nat, pageno: int, s: State)
    requires Ranked(g, rank, m)
    ensures Enough(g.views, m) > Depths(g, s, m) + Weight(g, rank, pageno)
  {
    hide Reached, Depths, Opening;
    DepthsBound(g, s, m);
  }

  lemma OneCovers(g: Graph, hidden: int -> bool, rank: seq<nat>, m: nat, i: nat, s: State, fuel: nat)
    requires Ranked(g, rank, m) && Closed(g) && g.masters(1) && Hides(g, hidden)
    requires |s.status| == |g.views| && fuel >= Enough(g.views, m) && i < |g.views|
    requires Covered(g, hidden, s) && LookedAt(g.views, s, i)
    ensures var w := RunOne(g.views, {}, g.to, i + 1, s, fuel);
            && w.Done? && Kept(g, {}, s, w.s) && Covered(g, hidden, w.s) && LookedAt(g.views, w.s, i + 1)
  {
    hide *;
    var kind := if i + 1 == 1 then MasterKind else TableKind;
    RunOneIs(g.views, g.to, i, s, fuel);
    if StatusAt(s.status, i + 1) == Unchecked && Opens(g.views, i + 1) {
      StartFits(g, hidden, kind, i + 1);
      EnoughFuel(g, rank, m, i + 1, s);
      DescendHalts(g, rank, m, {}, kind, i + 1, s, fuel);
      DescendCovers(g, hidden, rank, m, kind, i + 1, s, fuel);
    } else {
      KeptSame(g, {}, s);
      StatusIs(s, i);
    }
    LookedAtMore(g, {}, s, RunOne(g.views, {}, g.to, i + 1, s, fuel).s, i);
  }

  lemma StartFits(g: Graph, hidden: int -> bool, kind: Kind, pageno: int)
    requires g.masters(1) && kind == if pageno == 1 then MasterKind else TableKind
    ensures Fits(g, kind, [pageno]) && Suits(hidden, kind, [pageno])
  {
  }

  lemma StatusIs(s: State, i: nat)
    requires i < |s.status|
    ensures StatusAt(s.status, i + 1) == s.status[i]
  {
  }

  lemma RunOneIs(views: seq<PageView>, to: TableRow -> Target, i: nat, s: State, fuel: nat)
    ensures RunOne(views, {}, to, i + 1, s, fuel) ==
            if StatusAt(s.status, i + 1) == Unchecked && Opens(views, i + 1) then
              Descend(views, {}, to, if i + 1 == 1 then MasterKind else TableKind, i + 1, s, fuel)
            else Done(s, RcOk)
  {
  }

  /** The run of sqliterkParse from a page on. */
  lemma {:induction false} RunCovers(g: Graph, hidden: int -> bool, rank: seq<nat>, m: nat, i: nat, s: State, fuel: nat)
    requires Ranked(g, rank, m) && Closed(g) && g.masters(1) && Hides(g, hidden)
    requires |s.status| == |g.views| && fuel >= Enough(g.views, m) && i <= |g.views|
    requires Covered(g, hidden, s) && LookedAt(g.views, s, i)
    ensures var w := Run(g.views, {}, g.to, i, s, fuel);
            w.Done? && Kept(g, {}, s, w.s) && Covered(g, hidden, w.s) && LookedAt(g.views, w.s, |g.views|)
    decreases |g.views| - i
  {
    hide RunOne, Covered, Kept, Ranked, LookedAt, Closed, Hides;
    if i < |g.views| {
      OneCovers(g, hidden, rank, m, i, s, fuel);
      var w := RunOne(g.views, {}, g.to, i + 1, s, fuel);
      KeptSize(g, {}, s, w.s);
      RunCovers(g, hidden, rank, m, i + 1, w.s, fuel);
      KeptTwice(g, {}, s, w.s, Run(g.views, {}, g.to, i + 1, w.s, fuel).s);
    } else {
      KeptSame(g, {}, s);
    }
  }

  function Fresh(n: nat): State {
    State(seq(n, _ => Unchecked), [])
  }

  /** A run without cancellation over a file in which the pages that overflow chains run into form no
      circle: it halts, whatever the other pages point to; no page is left marked as being checked; every
      page that can be opened has been dealt with; and if no chain runs into it and it belongs to no system
      table, its status says what is on it, and its rows, if it is a leaf of a table, have been handed
      over. */
  lemma NothingIsLost(g: Graph, hidden: int -> bool, rank: seq<nat>, m: nat, fuel: nat)
    requires Ranked(g, rank, m) && Closed(g) && g.masters(1) && Hides(g, hidden) && fuel >= Enough(g.views, m)
    ensures var w := Run(g.views, {}, g.to, 0, Fresh(|g.views|), fuel);
            && w.Done? && |w.s.status| == |g.views|
            && (forall p | 0 <= p < |g.views| :: w.s.status[p] != Checking)
            && (forall p | 0 <= p < |g.views| && Opens(g.views, p + 1) :: Past(w.s.status[p]))
            && (forall p | Opens(g.views, p) && !Reached(g.views, p) && !hidden(p) :: Judged(g, w.s, p))
  {
    var s := Fresh(|g.views|);
    hide *;
    FreshStart(g, hidden, s);
    RunCovers(g, hidden, rank, m, 0, s, fuel);
    var s' := Run(g.views, {}, g.to, 0, s, fuel).s;
    EndsWell(g, s, s');
    EndsCovered(g, hidden, s');
  }

  lemma FreshStart(g: Graph, hidden: int -> bool, s: State)
    requires s == Fresh(|g.views|)
    ensures |s.status| == |g.views| && Covered(g, hidden, s) && LookedAt(g.views, s, 0)
    ensures forall p | 0 <= p < |s.status| :: s.status[p] == Unchecked
  {
    hide Reached, Given;
  }

  lemma EndsWell(g: Graph, s: State, s': State)
    requires Kept(g, {}, s, s') && LookedAt(g.views, s', |g.views|)
    requires forall p | 0 <= p < |s.status| :: s.status[p] == Unchecked
    ensures |s'.status| == |g.views| && forall p | 0 <= p < |g.views| :: s'.status[p] != Checking
    ensures forall p | 0 <= p < |g.views| && Opens(g.views, p + 1) :: Past(s'.status[p])
  {
    hide Reached, SteadyStay, SameUnreached, Opens;
    assert NoNew(s, s') by { assert Uncancelled({}, s, s'); }
    forall p | 0 <= p < |g.views| ensures s'.status[p] != Checking {
      assert s.status[p] != Checking;
    }
  }

  lemma EndsCovered(g: Graph, hidden: int -> bool, s: State)
    requires |s.status| == |g.views| && Covered(g, hidden, s)
    requires forall p | 0 <= p < |g.views| && Opens(g.views, p + 1) :: Past(s.status[p])
    ensures forall p | Opens(g.views, p) && !Reached(g.views, p) && !hidden(p) :: Judged(g, s, p)
  {
    hide Reached, Judged, Past;
    forall p | Opens(g.views, p) && !Reached(g.views, p) && !hidden(p) ensures Judged(g, s, p) {
      var i := p - 1;
      assert Opens(g.views, i + 1);
    }
  }

  /** The same where rows lead nowhere. */
  lemma NothingIsLostFlat(views: seq<PageView>, rank: seq<nat>, m: nat, fuel: nat)
    requires Ranked(Plain(views), rank, m) && fuel >= Enough(views, m)
    ensures var w := ParseFrom(views, {}, 0, Fresh(|views|), fuel);
            && w.Done? && |w.s.status| == |views|
            && (forall p | 0 <= p < |views| :: w.s.status[p] != Checking)
            && (forall p | 0 <= p < |views| && Opens(views, p + 1) :: Past(w.s.status[p]))
            && (forall p | 0 <= p < |views| && views[p].LeafTable? && !Reached(views, p + 1) ::
                  Holds(w.s.log, CellRows(views[p].cells)))
            && (forall p | 0 <= p < |views| && Opens(views, p + 1) && !Reached(views, p + 1) ::
                  w.s.status[p] == Verdict(views[p]))
  {
    var g := Plain(views);
    NothingIsLost(g, _ => false, rank, m, fuel);
    RunIsParse(views, {}, g.to, 0, Fresh(|views|), fuel);
    var w := ParseFrom(views, {}, 0, Fresh(|views|), fuel);
    hide Run, ParseFrom, Holds, CellRows, Scattered, Ranked, Reached, Verdict;
    forall p | 0 <= p < |views| && Opens(views, p + 1) && !Reached(views, p + 1)
      ensures w.s.status[p] == Verdict(views[p])
    {
      assert Judged(g, w.s, p + 1) && ViewAt(views, p + 1) == views[p];
    }
    forall p | 0 <= p < |views| && views[p].LeafTable? && !Reached(views, p + 1)
      ensures Holds(w.s.log, CellRows(views[p].cells))
    {
      assert ViewAt(views, p + 1) == views[p];
      NoneOnward(g.to, views[p].cells);
      assert Judged(g, w.s, p + 1);
    }
  }
}
