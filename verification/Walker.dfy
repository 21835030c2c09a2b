/** The repair kit's walk over a graph of pages, which may be damaged and may go in circles. */
module Walker {
  import opened Cells
  import opened Pages

  /** sqliterk_status, without "discarded". */
  datatype Status = Invalid | Unchecked | Checking | DamagedPage | Checked

  /** The status of every page, and the rows handed to the client so far. */
  datatype State = State(status: seq<Status>, log: seq<TableRow>)

  /** Page n is views[n - 1]. */
  function ViewAt(views: seq<PageView>, pageno: int): PageView {
    if 1 <= pageno <= |views| then views[pageno - 1] else NoPage
  }

  predicate Dud(v: PageView) {
    v.NoPage? || v.Untyped? || v.Miscounted?
  }

  /** sqliterkPagerGetStatus */
  function StatusAt(status: seq<Status>, pageno: int): Status {
    if 1 <= pageno <= |status| then status[pageno - 1] else Invalid
  }

  /** sqliterkPagerSetStatus */
  function Marked(status: seq<Status>, pageno: int, x: Status): (s: seq<Status>)
    ensures |s| == |status|
  {
    if 1 <= pageno <= |status| then status[pageno - 1 := x] else status
  }

  function Mark(s: State, pageno: int, x: Status): State {
    s.(status := Marked(s.status, pageno, x))
  }

  /** sqliterkNotify_onEndParsePage */
  function Ended(s: State, pageno: int, rc: Rc): State {
    match rc
    case RcOk => Mark(s, pageno, Checked)
    case RcDamaged => Mark(s, pageno, DamagedPage)
    case RcCancelled => s
    case RcOther => Mark(s, pageno, Invalid)
  }

  /** The result code of a page that cannot be used. */
  function DudCode(v: PageView): Rc {
    if v.Untyped? || v.Miscounted? then RcDamaged else RcOther
  }

  /** An overflow page is begun and ended; that it is refused while being checked is ignored. */
  function Touch(views: seq<PageView>, s: State, pageno: int): State {
    Ended(Mark(s, pageno, Checking), pageno, if ViewAt(views, pageno).NoPage? then RcOther else RcOk)
  }

  function TouchAll(views: seq<PageView>, s: State, pagenos: seq<int>): State
    decreases |pagenos|
  {
    if pagenos == [] then s else TouchAll(views, Touch(views, s, pagenos[0]), pagenos[1..])
  }

  /** sqliterkBtreeParseCell.  The client cancels at the calls whose numbers are in cancels. */
  function VisitCells(views: seq<PageView>, cancels: set<nat>, cells: seq<Cell>, s: State): (State, Rc)
    decreases |cells|
  {
    if cells == [] then (s, RcOk)
    else
      var s1 := TouchAll(views, s, cells[0].acquired);
      match cells[0].outcome
      case Reported(row) =>
        var s2 := s1.(log := s1.log + [row]);
        if |s1.log| in cancels then (s2, RcCancelled) else VisitCells(views, cancels, cells[1..], s2)
      case Rejected(misuse) => (s1, if misuse then RcOther else RcDamaged)
      case Overrun => (s1, RcOther)
  }

  datatype Walk = Done(s: State, rc: Rc) | OutOfFuel

  /** sqliterkBtreeParsePage, to a bounded depth. */
  function Visit(views: seq<PageView>, cancels: set<nat>, pageno: int, s: State, fuel: nat): Walk
    decreases fuel, 0
  {
    if fuel == 0 then OutOfFuel
    else if pageno > |views| || StatusAt(s.status, pageno) == Checking then Done(s, RcOther)
    else
      var s1 := Mark(s, pageno, Checking);
      match ViewAt(views, pageno)
      case Inner(kids) =>
        (match VisitKids(views, cancels, kids, s1, fuel - 1)
         case Done(s2, rc) => Done(Ended(s2, pageno, rc), rc)
         case OutOfFuel => OutOfFuel)
      case LeafTable(cells) =>
        var (s2, rc) := VisitCells(views, cancels, cells, s1);
        Done(Ended(s2, pageno, rc), rc)
      case LeafIndex => Done(Ended(s1, pageno, RcOk), RcOk)
      case v => Done(Ended(s1, pageno, DudCode(v)), DudCode(v))
  }

  /** Its loop over the children: a child that was cancelled ends the loop, and nothing else does. */
  function VisitKids(views: seq<PageView>, cancels: set<nat>, kids: seq<int>, s: State, fuel: nat): Walk
    decreases fuel, |kids| + 1
  {
    if kids == [] then Done(s, RcOk)
    else
      match Visit(views, cancels, kids[0], s, fuel)
      case OutOfFuel => OutOfFuel
      case Done(s1, rc) =>
        if rc == RcCancelled then Done(s1, RcOk) else VisitKids(views, cancels, kids[1..], s1, fuel)
  }

  // ---------- sqlite_master ----------

  /** The kinds of B-trees: tables and indexes; system tables, whose rows are not looked at; and
      sqlite_master, whose rows lead to other B-trees. */
  datatype Kind = TableKind | SystemKind | MasterKind

  /** Where a row of sqlite_master leads. */
  datatype Target = Nowhere | Target(kind: Kind, root: int)

  /** sqliterkBtreeParsePage in a B-tree of any kind.  From a row of sqlite_master that leads somewhere the
      walk goes on there before it comes to the next row. */
  function Descend(views: seq<PageView>, cancels: set<nat>, to: TableRow -> Target, kind: Kind,
                   pageno: int, s: State, fuel: nat): Walk
    decreases fuel, 0
  {
    if fuel == 0 then OutOfFuel
    else if pageno > |views| || StatusAt(s.status, pageno) == Checking then Done(s, RcOther)
    else
      var s1 := Mark(s, pageno, Checking);
      match ViewAt(views, pageno)
      case Inner(kids) => Closing(pageno, DescendKids(views, cancels, to, kind, kids, s1, fuel - 1))
      case LeafTable(cells) =>
        (match kind
         case TableKind =>
           var (s2, rc) := VisitCells(views, cancels, cells, s1);
           Done(Ended(s2, pageno, rc), rc)
         case SystemKind => Done(Ended(s1, pageno, RcOk), RcOk)
         case MasterKind => Closing(pageno, DescendCells(views, cancels, to, cells, s1, fuel - 1)))
      case LeafIndex => Done(Ended(s1, pageno, RcOk), RcOk)
      case v => Done(Ended(s1, pageno, DudCode(v)), DudCode(v))
  }

  function Closing(pageno: int, w: Walk): Walk {
    if w.Done? then Done(Ended(w.s, pageno, w.rc), w.rc) else OutOfFuel
  }

  function DescendKids(views: seq<PageView>, cancels: set<nat>, to: TableRow -> Target, kind: Kind,
                       kids: seq<int>, s: State, fuel: nat): Walk
    decreases fuel, |kids| + 1
  {
    if kids == [] then Done(s, RcOk)
    else
      match Descend(views, cancels, to, kind, kids[0], s, fuel)
      case OutOfFuel => OutOfFuel
      case Done(s1, rc) =>
        if rc == RcCancelled then Done(s1, RcOk) else DescendKids(views, cancels, to, kind, kids[1..], s1, fuel)
  }

  /** What comes of the walk a row leads to is ignored. */
  function DescendCells(views: seq<PageView>, cancels: set<nat>, to: TableRow -> Target,
                        cells: seq<Cell>, s: State, fuel: nat): Walk
    decreases fuel, |cells| + 1
  {
    if cells == [] then Done(s, RcOk)
    else
      var s1 := TouchAll(views, s, cells[0].acquired);
      match cells[0].outcome
      case Reported(row) =>
        var s2 := s1.(log := s1.log + [row]);
        if |s1.log| in cancels then Done(s2, RcCancelled)
        else
          (match to(row)
           case Nowhere => DescendCells(views, cancels, to, cells[1..], s2, fuel)
           case Target(kind, root) =>
             match Descend(views, cancels, to, kind, root, s2, fuel)
             case OutOfFuel => OutOfFuel
             case Done(s3, _) => DescendCells(views, cancels, to, cells[1..], s3, fuel))
      case Rejected(misuse) => Done(s1, if misuse then RcOther else RcDamaged)
      case Overrun => Done(s1, RcOther)
  }

  /** sqliterkBtreeOpen succeeds.  The type of page 1 is not looked at. */
  predicate Opens(views: seq<PageView>, pageno: int) {
    !ViewAt(views, pageno).NoPage? && (pageno == 1 || !ViewAt(views, pageno).Untyped?)
  }

  /** The loop of sqliterkParse, from page i + 1 on, with sqliterkParsePage.  Page 1 is the root of
      sqlite_master. */
  function Run(views: seq<PageView>, cancels: set<nat>, to: TableRow -> Target, i: nat, s: State, fuel: nat): Walk
    decreases |views| - i
  {
    if i >= |views| then Done(s, RcOk)
    else
      match RunOne(views, cancels, to, i + 1, s, fuel)
      case Done(s1, _) => Run(views, cancels, to, i + 1, s1, fuel)
      case OutOfFuel => OutOfFuel
  }

  function RunOne(views: seq<PageView>, cancels: set<nat>, to: TableRow -> Target,
                  pageno: int, s: State, fuel: nat): Walk
  {
    if StatusAt(s.status, pageno) == Unchecked && Opens(views, pageno) then
      Descend(views, cancels, to, if pageno == 1 then MasterKind else TableKind, pageno, s, fuel)
    else Done(s, RcOk)
  }

  /** The same loop when rows of sqlite_master lead nowhere. */
  function ParseFrom(views: seq<PageView>, cancels: set<nat>, i: nat, s: State, fuel: nat): Walk
    decreases |views| - i
  {
    if i >= |views| then Done(s, RcOk)
    else
      match ParseOne(views, cancels, i + 1, s, fuel)
      case Done(s1, _) => ParseFrom(views, cancels, i + 1, s1, fuel)
      case OutOfFuel => OutOfFuel
  }

  function ParseOne(views: seq<PageView>, cancels: set<nat>, pageno: int, s: State, fuel: nat): Walk {
    if StatusAt(s.status, pageno) == Unchecked && Opens(views, pageno) then Visit(views, cancels, pageno, s, fuel)
    else Done(s, RcOk)
  }

  /** The roots of the B-trees that the rows of a page of sqlite_master lead to. */
  function Onward(to: TableRow -> Target, cells: seq<Cell>): seq<int> {
    if cells == [] || !cells[0].outcome.Reported? then []
    else
      (match to(cells[0].outcome.row)
       case Nowhere => []
       case Target(_, root) => [root]) + Onward(to, cells[1..])
  }

  lemma {:induction false} NoneOnward(to: TableRow -> Target, cells: seq<Cell>)
    requires forall c | c in cells && c.outcome.Reported? :: to(c.outcome.row) == Nowhere
    ensures Onward(to, cells) == []
    decreases |cells|
  {
    if cells != [] { NoneOnward(to, cells[1..]); }
  }

  /** No row in the file leads anywhere. */
  ghost predicate Flat(views: seq<PageView>, to: TableRow -> Target) {
    forall p, c | 0 <= p < |views| && views[p].LeafTable? && c in views[p].cells && c.outcome.Reported? ::
      to(c.outcome.row) == Nowhere
  }

  /** A table is walked without looking at where its rows lead. */
  lemma {:induction false} DescendIsVisit(views: seq<PageView>, cancels: set<nat>, to: TableRow -> Target, kind: Kind,
                                          pageno: int, s: State, fuel: nat)
    requires kind == TableKind || (kind == MasterKind && Flat(views, to))
    ensures Descend(views, cancels, to, kind, pageno, s, fuel) == Visit(views, cancels, pageno, s, fuel)
    decreases fuel, 0
  {
    if fuel > 0 && pageno <= |views| && StatusAt(s.status, pageno) != Checking {
      var s1 := Mark(s, pageno, Checking);
      match ViewAt(views, pageno)
      case Inner(kids) => KidsAreVisited(views, cancels, to, kind, kids, s1, fuel - 1);
      case LeafTable(cells) =>
        if kind == MasterKind {
          assert ViewAt(views, pageno) == views[pageno - 1];
          NoneOnward(to, cells);
          CellsAreVisited(views, cancels, to, cells, s1, fuel - 1);
        }
      case _ =>
    }
  }

  lemma {:induction false} KidsAreVisited(views: seq<PageView>, cancels: set<nat>, to: TableRow -> Target, kind: Kind,
                                          kids: seq<int>, s: State, fuel: nat)
    requires kind == TableKind || (kind == MasterKind && Flat(views, to))
    ensures DescendKids(views, cancels, to, kind, kids, s, fuel) == VisitKids(views, cancels, kids, s, fuel)
    decreases fuel, |kids| + 1
  {
    if kids != [] {
      DescendIsVisit(views, cancels, to, kind, kids[0], s, fuel);
      var w := Visit(views, cancels, kids[0], s, fuel);
      if w.Done? { KidsAreVisited(views, cancels, to, kind, kids[1..], w.s, fuel); }
    }
  }

  lemma {:induction false} CellsAreVisited(views: seq<PageView>, cancels: set<nat>, to: TableRow -> Target,
                                           cells: seq<Cell>, s: State, fuel: nat)
    requires Onward(to, cells) == []
    ensures var (s', rc) := VisitCells(views, cancels, cells, s);
            DescendCells(views, cancels, to, cells, s, fuel) == Done(s', rc)
    decreases |cells|
  {
    if cells != [] && cells[0].outcome.Reported? {
      var s1 := TouchAll(views, s, cells[0].acquired);
      CellsAreVisited(views, cancels, to, cells[1..], s1.(log := s1.log + [cells[0].outcome.row]), fuel);
    }
  }

  lemma {:induction false} RunIsParse(views: seq<PageView>, cancels: set<nat>, to: TableRow -> Target,
                                      i: nat, s: State, fuel: nat)
    requires Flat(views, to)
    ensures Run(views, cancels, to, i, s, fuel) == ParseFrom(views, cancels, i, s, fuel)
    decreases |views| - i
  {
    if i < |views| {
      hide Flat, Descend, Visit, Opens, StatusAt;
      DescendIsVisit(views, cancels, to, if i + 1 == 1 then MasterKind else TableKind, i + 1, s, fuel);
      var w := ParseOne(views, cancels, i + 1, s, fuel);
      if w.Done? { RunIsParse(views, cancels, to, i + 1, w.s, fuel); }
    }
  }

  // ---------- termination, and what becomes of the mark "checking" ----------

  /** Some overflow chain runs into the page. */
  ghost predicate Reached(views: seq<PageView>, q: int) {
    exists p, c | 0 <= p < |views| && views[p].LeafTable? && c in views[p].cells :: q in c.acquired
  }

  /** The cells lead to pages that chains run into. */
  ghost predicate Reaching(views: seq<PageView>, cells: seq<Cell>) {
    forall c, q | c in cells && q in c.acquired :: Reached(views, q)
  }

  /** The pages, where the rows of sqlite_master lead, and the pages that may be walked as part of
      sqlite_master. */
  datatype Graph = Graph(views: seq<PageView>, to: TableRow -> Target, masters: int -> bool)

  /** The pages to which the walk may go down from a page. */
  ghost function Below(g: Graph, pageno: int): seq<int> {
    match ViewAt(g.views, pageno)
    case Inner(kids) => kids
    case LeafTable(cells) => if g.masters(pageno) then Onward(g.to, cells) else []
    case _ => []
  }

  /** The rows lead to pages of sqlite_master only where g says so. */
  ghost predicate InMasters(g: Graph, cells: seq<Cell>) {
    forall c | c in cells && c.outcome.Reported? && g.to(c.outcome.row).Target? &&
               g.to(c.outcome.row).kind == MasterKind :: g.masters(g.to(c.outcome.row).root)
  }

  /** Whatever is below a page of sqlite_master, or is said by one of its rows to be its root, is one. */
  ghost predicate Closed(g: Graph) {
    && (forall p, y | g.masters(p) && ViewAt(g.views, p).Inner? && y in ViewAt(g.views, p).kids :: g.masters(y))
    && forall p | g.masters(p) && ViewAt(g.views, p).LeafTable? :: InMasters(g, ViewAt(g.views, p).cells)
  }

  /** An interior page, or a page of sqlite_master with a row that leads on. */
  ghost predicate Opening(g: Graph, pageno: int) {
    ViewAt(g.views, pageno).Inner? || Below(g, pageno) != []
  }

  /** The walk goes down from the page, and no overflow chain can take its mark away. */
  ghost predicate Steady(g: Graph, pageno: int) {
    Opening(g, pageno) && !Reached(g.views, pageno)
  }

  /** The walk goes down from the page, and an overflow chain may take its mark away. */
  ghost predicate Loose(g: Graph, pageno: int) {
    Opening(g, pageno) && Reached(g.views, pageno)
  }

  lemma OpeningIsPage(g: Graph, pageno: int)
    requires Opening(g, pageno)
    ensures 1 <= pageno <= |g.views|
  {
  }

  function RankAt(rank: seq<nat>, pageno: int): nat {
    if 1 <= pageno <= |rank| then rank[pageno - 1] else 0
  }

  /** The pages that overflow chains run into form no circle among themselves: those from which the walk
      goes down can be given ranks below m that fall on the way. */
  ghost predicate Ranked(g: Graph, rank: seq<nat>, m: nat) {
    && (forall p | Loose(g, p) :: RankAt(rank, p) + 1 < m)
    && (forall p, y | Loose(g, p) && Loose(g, y) && y in Below(g, p) :: RankAt(rank, y) < RankAt(rank, p))
    && m > 0
  }

  /** The graph in which rows lead nowhere. */
  ghost function Plain(views: seq<PageView>): Graph {
    Graph(views, _ => Nowhere, _ => true)
  }

  /** No overflow chain runs into an interior page at all. */
  ghost predicate InnerSafe(views: seq<PageView>) {
    forall q | Reached(views, q) :: !ViewAt(views, q).Inner?
  }

  /** No overflow chain runs into a page of a B-tree. */
  ghost predicate Clean(views: seq<PageView>) {
    forall q | Reached(views, q) :: Dud(ViewAt(views, q))
  }

  /** Where no chain runs into an interior page, there is nothing to rank. */
  lemma SafeIsRanked(views: seq<PageView>)
    requires InnerSafe(views)
    ensures Ranked(Plain(views), [], 1)
  {
    hide Reached;
    var g := Plain(views);
    forall p ensures !Loose(g, p) {
      if ViewAt(views, p).LeafTable? { NoneOnward(g.to, ViewAt(views, p).cells); }
    }
  }

  /** The same for any graph, where no chain runs into a page of a B-tree. */
  lemma CleanIsRanked(g: Graph)
    requires Clean(g.views)
    ensures Ranked(g, [], 1)
  {
    hide Reached;
    forall p ensures !Loose(g, p) {
    }
  }

  /** What may still go on below a page before the walk comes to a steady one. */
  ghost function Weight(g: Graph, rank: seq<nat>, pageno: int): nat {
    if Loose(g, pageno) then RankAt(rank, pageno) + 1 else 0
  }

  /** The steady pages that were being checked still are; and of the interior ones, no others. */
  ghost predicate SteadyStay(g: Graph, a: State, b: State) {
    && (forall p | Steady(g, p) && StatusAt(a.status, p) == Checking :: StatusAt(b.status, p) == Checking)
    && forall p | Steady(g, p) && ViewAt(g.views, p).Inner? && StatusAt(b.status, p) == Checking ::
         StatusAt(a.status, p) == Checking
  }

  /** No page is being checked that was not before. */
  ghost predicate NoNew(a: State, b: State) {
    && |a.status| == |b.status|
    && forall p | 0 <= p < |a.status| && b.status[p] == Checking :: a.status[p] == Checking
  }

  /** The client did not cancel between the two states. */
  ghost predicate Uncancelled(cancels: set<nat>, a: State, b: State) {
    forall k | |a.log| <= k < |b.log| :: k !in cancels
  }

  /** Of the pages no chain runs into, the same are being checked in both states. */
  ghost predicate SameUnreached(views: seq<PageView>, a: State, b: State)
    requires |a.status| == |b.status| == |views|
  {
    forall p | 0 <= p < |views| && !Reached(views, p + 1) :: a.status[p] == Checking <==> b.status[p] == Checking
  }

  /** What a part of the walk does to the state. */
  ghost predicate Kept(g: Graph, cancels: set<nat>, a: State, b: State) {
    && |a.status| == |b.status| == |g.views| && SteadyStay(g, a, b) && a.log <= b.log
    && (forall p | 0 <= p < |g.views| && a.status[p] != Unchecked :: b.status[p] != Unchecked)
    && (Uncancelled(cancels, a, b) ==> NoNew(a, b) && SameUnreached(g.views, a, b))
  }

  lemma KeptTwice(g: Graph, cancels: set<nat>, a: State, b: State, c: State)
    requires Kept(g, cancels, a, b) && Kept(g, cancels, b, c)
    ensures Kept(g, cancels, a, c)
  {
    hide Reached, Steady;
  }

  lemma KeptSame(g: Graph, cancels: set<nat>, s: State)
    requires |s.status| == |g.views|
    ensures Kept(g, cancels, s, s)
  {
  }

  /** The steady pages that are not being checked. */
  ghost function FreeSteady(g: Graph, s: State): set<int> {
    set p | 1 <= p <= |g.views| && Steady(g, p) && StatusAt(s.status, p) != Checking
  }

  lemma FreeSteadyShrinks(g: Graph, s: State, pageno: int)
    requires |s.status| == |g.views| && Steady(g, pageno) && StatusAt(s.status, pageno) != Checking
    ensures |FreeSteady(g, Mark(s, pageno, Checking))| < |FreeSteady(g, s)|
  {
    OpeningIsPage(g, pageno);
    hide Reached, Steady;
    var a, b := FreeSteady(g, Mark(s, pageno, Checking)), FreeSteady(g, s);
    assert a == b - {pageno} && pageno in b;
  }

  /** The mark on another page makes no more pages free. */
  lemma FreeSteadyOther(g: Graph, s: State, pageno: int)
    requires |s.status| == |g.views| && !Steady(g, pageno)
    ensures FreeSteady(g, Mark(s, pageno, Checking)) == FreeSteady(g, s)
  {
    hide Reached, Steady;
  }

  lemma FreeSteadyLess(g: Graph, a: State, b: State)
    requires SteadyStay(g, a, b)
    ensures |FreeSteady(g, b)| <= |FreeSteady(g, a)|
  {
    hide Reached, Steady;
    Larger(FreeSteady(g, b), FreeSteady(g, a));
  }

  lemma Larger(few: set<int>, many: set<int>)
    requires few <= many
    ensures |few| <= |many|
  {
    assert many == few + (many - few);
  }

  lemma FreeSteadyBound(g: Graph, s: State)
    ensures |FreeSteady(g, s)| <= |g.views|
  {
    hide Reached, Steady;
    SizeBound(FreeSteady(g, s), |g.views|);
  }

  ghost function Upto(n: nat): (s: set<int>)
    ensures forall p :: p in s <==> 1 <= p <= n
  {
    if n == 0 then {} else Upto(n - 1) + {n}
  }

  lemma {:induction false} SizeBound(a: set<int>, n: nat)
    requires a <= Upto(n)
    ensures |a| <= n
    decreases n
  {
    if n > 0 {
      SizeBound(a - {n}, n - 1);
      assert n in a ==> |a - {n}| == |a| - 1;
      assert n !in a ==> a - {n} == a;
    }
  }

  /** n times m. */
  function Times(n: nat, m: nat): nat {
    if n == 0 then 0 else Times(n - 1, m) + m
  }

  lemma {:induction false} TimesGrows(a: nat, b: nat, m: nat)
    requires a <= b
    ensures Times(a, m) <= Times(b, m) && (a < b ==> Times(a, m) + m <= Times(b, m))
    decreases b - a
  {
    if a < b { TimesGrows(a, b - 1, m); }
  }

  /** How deep a walk can go in which every steady page is begun once, and below each at most m pages
      that are not steady follow one another. */
  ghost function Depths(g: Graph, s: State, m: nat): nat {
    Times(|FreeSteady(g, s)|, m)
  }

  lemma DepthsBound(g: Graph, s: State, m: nat)
    ensures Depths(g, s, m) <= Times(|g.views|, m)
  {
    FreeSteadyBound(g, s);
    TimesGrows(|FreeSteady(g, s)|, |g.views|, m);
  }

  lemma TouchKept(g: Graph, cancels: set<nat>, s: State, pageno: int)
    requires |s.status| == |g.views| && Reached(g.views, pageno)
    ensures Kept(g, cancels, s, Touch(g.views, s, pageno)) && Touch(g.views, s, pageno).log == s.log
  {
    hide Reached, Opening;
  }

  lemma {:induction false} TouchAllKept(g: Graph, cancels: set<nat>, s: State, pagenos: seq<int>)
    requires |s.status| == |g.views| && forall q | q in pagenos :: Reached(g.views, q)
    ensures Kept(g, cancels, s, TouchAll(g.views, s, pagenos)) && TouchAll(g.views, s, pagenos).log == s.log
    decreases |pagenos|
  {
    hide Reached, Touch, Kept;
    if pagenos == [] {
      KeptSame(g, cancels, s);
    } else {
      var s1 := Touch(g.views, s, pagenos[0]);
      TouchKept(g, cancels, s, pagenos[0]);
      KeptSize(g, cancels, s, s1);
      TouchAllKept(g, cancels, s1, pagenos[1..]);
      KeptTwice(g, cancels, s, s1, TouchAll(g.views, s, pagenos));
    }
  }

  lemma KeptSize(g: Graph, cancels: set<nat>, a: State, b: State)
    requires Kept(g, cancels, a, b)
    ensures |b.status| == |a.status| == |g.views| && a.log <= b.log
  {
  }

  /** A row is handed over. */
  lemma LogKept(g: Graph, cancels: set<nat>, s: State, row: TableRow)
    requires |s.status| == |g.views|
    ensures var s' := s.(log := s.log + [row]);
            Kept(g, cancels, s, s') && (|s.log| in cancels ==> !Uncancelled(cancels, s, s'))
  {
  }

  /** The overflow pages of a cell are touched, and its row is handed over. */
  lemma CellKept(g: Graph, cancels: set<nat>, cell: Cell, s: State)
    requires |s.status| == |g.views| && Reaching(g.views, [cell])
    ensures var s1 := TouchAll(g.views, s, cell.acquired);
            && Kept(g, cancels, s, s1) && s1.log == s.log
            && (cell.outcome.Reported? ==>
                  var s2 := s1.(log := s1.log + [cell.outcome.row]);
                  Kept(g, cancels, s, s2) && (|s.log| in cancels ==> !Uncancelled(cancels, s, s2)))
  {
    assert cell in [cell];
    hide Reached, Kept, TouchAll;
    TouchAllKept(g, cancels, s, cell.acquired);
    if cell.outcome.Reported? {
      var s1 := TouchAll(g.views, s, cell.acquired);
      KeptSize(g, cancels, s, s1);
      LogKept(g, cancels, s1, cell.outcome.row);
      KeptTwice(g, cancels, s, s1, s1.(log := s1.log + [cell.outcome.row]));
    }
  }

  lemma {:induction false} CellsKept(g: Graph, cancels: set<nat>, cells: seq<Cell>, s: State)
    requires |s.status| == |g.views| && Reaching(g.views, cells)
    ensures var (s', rc) := VisitCells(g.views, cancels, cells, s);
            Kept(g, cancels, s, s') && (rc == RcCancelled ==> !Uncancelled(cancels, s, s'))
    decreases |cells|
  {
    if cells == [] {
      KeptSame(g, cancels, s);
    } else {
      ReachingParts(g.views, cells);
      hide Reached, Kept, TouchAll, Reaching;
      CellKept(g, cancels, cells[0], s);
      if cells[0].outcome.Reported? && |s.log| !in cancels {
        var s1 := TouchAll(g.views, s, cells[0].acquired);
        var s2 := s1.(log := s1.log + [cells[0].outcome.row]);
        KeptSize(g, cancels, s, s2);
        CellsKept(g, cancels, cells[1..], s2);
        var (s', rc) := VisitCells(g.views, cancels, cells[1..], s2);
        KeptTwice(g, cancels, s, s2, s');
        LaterCancel(cancels, s, s2, s');
      }
    }
  }

  lemma ReachingParts(views: seq<PageView>, cells: seq<Cell>)
    requires Reaching(views, cells) && cells != []
    ensures Reaching(views, [cells[0]]) && Reaching(views, cells[1..])
  {
    hide Reached;
  }

  lemma LaterCancel(cancels: set<nat>, a: State, b: State, c: State)
    requires a.log <= b.log
    ensures !Uncancelled(cancels, b, c) ==> !Uncancelled(cancels, a, c)
  {
  }

  /** A page is begun, its content is walked, and it is ended. */
  lemma EndedKept(g: Graph, cancels: set<nat>, s: State, pageno: int, s2: State, rc: Rc)
    requires |s.status| == |g.views| && StatusAt(s.status, pageno) != Checking
    requires Kept(g, cancels, Mark(s, pageno, Checking), s2)
    requires rc == RcCancelled ==> ViewAt(g.views, pageno).LeafTable? && !Uncancelled(cancels, s, s2)
    ensures Kept(g, cancels, s, Ended(s2, pageno, rc))
    ensures 1 <= pageno <= |g.views| ==> Ended(s2, pageno, rc).status[pageno - 1] != Unchecked
  {
    hide Reached, Opening;
  }

  /** There is fuel for a walk from each of these pages. */
  ghost predicate FuelForAll(g: Graph, rank: seq<nat>, m: nat, pagenos: seq<int>, s: State, fuel: nat) {
    forall y | y in pagenos :: fuel > Depths(g, s, m) + Weight(g, rank, y)
  }

  /** A page has just been begun: there is fuel for what is below it. */
  lemma FuelIsLeft(g: Graph, rank: seq<nat>, m: nat, pageno: int, s: State, fuel: nat)
    requires Ranked(g, rank, m) && |s.status| == |g.views| && StatusAt(s.status, pageno) != Checking
    requires fuel > Depths(g, s, m) + Weight(g, rank, pageno)
    ensures FuelForAll(g, rank, m, Below(g, pageno), Mark(s, pageno, Checking), fuel - 1)
  {
    var s1 := Mark(s, pageno, Checking);
    forall y | y in Below(g, pageno) ensures fuel - 1 > Depths(g, s1, m) + Weight(g, rank, y) {
      WeightFalls(g, rank, m, pageno, y);
      hide Ranked, Reached, Weight, Below, Opening;
      if Steady(g, pageno) {
        FreeSteadyShrinks(g, s, pageno);
        TimesGrows(|FreeSteady(g, s1)|, |FreeSteady(g, s)|, m);
      } else {
        FreeSteadyOther(g, s, pageno);
      }
    }
  }

  lemma WeightFalls(g: Graph, rank: seq<nat>, m: nat, pageno: int, y: int)
    requires Ranked(g, rank, m) && y in Below(g, pageno)
    ensures Weight(g, rank, y) < m
    ensures !Steady(g, pageno) ==> Weight(g, rank, y) < Weight(g, rank, pageno)
  {
    hide Reached;
    assert Opening(g, pageno);
    hide Below;
  }

  lemma LeafReaches(views: seq<PageView>, pageno: int)
    requires ViewAt(views, pageno).LeafTable?
    ensures Reaching(views, ViewAt(views, pageno).cells)
  {
    forall c, q | c in ViewAt(views, pageno).cells && q in c.acquired ensures Reached(views, q) {
      assert views[pageno - 1] == ViewAt(views, pageno);
    }
  }

  lemma FirstHasFuel(g: Graph, rank: seq<nat>, m: nat, pagenos: seq<int>, s: State, fuel: nat)
    requires FuelForAll(g, rank, m, pagenos, s, fuel) && pagenos != []
    ensures fuel > Depths(g, s, m) + Weight(g, rank, pagenos[0])
  {
    assert pagenos[0] in pagenos;
  }

  lemma StillFuel(g: Graph, rank: seq<nat>, m: nat, cancels: set<nat>, pagenos: seq<int>, fewer: seq<int>,
                  s: State, s': State, fuel: nat)
    requires FuelForAll(g, rank, m, pagenos, s, fuel) && Kept(g, cancels, s, s')
    requires forall y | y in fewer :: y in pagenos
    ensures FuelForAll(g, rank, m, fewer, s', fuel)
  {
    hide Reached, Weight, Steady;
    FreeSteadyLess(g, s, s');
    TimesGrows(|FreeSteady(g, s')|, |FreeSteady(g, s)|, m);
  }

  /** The kind fits the page: only pages of sqlite_master are walked as such. */
  ghost predicate Fits(g: Graph, kind: Kind, pagenos: seq<int>) {
    kind == MasterKind ==> forall y | y in pagenos :: g.masters(y)
  }

  /** The walk halts, from a page of any kind, as long as the pages that overflow chains run into form no
      circle among themselves.  Every page from which the walk goes down, into which no chain runs, and
      which was being checked still is, and of the interior ones no other, however often the client
      cancels.  Without a cancellation no page is being checked that was not before, and of the pages no
      chain runs into the same ones are. */
  lemma {:induction false} DescendHalts(g: Graph, rank: seq<nat>, m: nat, cancels: set<nat>, kind: Kind,
                                        pageno: int, s: State, fuel: nat)
    requires Ranked(g, rank, m) && Closed(g) && |s.status| == |g.views| && Fits(g, kind, [pageno])
    requires fuel > Depths(g, s, m) + Weight(g, rank, pageno)
    ensures var w := Descend(g.views, cancels, g.to, kind, pageno, s, fuel);
            && w.Done? && Kept(g, cancels, s, w.s)
            && (w.rc == RcCancelled ==> !Uncancelled(cancels, s, w.s))
            && (1 <= pageno <= |g.views| ==> w.s.status[pageno - 1] != Unchecked)
    decreases fuel, 0
  {
    if pageno > |g.views| || StatusAt(s.status, pageno) == Checking {
      KeptSame(g, cancels, s);
    } else {
      FuelIsLeft(g, rank, m, pageno, s, fuel);
      assert pageno in [pageno];
      match ViewAt(g.views, pageno)
      case Inner(kids) =>
        hide Ranked, Reached, Depths, Weight, Kept, FuelForAll;
        InnerHalts(g, rank, m, cancels, kind, pageno, s, fuel);
      case LeafTable(cells) =>
        LeafReaches(g.views, pageno);
        hide Ranked, Reached, Depths, Weight, Kept, FuelForAll;
        LeafHalts(g, rank, m, cancels, kind, pageno, s, fuel);
      case _ =>
        hide Ranked, Reached, Depths, Weight, Kept;
        var s1 := Mark(s, pageno, Checking);
        KeptSame(g, cancels, s1);
        EndedKept(g, cancels, s, pageno, s1, Descend(g.views, cancels, g.to, kind, pageno, s, fuel).rc);
    }
  }

  lemma {:induction false} InnerHalts(g: Graph, rank: seq<nat>, m: nat, cancels: set<nat>, kind: Kind,
                                      pageno: int, s: State, fuel: nat)
    requires Ranked(g, rank, m) && Closed(g) && |s.status| == |g.views| && Fits(g, kind, [pageno]) && fuel > 0
    requires pageno <= |g.views| && StatusAt(s.status, pageno) != Checking && ViewAt(g.views, pageno).Inner?
    requires FuelForAll(g, rank, m, Below(g, pageno), Mark(s, pageno, Checking), fuel - 1)
    ensures var w := Descend(g.views, cancels, g.to, kind, pageno, s, fuel);
            && w.Done? && Kept(g, cancels, s, w.s) && w.rc != RcCancelled
            && (1 <= pageno <= |g.views| ==> w.s.status[pageno - 1] != Unchecked)
    decreases fuel - 1, |ViewAt(g.views, pageno).kids| + 2
  {
    var kids, s1 := ViewAt(g.views, pageno).kids, Mark(s, pageno, Checking);
    assert Fits(g, kind, kids) by { assert pageno in [pageno]; }
    hide Ranked, Reached, Kept, FuelForAll, Closed, Fits;
    KidsHalt(g, rank, m, cancels, kind, kids, s1, fuel - 1);
    var w := DescendKids(g.views, cancels, g.to, kind, kids, s1, fuel - 1);
    EndedKept(g, cancels, s, pageno, w.s, w.rc);
  }

  lemma {:induction false} LeafHalts(g: Graph, rank: seq<nat>, m: nat, cancels: set<nat>, kind: Kind,
                                     pageno: int, s: State, fuel: nat)
    requires Ranked(g, rank, m) && Closed(g) && |s.status| == |g.views| && Fits(g, kind, [pageno]) && fuel > 0
    requires pageno <= |g.views| && StatusAt(s.status, pageno) != Checking && ViewAt(g.views, pageno).LeafTable?
    requires FuelForAll(g, rank, m, Below(g, pageno), Mark(s, pageno, Checking), fuel - 1)
    requires Reaching(g.views, ViewAt(g.views, pageno).cells)
    ensures var w := Descend(g.views, cancels, g.to, kind, pageno, s, fuel);
            && w.Done? && Kept(g, cancels, s, w.s)
            && (w.rc == RcCancelled ==> !Uncancelled(cancels, s, w.s))
            && (1 <= pageno <= |g.views| ==> w.s.status[pageno - 1] != Unchecked)
    decreases fuel - 1, |ViewAt(g.views, pageno).cells| + 2
  {
    var cells, s1 := ViewAt(g.views, pageno).cells, Mark(s, pageno, Checking);
    assert pageno in [pageno];
    match kind
    case TableKind =>
      hide Ranked, Reached, Kept, FuelForAll, Closed, VisitCells;
      CellsKept(g, cancels, cells, s1);
      var (s2, rc) := VisitCells(g.views, cancels, cells, s1);
      EndedKept(g, cancels, s, pageno, s2, rc);
    case SystemKind =>
      hide Ranked, Reached, Kept, FuelForAll, Closed;
      KeptSame(g, cancels, s1);
      EndedKept(g, cancels, s, pageno, s1, RcOk);
    case MasterKind =>
      assert Below(g, pageno) == Onward(g.to, cells) && InMasters(g, cells);
      hide Ranked, Reached, Kept, FuelForAll, Closed, Onward, InMasters, DescendCells;
      CellsHalt(g, rank, m, cancels, cells, s1, fuel - 1);
      var w := DescendCells(g.views, cancels, g.to, cells, s1, fuel - 1);
      EndedKept(g, cancels, s, pageno, w.s, w.rc);
  }

  lemma {:induction false} KidsHalt(g: Graph, rank: seq<nat>, m: nat, cancels: set<nat>, kind: Kind,
                                    kids: seq<int>, s: State, fuel: nat)
    requires Ranked(g, rank, m) && Closed(g) && |s.status| == |g.views| && Fits(g, kind, kids)
    requires FuelForAll(g, rank, m, kids, s, fuel)
    ensures var w := DescendKids(g.views, cancels, g.to, kind, kids, s, fuel);
            w.Done? && w.rc == RcOk && Kept(g, cancels, s, w.s)
    decreases fuel, |kids| + 1
  {
    if kids == [] {
      KeptSame(g, cancels, s);
    } else {
      FirstHasFuel(g, rank, m, kids, s, fuel);
      assert Fits(g, kind, [kids[0]]) && Fits(g, kind, kids[1..]);
      hide Ranked, Reached, Kept, FuelForAll, Closed, Fits, Descend, Depths, Weight;
      DescendHalts(g, rank, m, cancels, kind, kids[0], s, fuel);
      var w := Descend(g.views, cancels, g.to, kind, kids[0], s, fuel);
      if w.rc != RcCancelled {
        KeptSize(g, cancels, s, w.s);
        StillFuel(g, rank, m, cancels, kids, kids[1..], s, w.s, fuel);
        KidsHalt(g, rank, m, cancels, kind, kids[1..], w.s, fuel);
        KeptTwice(g, cancels, s, w.s, DescendKids(g.views, cancels, g.to, kind, kids[1..], w.s, fuel).s);
      }
    }
  }

  lemma {:induction false} CellsHalt(g: Graph, rank: seq<nat>, m: nat, cancels: set<nat>,
                                     cells: seq<Cell>, s: State, fuel: nat)
    requires Ranked(g, rank, m) && Closed(g) && |s.status| == |g.views| && InMasters(g, cells)
    requires Reaching(g.views, cells) && FuelForAll(g, rank, m, Onward(g.to, cells), s, fuel)
    ensures var w := DescendCells(g.views, cancels, g.to, cells, s, fuel);
            w.Done? && Kept(g, cancels, s, w.s) && (w.rc == RcCancelled ==> !Uncancelled(cancels, s, w.s))
    decreases fuel, |cells| + 1
  {
    if cells == [] {
      KeptSame(g, cancels, s);
    } else {
      ReachingParts(g.views, cells);
      hide Ranked, Reached, Reaching, Kept, FuelForAll, Closed, TouchAll;
      CellKept(g, cancels, cells[0], s);
      if cells[0].outcome.Reported? && |s.log| !in cancels {
        var s1 := TouchAll(g.views, s, cells[0].acquired);
        var s2 := s1.(log := s1.log + [cells[0].outcome.row]);
        KeptSize(g, cancels, s, s2);
        StillFuel(g, rank, m, cancels, Onward(g.to, cells), Onward(g.to, cells), s, s2, fuel);
        RowHalts(g, rank, m, cancels, cells, s2, fuel);
        var s3 := AfterRow(g.views, cancels, g.to, cells[0].outcome.row, s2, fuel).s;
        KeptSize(g, cancels, s2, s3);
        KeptTwice(g, cancels, s, s2, s3);
        StillFuel(g, rank, m, cancels, Onward(g.to, cells), Onward(g.to, cells[1..]), s2, s3, fuel);
        assert InMasters(g, cells[1..]);
        hide InMasters, Onward;
        CellsHalt(g, rank, m, cancels, cells[1..], s3, fuel);
        var w := DescendCells(g.views, cancels, g.to, cells[1..], s3, fuel);
        KeptTwice(g, cancels, s, s3, w.s);
        LaterCancel(cancels, s, s3, w.s);
      }
    }
  }

  /** The walk a row leads to. */
  function AfterRow(views: seq<PageView>, cancels: set<nat>, to: TableRow -> Target, row: TableRow,
                    s: State, fuel: nat): Walk
  {
    match to(row)
    case Nowhere => Done(s, RcOk)
    case Target(kind, root) => Descend(views, cancels, to, kind, root, s, fuel)
  }

  lemma {:induction false} RowHalts(g: Graph, rank: seq<nat>, m: nat, cancels: set<nat>, cells: seq<Cell>,
                                    s: State, fuel: nat)
    requires Ranked(g, rank, m) && Closed(g) && |s.status| == |g.views| && InMasters(g, cells)
    requires cells != [] && cells[0].outcome.Reported? && FuelForAll(g, rank, m, Onward(g.to, cells), s, fuel)
    ensures var w := AfterRow(g.views, cancels, g.to, cells[0].outcome.row, s, fuel);
            w.Done? && Kept(g, cancels, s, w.s)
    decreases fuel, 1
  {
    match g.to(cells[0].outcome.row)
    case Nowhere => KeptSame(g, cancels, s);
    case Target(kind, root) =>
      assert Onward(g.to, cells)[0] == root;
      FirstHasFuel(g, rank, m, Onward(g.to, cells), s, fuel);
      assert Fits(g, kind, [root]) by { assert cells[0] in cells; }
      hide *;
      DescendHalts(g, rank, m, cancels, kind, root, s, fuel);
  }

  /** The same for a walk in which rows lead nowhere. */
  lemma VisitHalts(views: seq<PageView>, rank: seq<nat>, m: nat, cancels: set<nat>, pageno: int, s: State, fuel: nat)
    requires Ranked(Plain(views), rank, m) && |s.status| == |views|
    requires fuel > Depths(Plain(views), s, m) + Weight(Plain(views), rank, pageno)
    ensures var w := Visit(views, cancels, pageno, s, fuel);
            && w.Done? && Kept(Plain(views), cancels, s, w.s)
            && (w.rc == RcCancelled ==> !Uncancelled(cancels, s, w.s))
            && (1 <= pageno <= |views| ==> w.s.status[pageno - 1] != Unchecked)
  {
    var g := Plain(views);
    assert Closed(g) && Fits(g, TableKind, [pageno]);
    hide Ranked, Closed, Fits, Depths, Weight, Kept, Descend, Visit;
    DescendHalts(g, rank, m, cancels, TableKind, pageno, s, fuel);
    DescendIsVisit(views, cancels, g.to, TableKind, pageno, s, fuel);
  }

  /** An overflow chain that runs into a page being checked takes its mark away.  Then the walk may go
      on for ever: page 1 has the children 2 and 1, and a row of page 2 overflows into page 1. */
  lemma {:induction false} OverflowMayUndoTheMark(row: TableRow, s: State, fuel: nat)
    requires |s.status| == 2 && s.status[0] != Checking && s.status[1] != Checking
    ensures var views := [Inner([2, 1]), LeafTable([Cell([1], Reported(row))])];
            Visit(views, {}, 1, s, fuel) == OutOfFuel
    decreases fuel
  {
    var views := [Inner([2, 1]), LeafTable([Cell([1], Reported(row))])];
    if fuel > 0 {
      var s1 := Mark(s, 1, Checking);
      if fuel > 1 {
        var s2 := LeafTakesTheMark(row, s1, fuel - 1);
        OverflowMayUndoTheMark(row, s2, fuel - 1);
        assert [2, 1][1..] == [1];
        assert VisitKids(views, {}, [1], s2, fuel - 1) == OutOfFuel;
      }
      assert VisitKids(views, {}, [2, 1], s1, fuel - 1) == OutOfFuel;
    }
  }

  lemma LeafTakesTheMark(row: TableRow, s: State, fuel: nat) returns (s': State)
    requires |s.status| == 2 && s.status[1] != Checking && fuel > 0
    ensures |s'.status| == 2 && s'.status == [Checked, Checked]
    ensures var views := [Inner([2, 1]), LeafTable([Cell([1], Reported(row))])];
            Visit(views, {}, 2, s, fuel) == Done(s', RcOk)
  {
    var views := [Inner([2, 1]), LeafTable([Cell([1], Reported(row))])];
    var cells := [Cell([1], Reported(row))];
    var s1 := Mark(s, 2, Checking);
    assert [1][1..] == [] && cells[1..] == [];
    assert TouchAll(views, s1, [1]) == Touch(views, s1, 1);
    var s2 := Touch(views, s1, 1);
    s' := Mark(s2.(log := s2.log + [row]), 2, Checked);
    assert VisitCells(views, {}, cells, s1) == (s2.(log := s2.log + [row]), RcOk);
  }
}
