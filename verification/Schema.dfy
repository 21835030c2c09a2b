/** The walk that follows the rows of sqlite_master into the B-trees they name. */
module Schema {
  import opened Numbers
  import opened ValueList
  import opened Cells
  import opened Pages
  import opened Walker
  import opened Extraction
  import opened Cancellation
  import opened Recovery

  // ---------- what a row of sqlite_master says ----------

  /** The names of system tables, and of sqlite_master itself, start like this. */
  const SYSTEM_NAMES: seq<string> := ["sqlite_sequence", "sqlite_autoindex", "sqlite_stat"]
  const MASTER_NAME: string := "sqlite_master"

  predicate HasPrefix(text: seq<byte>, name: string) {
    |name| <= |text| && forall i | 0 <= i < |name| :: text[i] as int == name[i] as int
  }

  /** The kind a B-tree has before its name is known: sqliterkBtreeOpen. */
  function KindOfRoot(root: int): Kind { if root == 1 then MasterKind else TableKind }

  /** sqliterkBtreeSetMeta, for a B-tree said to be a table or an index, or something unknown. */
  function NamedKind(kind: Kind, name: seq<byte>): Kind {
    if exists i | 0 <= i < |SYSTEM_NAMES| :: HasPrefix(name, SYSTEM_NAMES[i]) then SystemKind
    else if HasPrefix(name, MASTER_NAME) then MasterKind
    else kind
  }

  function ValueAt(values: seq<Value>, i: nat): Value {
    if i < |values| then values[i] else Null
  }

  function RootOf(values: seq<Value>, convert: Value -> int): int {
    ToInt(IntegerOf(ValueAt(values, 3), convert))
  }

  /** The columns of sqlite_master are the type, the name, the name of the table, and the root page. */
  function TargetOf(views: seq<PageView>, convert: Value -> int, row: TableRow): Target {
    var values := row.values;
    if ValueAt(values, 0).Text? && ValueAt(values, 1).Text? && Opens(views, RootOf(values, convert)) then
      Target(NamedKind(KindOfRoot(RootOf(values, convert)), ValueAt(values, 1).text), RootOf(values, convert))
    else Nowhere
  }

  /** Every row is followed to where it leads. */
  function Followed(views: seq<PageView>, convert: Value -> int): TableRow -> Target {
    row => TargetOf(views, convert, row)
  }

  /** The text starts like this. */
  predicate Starts(text: seq<byte>, name: string) {
    |name| <= |text| && seq(|name|, i requires 0 <= i < |name| => text[i] as int as char) == name
  }

  /** Section 2.6 of the file format: the names of internal tables and indexes. */
  predicate SystemName(name: seq<byte>) {
    Starts(name, "sqlite_sequence") || Starts(name, "sqlite_autoindex") || Starts(name, "sqlite_stat")
  }

  lemma StartsIs(text: seq<byte>, name: string)
    ensures HasPrefix(text, name) <==> Starts(text, name)
  {
    if |name| <= |text| {
      var begin := seq(|name|, i requires 0 <= i < |name| => text[i] as int as char);
      if begin == name {
        forall i | 0 <= i < |name| ensures text[i] as int == name[i] as int { assert begin[i] == name[i]; }
      }
      if HasPrefix(text, name) {
        forall i | 0 <= i < |name| ensures begin[i] == name[i] { assert text[i] as int == name[i] as int; }
      }
    }
  }

  /** A row of sqlite_master with a type, a name and, in its fourth column, the number of a root page leads
      to that page if it can be opened; in a system table exactly if the name says so; and to sqlite_master
      itself only by its name or from page 1. */
  lemma TargetIs(views: seq<PageView>, convert: Value -> int, row: TableRow, name: seq<byte>, root: int)
    requires |row.values| >= 4 && row.values[0].Text? && row.values[1] == Text(name) && row.values[3] == Integer(root)
    requires -0x8000_0000 <= root < 0x8000_0000
    ensures Followed(views, convert)(row) ==
            if !Opens(views, root) then Nowhere
            else
              Target(if SystemName(name) then SystemKind
                     else if Starts(name, "sqlite_master") || root == 1 then MasterKind else TableKind, root)
  {
    StartsIs(name, "sqlite_sequence");
    StartsIs(name, "sqlite_autoindex");
    StartsIs(name, "sqlite_stat");
    StartsIs(name, "sqlite_master");
    hide HasPrefix, Starts;
    assert SYSTEM_NAMES[0] == "sqlite_sequence" && SYSTEM_NAMES[1] == "sqlite_autoindex";
    assert SYSTEM_NAMES[2] == "sqlite_stat";
  }

  /** A row without a type or a name leads nowhere. */
  lemma NamelessLeadsNowhere(views: seq<PageView>, convert: Value -> int, row: TableRow)
    requires |row.values| < 2 || !row.values[0].Text? || !row.values[1].Text?
    ensures Followed(views, convert)(row) == Nowhere
  {
  }

  // ---------- the order in which rows are handed over ----------

  /** The kinds of the B-trees that the rows of a page of sqlite_master lead to. */
  function KindsOnward(to: TableRow -> Target, cells: seq<Cell>): (ks: seq<Kind>)
    ensures |ks| == |Onward(to, cells)|
  {
    if cells == [] || !cells[0].outcome.Reported? then []
    else
      (match to(cells[0].outcome.row)
       case Nowhere => []
       case Target(kind, _) => [kind]) + KindsOnward(to, cells[1..])
  }

  /** The tree of the pages that the walk goes down to: the children of interior pages, and the roots that
      rows of sqlite_master lead to.  No page leads back to itself. */
  predicate UnfoldsAs(views: seq<PageView>, to: TableRow -> Target, kind: Kind, t: Tree)
    decreases t
  {
    && t.pageno !in NodesAll(t.kids)
    && match ViewAt(views, t.pageno)
       case Inner(kids) => Roots(t.kids) == kids && UnfoldAllAs(views, to, seq(|kids|, _ => kind), t.kids)
       case LeafTable(cells) =>
         if kind == MasterKind then
           Roots(t.kids) == Onward(to, cells) && UnfoldAllAs(views, to, KindsOnward(to, cells), t.kids)
         else t.kids == []
       case _ => t.kids == []
  }

  predicate UnfoldAllAs(views: seq<PageView>, to: TableRow -> Target, kinds: seq<Kind>, ts: seq<Tree>)
    decreases ts
  {
    |kinds| == |ts| &&
    (ts == [] || (UnfoldsAs(views, to, kinds[0], ts[0]) && UnfoldAllAs(views, to, kinds[1..], ts[1..])))
  }

  /** The rows handed over: of each leaf page of a table all; of a leaf page of sqlite_master each row, and
      right after it those of the B-tree it leads to; of system tables none. */
  function RowsAs(views: seq<PageView>, to: TableRow -> Target, kind: Kind, t: Tree): seq<TableRow>
    decreases t, 0
  {
    match ViewAt(views, t.pageno)
    case Inner(_) => RowsAllAs(views, to, kind, t.kids)
    case LeafTable(cells) =>
      (match kind
       case TableKind => CellRows(cells)
       case SystemKind => []
       case MasterKind => Interleaved(views, to, cells, t.kids))
    case _ => []
  }

  function RowsAllAs(views: seq<PageView>, to: TableRow -> Target, kind: Kind, ts: seq<Tree>): seq<TableRow>
    decreases ts, 0
  {
    if ts == [] then [] else RowsAs(views, to, kind, ts[0]) + RowsAllAs(views, to, kind, ts[1..])
  }

  function Interleaved(views: seq<PageView>, to: TableRow -> Target, cells: seq<Cell>, ts: seq<Tree>): seq<TableRow>
    decreases ts, |cells|
  {
    if cells == [] || !cells[0].outcome.Reported? then []
    else
      match to(cells[0].outcome.row)
      case Target(kind, _) =>
        if ts == [] then [cells[0].outcome.row]
        else [cells[0].outcome.row] + (RowsAs(views, to, kind, ts[0]) + Interleaved(views, to, cells[1..], ts[1..]))
      case Nowhere => [cells[0].outcome.row] + Interleaved(views, to, cells[1..], ts)
  }

  /** Where the pages form such a tree, this is exactly what the walk hands over, whatever is damaged, and
      wherever overflow chains lead. */
  lemma {:induction false} DescendInOrder(views: seq<PageView>, to: TableRow -> Target, kind: Kind, t: Tree,
                                          s: State, fuel: nat)
    requires UnfoldsAs(views, to, kind, t) && NoneChecking(s, Nodes(t)) && |s.status| == |views| && fuel >= Depth(t)
    ensures var w := Descend(views, {}, to, kind, t.pageno, s, fuel);
            w.Done? && w.s.log == s.log + RowsAs(views, to, kind, t) && NoNew(s, w.s) && w.rc != RcCancelled
    decreases t, 0
  {
    var s1 := Mark(s, t.pageno, Checking);
    BelowIsFree(t, s);
    hide NoneChecking, NoNew, Nodes, NodesAll, CellRows, VisitCells, TouchAll;
    match ViewAt(views, t.pageno)
    case Inner(kids) =>
      KidsInOrderAs(views, to, kind, t.kids, s1, fuel - 1);
      EndsInOrder(s, t.pageno, DescendKids(views, {}, to, kind, kids, s1, fuel - 1).s, RcOk);
    case LeafTable(cells) =>
      LeafInOrderAs(views, to, kind, t, s, fuel);
    case _ =>
      assert s.log + [] == s.log;
      NoNewSame(s);
      NoNewSame(s1);
      if t.pageno <= |views| {
        EndsInOrder(s, t.pageno, s1, Descend(views, {}, to, kind, t.pageno, s, fuel).rc);
      }
  }

  lemma {:induction false} LeafInOrderAs(views: seq<PageView>, to: TableRow -> Target, kind: Kind, t: Tree,
                                         s: State, fuel: nat)
    requires UnfoldsAs(views, to, kind, t) && ViewAt(views, t.pageno).LeafTable? && |s.status| == |views|
    requires NoneChecking(Mark(s, t.pageno, Checking), NodesAll(t.kids)) && StatusAt(s.status, t.pageno) != Checking
    requires fuel >= Depth(t)
    ensures var w := Descend(views, {}, to, kind, t.pageno, s, fuel);
            w.Done? && w.s.log == s.log + RowsAs(views, to, kind, t) && NoNew(s, w.s) && w.rc != RcCancelled
    decreases t.kids, |ViewAt(views, t.pageno).cells| + 1
  {
    var s1, cells := Mark(s, t.pageno, Checking), ViewAt(views, t.pageno).cells;
    hide NoneChecking, NoNew, Nodes, NodesAll, CellRows, VisitCells, TouchAll;
    match kind
    case TableKind =>
      CellsInOrder(views, cells, s1);
      var (s2, rc) := VisitCells(views, {}, cells, s1);
      EndsInOrder(s, t.pageno, s2, rc);
    case SystemKind =>
      assert s.log + [] == s.log;
      NoNewSame(s1);
      EndsInOrder(s, t.pageno, s1, RcOk);
    case MasterKind =>
      RowsInOrderAs(views, to, cells, t.kids, s1, fuel - 1);
      var w := DescendCells(views, {}, to, cells, s1, fuel - 1);
      EndsInOrder(s, t.pageno, w.s, w.rc);
  }

  lemma BelowIsFree(t: Tree, s: State)
    requires NoneChecking(s, Nodes(t)) && t.pageno !in NodesAll(t.kids)
    ensures StatusAt(s.status, t.pageno) != Checking
    ensures NoneChecking(Mark(s, t.pageno, Checking), NodesAll(t.kids))
  {
    assert t.pageno in Nodes(t);
  }

  lemma NoNewSame(s: State)
    ensures NoNew(s, s)
  {
  }

  /** A page that was not being checked is begun, and ended well or badly. */
  lemma EndsInOrder(s: State, pageno: int, s2: State, rc: Rc)
    requires StatusAt(s.status, pageno) != Checking && NoNew(Mark(s, pageno, Checking), s2) && rc != RcCancelled
    ensures NoNew(s, Ended(s2, pageno, rc)) && Ended(s2, pageno, rc).log == s2.log
  {
  }

  lemma {:induction false} KidsInOrderAs(views: seq<PageView>, to: TableRow -> Target, kind: Kind, ts: seq<Tree>,
                                         s: State, fuel: nat)
    requires UnfoldAllAs(views, to, seq(|ts|, _ => kind), ts) && NoneChecking(s, NodesAll(ts))
    requires |s.status| == |views| && fuel >= DepthAll(ts)
    ensures var w := DescendKids(views, {}, to, kind, Roots(ts), s, fuel);
            w.Done? && w.s.log == s.log + RowsAllAs(views, to, kind, ts) && NoNew(s, w.s) && w.rc == RcOk
    decreases ts, 0
  {
    if ts == [] {
      assert s.log + [] == s.log;
    } else {
      FirstAs(views, to, kind, ts, s, fuel);
      DescendInOrder(views, to, kind, ts[0], s, fuel);
      var w := Descend(views, {}, to, kind, ts[0].pageno, s, fuel);
      hide *;
      NoneCheckingStays(s, w.s, NodesAll(ts[1..]));
      KidsInOrderAs(views, to, kind, ts[1..], w.s, fuel);
      NoNewTwice(s, w.s, DescendKids(views, {}, to, kind, Roots(ts[1..]), w.s, fuel).s);
      RegroupTwo(s.log, RowsAs(views, to, kind, ts[0]), RowsAllAs(views, to, kind, ts[1..]));
    }
  }

  lemma FirstAs(views: seq<PageView>, to: TableRow -> Target, kind: Kind, ts: seq<Tree>, s: State, fuel: nat)
    requires UnfoldAllAs(views, to, seq(|ts|, _ => kind), ts) && ts != [] && NoneChecking(s, NodesAll(ts))
    requires fuel >= DepthAll(ts)
    ensures UnfoldsAs(views, to, kind, ts[0]) && UnfoldAllAs(views, to, seq(|ts[1..]|, _ => kind), ts[1..])
    ensures NoneChecking(s, Nodes(ts[0])) && NoneChecking(s, NodesAll(ts[1..]))
    ensures fuel >= Depth(ts[0]) && fuel >= DepthAll(ts[1..])
    ensures RowsAllAs(views, to, kind, ts) == RowsAs(views, to, kind, ts[0]) + RowsAllAs(views, to, kind, ts[1..])
    ensures var w := Descend(views, {}, to, kind, ts[0].pageno, s, fuel);
            w.Done? && w.rc != RcCancelled ==>
              DescendKids(views, {}, to, kind, Roots(ts), s, fuel) ==
              DescendKids(views, {}, to, kind, Roots(ts[1..]), w.s, fuel)
  {
    hide Descend, RowsAs, UnfoldsAs;
    var kinds := seq(|ts|, _ => kind);
    assert kinds[0] == kind && kinds[1..] == seq(|ts[1..]|, _ => kind);
    assert Roots(ts)[1..] == Roots(ts[1..]);
  }

  lemma {:induction false} RowsInOrderAs(views: seq<PageView>, to: TableRow -> Target, cells: seq<Cell>,
                                         ts: seq<Tree>, s: State, fuel: nat)
    requires Roots(ts) == Onward(to, cells) && UnfoldAllAs(views, to, KindsOnward(to, cells), ts)
    requires NoneChecking(s, NodesAll(ts)) && |s.status| == |views| && fuel >= DepthAll(ts)
    ensures var w := DescendCells(views, {}, to, cells, s, fuel);
            w.Done? && w.s.log == s.log + Interleaved(views, to, cells, ts) && NoNew(s, w.s) && w.rc != RcCancelled
    decreases ts, |cells|
  {
    hide *;
    if cells == [] || !cells[0].outcome.Reported? {
      NoRow(views, to, cells, ts, s, fuel);
    } else {
      var row, s2 := cells[0].outcome.row, RowState(views, cells[0], s);
      RowStep(views, to, cells, s, fuel);
      match to(row)
      case Nowhere =>
        NextRow(views, to, cells, ts);
        NoneCheckingStays(s, s2, NodesAll(ts));
        RowsInOrderAs(views, to, cells[1..], ts, s2, fuel);
        NoNewTwice(s, s2, DescendCells(views, {}, to, cells[1..], s2, fuel).s);
        RegroupTwo(s.log, [row], Interleaved(views, to, cells[1..], ts));
      case Target(kind, root) =>
        FirstRow(views, to, cells, ts, s, fuel);
        InterleavedInOrder(views, to, cells, ts, s, s2, fuel);
        RegroupTwo(s.log, [row], RowsAs(views, to, kind, ts[0]) + Interleaved(views, to, cells[1..], ts[1..]));
    }
  }

  /** The overflow pages of a cell have been touched, and its row handed over. */
  function RowState(views: seq<PageView>, cell: Cell, s: State): State
    requires cell.outcome.Reported?
  {
    var s1 := TouchAll(views, s, cell.acquired);
    s1.(log := s1.log + [cell.outcome.row])
  }

  lemma NoRow(views: seq<PageView>, to: TableRow -> Target, cells: seq<Cell>, ts: seq<Tree>, s: State, fuel: nat)
    requires cells == [] || !cells[0].outcome.Reported?
    ensures var w := DescendCells(views, {}, to, cells, s, fuel);
            w.Done? && w.s.log == s.log + Interleaved(views, to, cells, ts) && NoNew(s, w.s) && w.rc != RcCancelled
  {
    assert s.log + [] == s.log;
    if cells != [] { TouchAllNoNew(views, s, cells[0].acquired); }
  }

  lemma RowStep(views: seq<PageView>, to: TableRow -> Target, cells: seq<Cell>, s: State, fuel: nat)
    requires cells != [] && cells[0].outcome.Reported? && |s.status| == |views|
    ensures var s2, row := RowState(views, cells[0], s), cells[0].outcome.row;
            && NoNew(s, s2) && |s2.status| == |views| && s2.log == s.log + [row]
            && DescendCells(views, {}, to, cells, s, fuel) ==
               match to(row)
               case Nowhere => DescendCells(views, {}, to, cells[1..], s2, fuel)
               case Target(kind, root) =>
                 var w := Descend(views, {}, to, kind, root, s2, fuel);
                 if w.Done? then DescendCells(views, {}, to, cells[1..], w.s, fuel) else OutOfFuel
  {
    TouchAllNoNew(views, s, cells[0].acquired);
    hide TouchAll, Descend;
  }

  /** A row that leads nowhere. */
  lemma NextRow(views: seq<PageView>, to: TableRow -> Target, cells: seq<Cell>, ts: seq<Tree>)
    requires cells != [] && cells[0].outcome.Reported? && to(cells[0].outcome.row) == Nowhere
    ensures Onward(to, cells) == Onward(to, cells[1..]) && KindsOnward(to, cells) == KindsOnward(to, cells[1..])
    ensures Interleaved(views, to, cells, ts) == [cells[0].outcome.row] + Interleaved(views, to, cells[1..], ts)
  {
    assert [] + Onward(to, cells[1..]) == Onward(to, cells[1..]);
    assert [] + KindsOnward(to, cells[1..]) == KindsOnward(to, cells[1..]);
  }

  /** A row that leads on, and the first tree. */
  lemma FirstRow(views: seq<PageView>, to: TableRow -> Target, cells: seq<Cell>, ts: seq<Tree>, s: State, fuel: nat)
    requires Roots(ts) == Onward(to, cells) && UnfoldAllAs(views, to, KindsOnward(to, cells), ts)
    requires cells != [] && cells[0].outcome.Reported? && to(cells[0].outcome.row).Target?
    requires NoneChecking(s, NodesAll(ts)) && fuel >= DepthAll(ts)
    ensures var kind, row := to(cells[0].outcome.row).kind, cells[0].outcome.row;
            && ts != [] && ts[0].pageno == to(row).root && UnfoldsAs(views, to, kind, ts[0])
            && Interleaved(views, to, cells, ts) ==
               [row] + (RowsAs(views, to, kind, ts[0]) + Interleaved(views, to, cells[1..], ts[1..]))
    ensures Roots(ts[1..]) == Onward(to, cells[1..])
    ensures UnfoldAllAs(views, to, KindsOnward(to, cells[1..]), ts[1..])
    ensures NoneChecking(s, Nodes(ts[0])) && NoneChecking(s, NodesAll(ts[1..]))
    ensures fuel >= Depth(ts[0]) && fuel >= DepthAll(ts[1..])
  {
    hide RowsAs, UnfoldsAs;
    assert Onward(to, cells) == [to(cells[0].outcome.row).root] + Onward(to, cells[1..]);
    assert Roots(ts)[0] == ts[0].pageno && Roots(ts)[1..] == Roots(ts[1..]);
    assert KindsOnward(to, cells) == [to(cells[0].outcome.row).kind] + KindsOnward(to, cells[1..]);
    assert KindsOnward(to, cells)[1..] == KindsOnward(to, cells[1..]);
  }

  lemma {:induction false} InterleavedInOrder(views: seq<PageView>, to: TableRow -> Target, cells: seq<Cell>,
                                           ts: seq<Tree>, s: State, s2: State, fuel: nat)
    requires cells != [] && cells[0].outcome.Reported? && to(cells[0].outcome.row).Target? && ts != []
    requires UnfoldsAs(views, to, to(cells[0].outcome.row).kind, ts[0]) && ts[0].pageno == to(cells[0].outcome.row).root
    requires Roots(ts[1..]) == Onward(to, cells[1..])
    requires UnfoldAllAs(views, to, KindsOnward(to, cells[1..]), ts[1..])
    requires NoneChecking(s, Nodes(ts[0])) && NoneChecking(s, NodesAll(ts[1..])) && |s.status| == |views|
    requires fuel >= Depth(ts[0]) && fuel >= DepthAll(ts[1..])
    requires NoNew(s, s2) && |s2.status| == |views|
    ensures var kind := to(cells[0].outcome.row).kind;
            var w := Descend(views, {}, to, kind, ts[0].pageno, s2, fuel);
            && w.Done?
            && var w' := DescendCells(views, {}, to, cells[1..], w.s, fuel);
               && w'.Done? && w'.rc != RcCancelled && NoNew(s, w'.s)
               && w'.s.log == s2.log + (RowsAs(views, to, kind, ts[0]) + Interleaved(views, to, cells[1..], ts[1..]))
    decreases ts, |cells| - 1
  {
    var kind := to(cells[0].outcome.row).kind;
    hide *;
    NoneCheckingStays(s, s2, Nodes(ts[0]));
    NoneCheckingStays(s, s2, NodesAll(ts[1..]));
    DescendInOrder(views, to, kind, ts[0], s2, fuel);
    var w := Descend(views, {}, to, kind, ts[0].pageno, s2, fuel);
    NoNewTwice(s, s2, w.s);
    NoneCheckingStays(s2, w.s, NodesAll(ts[1..]));
    RowsInOrderAs(views, to, cells[1..], ts[1..], w.s, fuel);
    NoNewTwice(s, w.s, DescendCells(views, {}, to, cells[1..], w.s, fuel).s);
    RegroupTwo(s2.log, RowsAs(views, to, kind, ts[0]), Interleaved(views, to, cells[1..], ts[1..]));
  }

  /** The tree of a table is such a tree too, with the same rows, or none in a system table. */
  lemma {:induction false} TableUnfoldsAs(views: seq<PageView>, to: TableRow -> Target, kind: Kind, t: Tree)
    requires Unfolds(views, t) && kind != MasterKind
    ensures UnfoldsAs(views, to, kind, t)
    ensures RowsAs(views, to, kind, t) == if kind == TableKind then Rows(views, t) else []
    decreases t
  {
    NotBelowItself(views, t);
    if ViewAt(views, t.pageno).Inner? {
      TablesUnfoldAs(views, to, kind, t.kids);
    }
  }

  lemma {:induction false} TablesUnfoldAs(views: seq<PageView>, to: TableRow -> Target, kind: Kind, ts: seq<Tree>)
    requires UnfoldsAll(views, ts) && kind != MasterKind
    ensures UnfoldAllAs(views, to, seq(|ts|, _ => kind), ts)
    ensures RowsAllAs(views, to, kind, ts) == if kind == TableKind then RowsAll(views, ts) else []
    decreases ts
  {
    if ts != [] {
      TableUnfoldsAs(views, to, kind, ts[0]);
      TablesUnfoldAs(views, to, kind, ts[1..]);
      var kinds := seq(|ts|, _ => kind);
      assert kinds[0] == kind && kinds[1..] == seq(|ts[1..]|, _ => kind);
    }
  }

  // ---------- a whole run ----------

  /** What has been begun stays begun. */
  ghost predicate Begun(a: State, b: State) {
    |a.status| == |b.status| && forall p | StatusAt(a.status, p) != Unchecked :: StatusAt(b.status, p) != Unchecked
  }

  ghost predicate AllBegun(s: State, pagenos: set<int>) {
    forall p | p in pagenos :: StatusAt(s.status, p) != Unchecked
  }

  lemma BegunTwice(a: State, b: State, c: State, pagenos: set<int>)
    requires Begun(a, b) && Begun(b, c) && AllBegun(b, pagenos)
    ensures Begun(a, c) && AllBegun(c, pagenos)
  {
  }

  lemma BegunBoth(s: State, few: set<int>, more: set<int>, all: set<int>)
    requires AllBegun(s, few) && AllBegun(s, more) && all == few + more
    ensures AllBegun(s, all)
  {
  }

  lemma EndsBegun(s: State, pageno: int, s2: State, rc: Rc, pagenos: set<int>)
    requires Begun(Mark(s, pageno, Checking), s2) && AllBegun(s2, pagenos)
    ensures Begun(s, Ended(s2, pageno, rc)) && AllBegun(Ended(s2, pageno, rc), {pageno} + pagenos)
  {
    var s1, s3 := Mark(s, pageno, Checking), Ended(s2, pageno, rc);
    assert StatusAt(s1.status, pageno) != Unchecked && StatusAt(s2.status, pageno) != Unchecked;
    forall p | StatusAt(s.status, p) != Unchecked ensures StatusAt(s3.status, p) != Unchecked {
      assert StatusAt(s1.status, p) != Unchecked && StatusAt(s2.status, p) != Unchecked;
    }
    forall p | p in pagenos ensures StatusAt(s3.status, p) != Unchecked {
      assert StatusAt(s2.status, p) != Unchecked;
    }
  }

  lemma {:induction false} TouchAllBegun(views: seq<PageView>, s: State, pagenos: seq<int>)
    ensures Begun(s, TouchAll(views, s, pagenos))
    decreases |pagenos|
  {
    if pagenos != [] { TouchAllBegun(views, Touch(views, s, pagenos[0]), pagenos[1..]); }
  }

  lemma {:induction false} CellsBegun(views: seq<PageView>, cells: seq<Cell>, s: State)
    ensures Begun(s, VisitCells(views, {}, cells, s).0)
    decreases |cells|
  {
    if cells != [] {
      TouchAllBegun(views, s, cells[0].acquired);
      if cells[0].outcome.Reported? { CellsBegun(views, cells[1..], RowState(views, cells[0], s)); }
    }
  }

  /** Afterwards every page of the tree has been begun. */
  lemma {:induction false} DescendBegins(views: seq<PageView>, to: TableRow -> Target, kind: Kind, t: Tree,
                                         s: State, fuel: nat)
    requires UnfoldsAs(views, to, kind, t) && NoneChecking(s, Nodes(t)) && |s.status| == |views| && fuel >= Depth(t)
    ensures var w := Descend(views, {}, to, kind, t.pageno, s, fuel);
            w.Done? && Begun(s, w.s) && AllBegun(w.s, Nodes(t))
    decreases t, 0
  {
    var s1 := Mark(s, t.pageno, Checking);
    BelowIsFree(t, s);
    DescendInOrder(views, to, kind, t, s, fuel);
    var w := Descend(views, {}, to, kind, t.pageno, s, fuel);
    assert Nodes(t) == {t.pageno} + NodesAll(t.kids);
    hide NoneChecking, NoNew, Nodes, NodesAll, Begun, AllBegun, VisitCells;
    match ViewAt(views, t.pageno)
    case Inner(kids) =>
      KidsBegin(views, to, kind, t.kids, s1, fuel - 1);
      EndsBegun(s, t.pageno, DescendKids(views, {}, to, kind, kids, s1, fuel - 1).s, w.rc, NodesAll(t.kids));
    case LeafTable(cells) =>
      LeafBegins(views, to, kind, t, s, fuel);
    case _ =>
      NoneBegun(s1, t.kids);
      EndsBegun(s, t.pageno, s1, w.rc, NodesAll(t.kids));
      if t.pageno > |views| { NoSuchPage(s, t.pageno, t.kids); }
  }

  lemma NoneBegun(s: State, ts: seq<Tree>)
    requires ts == []
    ensures Begun(s, s) && AllBegun(s, NodesAll(ts))
  {
  }

  lemma NoSuchPage(s: State, pageno: int, ts: seq<Tree>)
    requires pageno > |s.status| && ts == []
    ensures Begun(s, s) && AllBegun(s, {pageno} + NodesAll(ts))
  {
  }

  lemma {:induction false} LeafBegins(views: seq<PageView>, to: TableRow -> Target, kind: Kind, t: Tree,
                                      s: State, fuel: nat)
    requires UnfoldsAs(views, to, kind, t) && ViewAt(views, t.pageno).LeafTable? && |s.status| == |views|
    requires NoneChecking(Mark(s, t.pageno, Checking), NodesAll(t.kids)) && StatusAt(s.status, t.pageno) != Checking
    requires fuel >= Depth(t)
    ensures var w := Descend(views, {}, to, kind, t.pageno, s, fuel);
            w.Done? && Begun(s, w.s) && AllBegun(w.s, {t.pageno} + NodesAll(t.kids))
    decreases t.kids, |ViewAt(views, t.pageno).cells| + 1
  {
    var s1, cells := Mark(s, t.pageno, Checking), ViewAt(views, t.pageno).cells;
    match kind
    case TableKind =>
      CellsBegun(views, cells, s1);
      var (s2, rc) := VisitCells(views, {}, cells, s1);
      NoneBegun(s2, t.kids);
      hide NoneChecking, Begun, AllBegun, VisitCells;
      EndsBegun(s, t.pageno, s2, rc, NodesAll(t.kids));
    case SystemKind =>
      NoneBegun(s1, t.kids);
      hide NoneChecking, Begun, AllBegun;
      EndsBegun(s, t.pageno, s1, RcOk, NodesAll(t.kids));
    case MasterKind =>
      hide NoneChecking, Begun, AllBegun, VisitCells;
      RowsBegin(views, to, cells, t.kids, s1, fuel - 1);
      var w := DescendCells(views, {}, to, cells, s1, fuel - 1);
      EndsBegun(s, t.pageno, w.s, w.rc, NodesAll(t.kids));
  }

  lemma {:induction false} KidsBegin(views: seq<PageView>, to: TableRow -> Target, kind: Kind, ts: seq<Tree>,
                                     s: State, fuel: nat)
    requires UnfoldAllAs(views, to, seq(|ts|, _ => kind), ts) && NoneChecking(s, NodesAll(ts))
    requires |s.status| == |views| && fuel >= DepthAll(ts)
    ensures var w := DescendKids(views, {}, to, kind, Roots(ts), s, fuel);
            w.Done? && Begun(s, w.s) && AllBegun(w.s, NodesAll(ts))
    decreases ts, 0
  {
    if ts == [] {
    } else {
      FirstAs(views, to, kind, ts, s, fuel);
      NodesOfMore(ts);
      hide *;
      DescendInOrder(views, to, kind, ts[0], s, fuel);
      DescendBegins(views, to, kind, ts[0], s, fuel);
      var w := Descend(views, {}, to, kind, ts[0].pageno, s, fuel);
      NoneCheckingStays(s, w.s, NodesAll(ts[1..]));
      NoNewSize(s, w.s);
      KidsBegin(views, to, kind, ts[1..], w.s, fuel);
      var s2 := DescendKids(views, {}, to, kind, Roots(ts[1..]), w.s, fuel).s;
      BegunTwice(s, w.s, s2, Nodes(ts[0]));
      BegunBoth(s2, Nodes(ts[0]), NodesAll(ts[1..]), NodesAll(ts));
    }
  }

  lemma NodesOfMore(ts: seq<Tree>)
    requires ts != []
    ensures NodesAll(ts) == Nodes(ts[0]) + NodesAll(ts[1..])
  {
  }

  lemma NoNewSize(a: State, b: State)
    requires NoNew(a, b)
    ensures |b.status| == |a.status|
  {
  }

  lemma {:induction false} RowsBegin(views: seq<PageView>, to: TableRow -> Target, cells: seq<Cell>,
                                     ts: seq<Tree>, s: State, fuel: nat)
    requires Roots(ts) == Onward(to, cells) && UnfoldAllAs(views, to, KindsOnward(to, cells), ts)
    requires NoneChecking(s, NodesAll(ts)) && |s.status| == |views| && fuel >= DepthAll(ts)
    ensures var w := DescendCells(views, {}, to, cells, s, fuel);
            w.Done? && Begun(s, w.s) && AllBegun(w.s, NodesAll(ts))
    decreases ts, |cells|
  {
    hide *;
    if cells == [] || !cells[0].outcome.Reported? {
      LastBegun(views, to, cells, ts, s, fuel);
    } else {
      var row, s2 := cells[0].outcome.row, RowState(views, cells[0], s);
      RowStep(views, to, cells, s, fuel);
      RowBegun(views, cells[0], s);
      NoneCheckingStays(s, s2, NodesAll(ts));
      match to(row)
      case Nowhere =>
        NextRow(views, to, cells, ts);
        RowsBegin(views, to, cells[1..], ts, s2, fuel);
        BegunTwice(s, s2, DescendCells(views, {}, to, cells[1..], s2, fuel).s, {});
      case Target(kind, root) =>
        FirstRow(views, to, cells, ts, s2, fuel);
        NodesOfMore(ts);
        DescendInOrder(views, to, kind, ts[0], s2, fuel);
        DescendBegins(views, to, kind, ts[0], s2, fuel);
        var w := Descend(views, {}, to, kind, root, s2, fuel);
        NoneCheckingStays(s2, w.s, NodesAll(ts[1..]));
        NoNewSize(s2, w.s);
        RowsBegin(views, to, cells[1..], ts[1..], w.s, fuel);
        var s3 := DescendCells(views, {}, to, cells[1..], w.s, fuel).s;
        BegunTwice(s2, w.s, s3, Nodes(ts[0]));
        BegunTwice(s, s2, s3, {});
        BegunBoth(s3, Nodes(ts[0]), NodesAll(ts[1..]), NodesAll(ts));
    }
  }

  lemma LastBegun(views: seq<PageView>, to: TableRow -> Target, cells: seq<Cell>, ts: seq<Tree>, s: State, fuel: nat)
    requires (cells == [] || !cells[0].outcome.Reported?) && Roots(ts) == Onward(to, cells)
    ensures var w := DescendCells(views, {}, to, cells, s, fuel);
            w.Done? && Begun(s, w.s) && AllBegun(w.s, NodesAll(ts))
  {
    assert |Roots(ts)| == 0;
    if cells != [] { TouchAllBegun(views, s, cells[0].acquired); }
  }

  lemma RowBegun(views: seq<PageView>, cell: Cell, s: State)
    requires cell.outcome.Reported?
    ensures Begun(s, RowState(views, cell, s)) && AllBegun(RowState(views, cell, s), {})
  {
    TouchAllBegun(views, s, cell.acquired);
  }

  /** Nothing is left for the rest of a run when every page that opens has been begun. */
  lemma {:induction false} NothingLeft(views: seq<PageView>, to: TableRow -> Target, i: nat, s: State, fuel: nat)
    requires forall p | i < p <= |views| && Opens(views, p) :: StatusAt(s.status, p) != Unchecked
    ensures Run(views, {}, to, i, s, fuel) == Done(s, RcOk)
    decreases |views| - i
  {
    hide Opens, StatusAt, Descend;
    if i < |views| { NothingLeft(views, to, i + 1, s, fuel); }
  }

  /** A run over an intact database, in which every page that can be opened belongs to the tree of
      sqlite_master and the B-trees its rows lead to: the rows of that tree are handed over, and nothing
      else. */
  lemma WholeDatabase(views: seq<PageView>, to: TableRow -> Target, t: Tree, fuel: nat)
    requires UnfoldsAs(views, to, MasterKind, t) && t.pageno == 1 && Opens(views, 1) && fuel >= Depth(t)
    requires forall p | 1 <= p <= |views| && Opens(views, p) :: p in Nodes(t)
    ensures var w := Run(views, {}, to, 0, Fresh(|views|), fuel);
            w.Done? && w.s.log == RowsAs(views, to, MasterKind, t)
  {
    var s := Fresh(|views|);
    assert |views| > 0 && NoneChecking(s, Nodes(t)) && StatusAt(s.status, 1) == Unchecked;
    DescendInOrder(views, to, MasterKind, t, s, fuel);
    DescendBegins(views, to, MasterKind, t, s, fuel);
    var w := Descend(views, {}, to, MasterKind, 1, s, fuel);
    hide Opens, Descend, RowsAs, Nodes, UnfoldsAs;
    assert RunOne(views, {}, to, 1, s, fuel) == w;
    NothingLeft(views, to, 1, w.s, fuel);
    assert [] + RowsAs(views, to, MasterKind, t) == RowsAs(views, to, MasterKind, t);
  }
}
