/** Which rows the walk hands to the client, and in which order. */
module Extraction {
  import opened Cells
  import opened Pages
  import opened Walker

  // ---------- one leaf page ----------

  /** The rows of a leaf page, up to the first cell that cannot be read. */
  function CellRows(cells: seq<Cell>): seq<TableRow> {
    if cells == [] || !cells[0].outcome.Reported? then []
    else [cells[0].outcome.row] + CellRows(cells[1..])
  }

  lemma {:induction false} TouchAllNoNew(views: seq<PageView>, s: State, pagenos: seq<int>)
    ensures NoNew(s, TouchAll(views, s, pagenos)) && TouchAll(views, s, pagenos).log == s.log
    decreases |pagenos|
  {
    if pagenos != [] {
      TouchAllNoNew(views, Touch(views, s, pagenos[0]), pagenos[1..]);
    }
  }

  lemma {:induction false} CellsInOrder(views: seq<PageView>, cells: seq<Cell>, s: State)
    ensures var (s', rc) := VisitCells(views, {}, cells, s);
            NoNew(s, s') && s'.log == s.log + CellRows(cells) && rc != RcCancelled
    decreases |cells|
  {
    if cells == [] {
      assert s.log + [] == s.log;
    } else {
      var s1 := TouchAll(views, s, cells[0].acquired);
      TouchAllNoNew(views, s, cells[0].acquired);
      match cells[0].outcome
      case Reported(row) =>
        var s2 := s1.(log := s1.log + [row]);
        CellsInOrder(views, cells[1..], s2);
        assert s.log + [row] + CellRows(cells[1..]) == s.log + ([row] + CellRows(cells[1..]));
      case _ => assert s.log + [] == s.log;
    }
  }

  // ---------- a tree of pages ----------

  /** The pages below a page, as a finite tree.  Pages that lead in a circle have no such tree. */
  datatype Tree = Tree(pageno: int, kids: seq<Tree>)

  function Roots(ts: seq<Tree>): (ps: seq<int>)
    ensures |ps| == |ts|
  {
    if ts == [] then [] else [ts[0].pageno] + Roots(ts[1..])
  }

  predicate Unfolds(views: seq<PageView>, t: Tree)
    decreases t
  {
    match ViewAt(views, t.pageno)
    case Inner(kids) => Roots(t.kids) == kids && UnfoldsAll(views, t.kids)
    case _ => t.kids == []
  }

  predicate UnfoldsAll(views: seq<PageView>, ts: seq<Tree>)
    decreases ts
  {
    ts == [] || (Unfolds(views, ts[0]) && UnfoldsAll(views, ts[1..]))
  }

  /** The rows of all leaf pages, from left to right. */
  function Rows(views: seq<PageView>, t: Tree): seq<TableRow>
    decreases t
  {
    match ViewAt(views, t.pageno)
    case Inner(_) => RowsAll(views, t.kids)
    case LeafTable(cells) => CellRows(cells)
    case _ => []
  }

  function RowsAll(views: seq<PageView>, ts: seq<Tree>): seq<TableRow>
    decreases ts
  {
    if ts == [] then [] else Rows(views, ts[0]) + RowsAll(views, ts[1..])
  }

  function Depth(t: Tree): nat
    decreases t
  {
    1 + DepthAll(t.kids)
  }

  function DepthAll(ts: seq<Tree>): nat
    decreases ts
  {
    if ts == [] then 0
    else if Depth(ts[0]) < DepthAll(ts[1..]) then DepthAll(ts[1..]) else Depth(ts[0])
  }

  function Nodes(t: Tree): set<int>
    decreases t
  {
    {t.pageno} + NodesAll(t.kids)
  }

  function NodesAll(ts: seq<Tree>): set<int>
    decreases ts
  {
    if ts == [] then {} else Nodes(ts[0]) + NodesAll(ts[1..])
  }

  /** A page number has at most one tree. */
  lemma {:induction false} Unique(views: seq<PageView>, a: Tree, b: Tree)
    requires Unfolds(views, a) && Unfolds(views, b) && a.pageno == b.pageno
    ensures a == b
    decreases a
  {
    if ViewAt(views, a.pageno).Inner? {
      UniqueAll(views, a.kids, b.kids);
    }
  }

  lemma {:induction false} UniqueAll(views: seq<PageView>, a: seq<Tree>, b: seq<Tree>)
    requires UnfoldsAll(views, a) && UnfoldsAll(views, b) && Roots(a) == Roots(b)
    ensures a == b
    decreases a
  {
    assert |Roots(a)| == |Roots(b)|;
    if a != [] {
      assert Roots(a)[0] == Roots(b)[0] && Roots(a)[1..] == Roots(b)[1..];
      Unique(views, a[0], b[0]);
      UniqueAll(views, a[1..], b[1..]);
      assert a == [a[0]] + a[1..] && b == [b[0]] + b[1..];
    }
  }

  /** The tree below a page that occurs in a list of trees. */
  lemma {:induction false} FindNode(views: seq<PageView>, ts: seq<Tree>, p: int) returns (t: Tree)
    requires UnfoldsAll(views, ts) && p in NodesAll(ts)
    ensures Unfolds(views, t) && t.pageno == p && Depth(t) <= DepthAll(ts)
    decreases ts
  {
    if p !in Nodes(ts[0]) {
      t := FindNode(views, ts[1..], p);
    } else if p == ts[0].pageno {
      t := ts[0];
    } else {
      t := FindNode(views, ts[0].kids, p);
    }
  }

  /** A page does not occur below itself. */
  lemma NotBelowItself(views: seq<PageView>, t: Tree)
    requires Unfolds(views, t)
    ensures t.pageno !in NodesAll(t.kids)
  {
    if t.pageno in NodesAll(t.kids) {
      var t' := FindNode(views, t.kids, t.pageno);
      Unique(views, t, t');
    }
  }

  ghost predicate NoneChecking(s: State, pagenos: set<int>) {
    forall p | p in pagenos :: StatusAt(s.status, p) != Checking
  }

  lemma NoneCheckingStays(a: State, b: State, pagenos: set<int>)
    requires NoneChecking(a, pagenos) && NoNew(a, b)
    ensures NoneChecking(b, pagenos)
  {
  }

  /** Where the pages form a tree, the walk hands over the rows of all leaf pages, each page's rows
      once for each place it has in the tree, from left to right; and this whatever is damaged, and
      wherever overflow chains lead. */
  lemma {:induction false} InOrder(views: seq<PageView>, t: Tree, s: State, fuel: nat)
    requires Unfolds(views, t) && NoneChecking(s, Nodes(t)) && |s.status| == |views| && fuel >= Depth(t)
    ensures var w := Visit(views, {}, t.pageno, s, fuel);
            w.Done? && w.s.log == s.log + Rows(views, t) && NoNew(s, w.s) && w.rc != RcCancelled
    decreases t
  {
    assert t.pageno in Nodes(t);
    assert s.log + [] == s.log;
    var s1 := Mark(s, t.pageno, Checking);
    match ViewAt(views, t.pageno)
    case Inner(kids) =>
      NotBelowItself(views, t);
      KidsInOrder(views, t.kids, s1, fuel - 1);
    case LeafTable(cells) => CellsInOrder(views, cells, s1);
    case _ =>
  }

  lemma {:induction false} KidsInOrder(views: seq<PageView>, ts: seq<Tree>, s: State, fuel: nat)
    requires UnfoldsAll(views, ts) && NoneChecking(s, NodesAll(ts)) && |s.status| == |views| && fuel >= DepthAll(ts)
    ensures var w := VisitKids(views, {}, Roots(ts), s, fuel);
            w.Done? && w.s.log == s.log + RowsAll(views, ts) && NoNew(s, w.s) && w.rc == RcOk
    decreases ts
  {
    if ts == [] {
      assert s.log + [] == s.log;
    } else {
      InOrder(views, ts[0], s, fuel);
      var w := Visit(views, {}, ts[0].pageno, s, fuel);
      NextKid(views, ts, s, fuel);
      hide *;
      NoneCheckingStays(s, w.s, NodesAll(ts[1..]));
      KidsInOrder(views, ts[1..], w.s, fuel);
      NoNewTwice(s, w.s, VisitKids(views, {}, Roots(ts[1..]), w.s, fuel).s);
      assert s.log + Rows(views, ts[0]) + RowsAll(views, ts[1..]) ==
             s.log + (Rows(views, ts[0]) + RowsAll(views, ts[1..]));
    }
  }

  lemma NoNewTwice(a: State, b: State, c: State)
    requires NoNew(a, b) && NoNew(b, c)
    ensures NoNew(a, c) && |c.status| == |a.status|
  {
  }

  lemma NextKid(views: seq<PageView>, ts: seq<Tree>, s: State, fuel: nat)
    requires ts != [] && Visit(views, {}, ts[0].pageno, s, fuel).Done?
    requires Visit(views, {}, ts[0].pageno, s, fuel).rc != RcCancelled
    requires NoneChecking(s, NodesAll(ts)) && NoNew(s, Visit(views, {}, ts[0].pageno, s, fuel).s)
    ensures var s1 := Visit(views, {}, ts[0].pageno, s, fuel).s;
            && VisitKids(views, {}, Roots(ts), s, fuel) == VisitKids(views, {}, Roots(ts[1..]), s1, fuel)
            && |s1.status| == |s.status| && NoneChecking(s, NodesAll(ts[1..]))
    ensures RowsAll(views, ts) == Rows(views, ts[0]) + RowsAll(views, ts[1..])
    ensures DepthAll(ts[1..]) <= DepthAll(ts)
  {
    hide Visit;
    assert Roots(ts)[1..] == Roots(ts[1..]);
  }

  // ---------- damage ----------

  /** The tree cut off at a page. */
  function Prune(t: Tree, p: int): Tree
    decreases t
  {
    if t.pageno == p then Tree(p, []) else Tree(t.pageno, PruneAll(t.kids, p))
  }

  function PruneAll(ts: seq<Tree>, p: int): seq<Tree>
    decreases ts
  {
    if ts == [] then [] else [Prune(ts[0], p)] + PruneAll(ts[1..], p)
  }

  /** The rows of all leaf pages but those at or below page p. */
  function RowsWithout(views: seq<PageView>, t: Tree, p: int): seq<TableRow>
    decreases t
  {
    if t.pageno == p then []
    else
      match ViewAt(views, t.pageno)
      case Inner(_) => RowsWithoutAll(views, t.kids, p)
      case LeafTable(cells) => CellRows(cells)
      case _ => []
  }

  function RowsWithoutAll(views: seq<PageView>, ts: seq<Tree>, p: int): seq<TableRow>
    decreases ts
  {
    if ts == [] then [] else RowsWithout(views, ts[0], p) + RowsWithoutAll(views, ts[1..], p)
  }

  lemma {:induction false} Pruned(views: seq<PageView>, t: Tree, p: int, bad: PageView)
    requires Unfolds(views, t) && 1 <= p <= |views| && Dud(bad)
    ensures var views', t' := views[p - 1 := bad], Prune(t, p);
            && Unfolds(views', t') && Rows(views', t') == RowsWithout(views, t, p)
            && Nodes(t') <= Nodes(t) && Depth(t') <= Depth(t)
    decreases t
  {
    if t.pageno != p && ViewAt(views, t.pageno).Inner? {
      PrunedAll(views, t.kids, p, bad);
    }
  }

  lemma {:induction false} PrunedAll(views: seq<PageView>, ts: seq<Tree>, p: int, bad: PageView)
    requires UnfoldsAll(views, ts) && 1 <= p <= |views| && Dud(bad)
    ensures var views', ts' := views[p - 1 := bad], PruneAll(ts, p);
            && UnfoldsAll(views', ts') && RowsAll(views', ts') == RowsWithoutAll(views, ts, p)
            && NodesAll(ts') <= NodesAll(ts) && DepthAll(ts') <= DepthAll(ts) && Roots(ts') == Roots(ts)
    decreases ts
  {
    if ts != [] {
      Pruned(views, ts[0], p, bad);
      PrunedAll(views, ts[1..], p, bad);
      assert PruneAll(ts, p)[1..] == PruneAll(ts[1..], p);
    }
  }

  /** A damaged page costs the rows at and below it, and no others. */
  lemma DamageIsLocal(views: seq<PageView>, t: Tree, p: int, bad: PageView, s: State, fuel: nat)
    requires Unfolds(views, t) && 1 <= p <= |views| && Dud(bad)
    requires NoneChecking(s, Nodes(t)) && |s.status| == |views| && fuel >= Depth(t)
    ensures var w := Visit(views[p - 1 := bad], {}, t.pageno, s, fuel);
            w.Done? && w.s.log == s.log + RowsWithout(views, t, p)
  {
    Pruned(views, t, p, bad);
    InOrder(views[p - 1 := bad], Prune(t, p), s, fuel);
  }

  // ---------- the order of rowids ----------

  ghost predicate Ascending(rows: seq<TableRow>) {
    forall i, j | 0 <= i < j < |rows| :: rows[i].rowid < rows[j].rowid
  }

  /** The rowids are as section 1.6 of the file format has them: ascending on each leaf page, and
      those of a child below those of its right neighbour. */
  ghost predicate Ordered(views: seq<PageView>, t: Tree)
    decreases t
  {
    match ViewAt(views, t.pageno)
    case Inner(_) => OrderedAll(views, t.kids)
    case LeafTable(cells) => Ascending(CellRows(cells))
    case _ => true
  }

  ghost predicate OrderedAll(views: seq<PageView>, ts: seq<Tree>)
    decreases ts
  {
    ts == [] ||
    (&& Ordered(views, ts[0]) && OrderedAll(views, ts[1..])
     && (|ts| > 1 ==> exists key :: Separates(key, Rows(views, ts[0]), RowsAll(views, ts[1..]))))
  }

  /** The key of an interior cell. */
  ghost predicate Separates(key: int, a: seq<TableRow>, b: seq<TableRow>) {
    && (forall x | x in a :: x.rowid <= key)
    && (forall y | y in b :: key < y.rowid)
  }

  lemma {:induction false} OrderedAscends(views: seq<PageView>, t: Tree)
    requires Ordered(views, t)
    ensures Ascending(Rows(views, t))
    decreases t
  {
    if ViewAt(views, t.pageno).Inner? {
      OrderedAllAscends(views, t.kids);
    }
  }

  lemma {:induction false} OrderedAllAscends(views: seq<PageView>, ts: seq<Tree>)
    requires OrderedAll(views, ts)
    ensures Ascending(RowsAll(views, ts))
    decreases ts
  {
    if ts != [] {
      OrderedAscends(views, ts[0]);
      OrderedAllAscends(views, ts[1..]);
      if |ts| == 1 {
        assert RowsAll(views, ts[1..]) == [];
      } else {
        var key :| Separates(key, Rows(views, ts[0]), RowsAll(views, ts[1..]));
        AscendingConcat(key, Rows(views, ts[0]), RowsAll(views, ts[1..]));
      }
    }
  }

  lemma AscendingConcat(key: int, a: seq<TableRow>, b: seq<TableRow>)
    requires Ascending(a) && Ascending(b) && Separates(key, a, b)
    ensures Ascending(a + b)
  {
    var c := a + b;
    forall i, j | 0 <= i < j < |c| ensures c[i].rowid < c[j].rowid {
      if i < |a| <= j {
        assert c[i] in a && c[j] in b;
      }
    }
  }

  /** On an ordered tree of pages, every row is handed over exactly once, in the order of rowids. */
  lemma Extracted(views: seq<PageView>, t: Tree, s: State, fuel: nat)
    requires Unfolds(views, t) && Ordered(views, t)
    requires NoneChecking(s, Nodes(t)) && |s.status| == |views| && fuel >= Depth(t)
    ensures var w := Visit(views, {}, t.pageno, s, fuel);
            w.Done? && w.s.log == s.log + Rows(views, t) && Ascending(w.s.log[|s.log|..])
  {
    InOrder(views, t, s, fuel);
    OrderedAscends(views, t);
    assert (s.log + Rows(views, t))[|s.log|..] == Rows(views, t);
  }
}
