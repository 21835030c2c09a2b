/** What the client gets after it has cancelled. */
module Cancellation {
  import opened Cells
  import opened Pages
  import opened Walker
  import opened Extraction

  // ---------- a part of the walk in which the client does not cancel ----------

  lemma {:induction false} CellsAlike(views: seq<PageView>, cancels: set<nat>, cells: seq<Cell>, s: State)
    requires Uncancelled(cancels, s, VisitCells(views, {}, cells, s).0)
    ensures VisitCells(views, cancels, cells, s) == VisitCells(views, {}, cells, s)
    ensures s.log <= VisitCells(views, {}, cells, s).0.log
    decreases |cells|
  {
    CellsInOrder(views, cells, s);
    if cells != [] && cells[0].outcome.Reported? {
      var s1 := TouchAll(views, s, cells[0].acquired);
      TouchAllNoNew(views, s, cells[0].acquired);
      var s2 := s1.(log := s1.log + [cells[0].outcome.row]);
      CellsInOrder(views, cells[1..], s2);
      CellsAlike(views, cancels, cells[1..], s2);
    }
  }

  lemma {:induction false} LogGrows(views: seq<PageView>, pageno: int, s: State, fuel: nat)
    ensures var w := Visit(views, {}, pageno, s, fuel); w.Done? ==> s.log <= w.s.log
    decreases fuel, 0
  {
    if fuel > 0 && pageno <= |views| && StatusAt(s.status, pageno) != Checking {
      var s1 := Mark(s, pageno, Checking);
      match ViewAt(views, pageno)
      case Inner(kids) => KidsLogGrows(views, kids, s1, fuel - 1);
      case LeafTable(cells) => CellsInOrder(views, cells, s1);
      case _ =>
    }
  }

  lemma {:induction false} KidsLogGrows(views: seq<PageView>, kids: seq<int>, s: State, fuel: nat)
    ensures var w := VisitKids(views, {}, kids, s, fuel); w.Done? ==> s.log <= w.s.log
    decreases fuel, |kids| + 1
  {
    if kids != [] {
      LogGrows(views, kids[0], s, fuel);
      var w := Visit(views, {}, kids[0], s, fuel);
      if w.Done? {
        KidsLogGrows(views, kids[1..], w.s, fuel);
      }
    }
  }

  /** Where the client does not cancel, the walk is the one in which it never does. */
  lemma {:induction false} VisitAlike(views: seq<PageView>, cancels: set<nat>, pageno: int, s: State, fuel: nat)
    requires Visit(views, {}, pageno, s, fuel).Done? && Uncancelled(cancels, s, Visit(views, {}, pageno, s, fuel).s)
    ensures Visit(views, cancels, pageno, s, fuel) == Visit(views, {}, pageno, s, fuel)
    decreases fuel, 0
  {
    if pageno <= |views| && StatusAt(s.status, pageno) != Checking {
      var s1 := Mark(s, pageno, Checking);
      match ViewAt(views, pageno)
      case Inner(kids) => KidsAlike(views, cancels, kids, s1, fuel - 1);
      case LeafTable(cells) => CellsAlike(views, cancels, cells, s1);
      case _ =>
    }
  }

  lemma {:induction false} KidsAlike(views: seq<PageView>, cancels: set<nat>, kids: seq<int>, s: State, fuel: nat)
    requires VisitKids(views, {}, kids, s, fuel).Done? && Uncancelled(cancels, s, VisitKids(views, {}, kids, s, fuel).s)
    ensures VisitKids(views, cancels, kids, s, fuel) == VisitKids(views, {}, kids, s, fuel)
    decreases fuel, |kids| + 1
  {
    if kids != [] {
      LogGrows(views, kids[0], s, fuel);
      var w := Visit(views, {}, kids[0], s, fuel);
      if w.rc != RcCancelled {
        KidsLogGrows(views, kids[1..], w.s, fuel);
      }
      VisitAlike(views, cancels, kids[0], s, fuel);
      if w.rc != RcCancelled {
        KidsAlike(views, cancels, kids[1..], w.s, fuel);
      }
    }
  }

  // ---------- trees without repetition ----------

  /** No page occurs twice in the tree. */
  predicate Distinct(t: Tree)
    decreases t
  {
    DistinctAll(t.kids)
  }

  predicate DistinctAll(ts: seq<Tree>)
    decreases ts
  {
    ts == [] || (Distinct(ts[0]) && DistinctAll(ts[1..]) && Nodes(ts[0]) !! NodesAll(ts[1..]))
  }

  /** Pages that are being checked afterwards were so before, or are among these. */
  ghost predicate NoNewBut(a: State, b: State, pagenos: set<int>) {
    && |a.status| == |b.status|
    && forall p | 0 <= p < |a.status| && b.status[p] == Checking :: a.status[p] == Checking || p + 1 in pagenos
  }

  // ---------- any number of cancellations ----------

  /** The rows handed over from a list of rows, of which the first is call number n of the client: up to
      the first one it cancels at. */
  function UpToCancel(rows: seq<TableRow>, cancels: set<nat>, n: nat): seq<TableRow> {
    if rows == [] then [] else if n in cancels then [rows[0]] else [rows[0]] + UpToCancel(rows[1..], cancels, n + 1)
  }

  predicate CancelsIn(rows: seq<TableRow>, cancels: set<nat>, n: nat) {
    exists c | c in cancels :: n <= c < n + |rows|
  }

  /** The rows handed over from a tree: a leaf page is left at the first row cancelled at, and then the
      remaining children of its parent are not visited. */
  function Handed(views: seq<PageView>, t: Tree, cancels: set<nat>, n: nat): seq<TableRow>
    decreases t
  {
    match ViewAt(views, t.pageno)
    case Inner(_) => HandedAll(views, t.kids, cancels, n)
    case LeafTable(cells) => UpToCancel(CellRows(cells), cancels, n)
    case _ => []
  }

  function HandedAll(views: seq<PageView>, ts: seq<Tree>, cancels: set<nat>, n: nat): seq<TableRow>
    decreases ts
  {
    if ts == [] then []
    else
      var first := Handed(views, ts[0], cancels, n);
      if ViewAt(views, ts[0].pageno).LeafTable? && CancelsIn(Rows(views, ts[0]), cancels, n) then first
      else first + HandedAll(views, ts[1..], cancels, n + |first|)
  }

  lemma {:induction false} CellsHanded(views: seq<PageView>, cancels: set<nat>, cells: seq<Cell>, s: State)
    ensures var (s', rc) := VisitCells(views, cancels, cells, s);
            && s'.log == s.log + UpToCancel(CellRows(cells), cancels, |s.log|) && NoNew(s, s')
            && (rc == RcCancelled <==> CancelsIn(CellRows(cells), cancels, |s.log|))
    decreases |cells|
  {
    var rows, n := CellRows(cells), |s.log|;
    if cells == [] {
      assert s.log + [] == s.log;
    } else {
      var s1 := TouchAll(views, s, cells[0].acquired);
      TouchAllNoNew(views, s, cells[0].acquired);
      match cells[0].outcome
      case Reported(row) =>
        var s2 := s1.(log := s1.log + [row]);
        CellsHanded(views, cancels, cells[1..], s2);
        FirstCancel(rows, cancels, n);
        RegroupTwo(s.log, [row], UpToCancel(rows[1..], cancels, n + 1));
      case _ => assert s.log + [] == s.log;
    }
  }

  lemma FirstCancel(rows: seq<TableRow>, cancels: set<nat>, n: nat)
    requires rows != []
    ensures CancelsIn(rows, cancels, n) <==> n in cancels || CancelsIn(rows[1..], cancels, n + 1)
  {
  }

  /** However often the client cancels: what it gets from a tree of distinct pages, exactly. */
  lemma {:induction false} TreeHanded(views: seq<PageView>, cancels: set<nat>, t: Tree, s: State, fuel: nat)
    requires Unfolds(views, t) && Distinct(t)
    requires NoneChecking(s, Nodes(t)) && |s.status| == |views| && fuel >= Depth(t)
    ensures var w := Visit(views, cancels, t.pageno, s, fuel);
            && w.Done? && w.s.log == s.log + Handed(views, t, cancels, |s.log|) && NoNewBut(s, w.s, Nodes(t))
            && (w.rc == RcCancelled <==>
                ViewAt(views, t.pageno).LeafTable? && CancelsIn(Rows(views, t), cancels, |s.log|))
    decreases t
  {
    assert t.pageno in Nodes(t);
    assert s.log + [] == s.log;
    var s1 := Mark(s, t.pageno, Checking);
    match ViewAt(views, t.pageno)
    case Inner(kids) =>
      NotBelowItself(views, t);
      KidsHanded(views, cancels, t.kids, s1, fuel - 1);
    case LeafTable(cells) => CellsHanded(views, cancels, cells, s1);
    case _ =>
  }

  lemma {:induction false} KidsHanded(views: seq<PageView>, cancels: set<nat>, ts: seq<Tree>, s: State, fuel: nat)
    requires UnfoldsAll(views, ts) && DistinctAll(ts)
    requires NoneChecking(s, NodesAll(ts)) && |s.status| == |views| && fuel >= DepthAll(ts)
    ensures var w := VisitKids(views, cancels, Roots(ts), s, fuel);
            && w.Done? && w.s.log == s.log + HandedAll(views, ts, cancels, |s.log|) && w.rc == RcOk
            && NoNewBut(s, w.s, NodesAll(ts))
    decreases ts
  {
    if ts == [] {
      assert s.log + [] == s.log;
    } else {
      hide *;
      FirstOf(views, cancels, ts, s, fuel);
      TreeHanded(views, cancels, ts[0], s, fuel);
      var w, first := Visit(views, cancels, ts[0].pageno, s, fuel), Handed(views, ts[0], cancels, |s.log|);
      SameSize(s, w.s, Nodes(ts[0]));
      OthersStayFree(s, w.s, Nodes(ts[0]), NodesAll(ts[1..]));
      SomeNew(s, w.s, Nodes(ts[0]), NodesAll(ts));
      HandedFirst(views, ts, cancels, |s.log|);
      if w.rc != RcCancelled {
        KidsHanded(views, cancels, ts[1..], w.s, fuel);
        NewTwice(s, w.s, VisitKids(views, cancels, Roots(ts[1..]), w.s, fuel).s, NodesAll(ts[1..]), NodesAll(ts));
        RegroupTwo(s.log, first, HandedAll(views, ts[1..], cancels, |s.log| + |first|));
      }
    }
  }

  lemma HandedFirst(views: seq<PageView>, ts: seq<Tree>, cancels: set<nat>, n: nat)
    requires ts != []
    ensures var first := Handed(views, ts[0], cancels, n);
            HandedAll(views, ts, cancels, n) ==
            if ViewAt(views, ts[0].pageno).LeafTable? && CancelsIn(Rows(views, ts[0]), cancels, n) then first
            else first + HandedAll(views, ts[1..], cancels, n + |first|)
  {
  }

  lemma NewTwice(a: State, b: State, c: State, few: set<int>, many: set<int>)
    requires NoNewBut(a, b, many) && NoNewBut(b, c, few) && few <= many
    ensures NoNewBut(a, c, many)
  {
  }

  lemma RegroupTwo(a: seq<TableRow>, b: seq<TableRow>, c: seq<TableRow>)
    ensures a + b + c == a + (b + c)
  {
  }

  // ---------- one cancellation ----------

  /** The rows of the tree to the right of its i-th row, without the pages that have the same parent as
      the leaf page of that row. */
  function Later(views: seq<PageView>, t: Tree, i: nat): seq<TableRow>
    decreases t
  {
    if ViewAt(views, t.pageno).Inner? then LaterAll(views, t.kids, i) else []
  }

  function LaterAll(views: seq<PageView>, ts: seq<Tree>, i: nat): seq<TableRow>
    decreases ts
  {
    if ts == [] then []
    else if i < |Rows(views, ts[0])| then
      if ViewAt(views, ts[0].pageno).Inner? then Later(views, ts[0], i) + RowsAll(views, ts[1..]) else []
    else LaterAll(views, ts[1..], i - |Rows(views, ts[0])|)
  }

  /** The i-th row of a leaf page is the last one before the page is left. */
  lemma {:induction false} CellsCancelled(views: seq<PageView>, cells: seq<Cell>, s: State, i: nat)
    requires i < |CellRows(cells)|
    ensures var (s', rc) := VisitCells(views, {|s.log| + i}, cells, s);
            rc == RcCancelled && s'.log == s.log + CellRows(cells)[..i + 1] && NoNew(s, s')
    decreases |cells|
  {
    var s2 := Reporting(views, cells, s, i);
    hide VisitCells, CellRows, NoNew;
    if i > 0 {
      CellsCancelled(views, cells[1..], s2, i - 1);
      CancelledBehind(s.log, cells[0].outcome.row, CellRows(cells[1..]), i);
      NoNewTwice(s, s2, VisitCells(views, {|s.log| + i}, cells, s).0);
    }
  }

  /** The first cell of the page reports a row, at which the client cancels or not. */
  lemma Reporting(views: seq<PageView>, cells: seq<Cell>, s: State, i: nat) returns (s2: State)
    requires i < |CellRows(cells)|
    ensures cells != [] && cells[0].outcome.Reported? && NoNew(s, s2) && s2.log == s.log + [cells[0].outcome.row]
    ensures CellRows(cells) == [cells[0].outcome.row] + CellRows(cells[1..])
    ensures VisitCells(views, {|s.log| + i}, cells, s) ==
            if i == 0 then (s2, RcCancelled) else VisitCells(views, {|s.log| + i}, cells[1..], s2)
    ensures i == 0 ==> CellRows(cells)[..1] == [cells[0].outcome.row]
  {
    TouchAllNoNew(views, s, cells[0].acquired);
    s2 := TouchAll(views, s, cells[0].acquired).(log := s.log + [cells[0].outcome.row]);
    assert CellRows(cells)[..1] == [cells[0].outcome.row];
  }

  lemma CancelledBehind(log: seq<TableRow>, row: TableRow, rows: seq<TableRow>, i: nat)
    requires 0 < i <= |rows|
    ensures (log + [row]) + rows[..i] == log + ([row] + rows)[..i + 1]
  {
  }

  /** The client cancels at row i of a tree of distinct pages.  What it gets is exactly the rows up to
      that one, and then those further right, but for the remaining children of the same parent. */
  lemma {:induction false} TreeCancelled(views: seq<PageView>, t: Tree, s: State, fuel: nat, i: nat)
    requires Unfolds(views, t) && Distinct(t) && i < |Rows(views, t)|
    requires NoneChecking(s, Nodes(t)) && |s.status| == |views| && fuel >= Depth(t)
    ensures var w := Visit(views, {|s.log| + i}, t.pageno, s, fuel);
            && w.Done? && w.s.log == s.log + (Rows(views, t)[..i + 1] + Later(views, t, i))
            && (w.rc == RcCancelled <==> ViewAt(views, t.pageno).LeafTable?) && NoNewBut(s, w.s, Nodes(t))
    decreases t
  {
    assert t.pageno in Nodes(t);
    var s1 := Mark(s, t.pageno, Checking);
    match ViewAt(views, t.pageno)
    case Inner(kids) =>
      NotBelowItself(views, t);
      KidsCancelled(views, t.kids, s1, fuel - 1, i);
    case LeafTable(cells) =>
      CellsCancelled(views, cells, s1, i);
      assert Rows(views, t)[..i + 1] + [] == Rows(views, t)[..i + 1];
    case _ =>
  }

  /** The same for the children of an interior page. */
  lemma {:induction false} KidsCancelled(views: seq<PageView>, ts: seq<Tree>, s: State, fuel: nat, i: nat)
    requires UnfoldsAll(views, ts) && DistinctAll(ts) && i < |RowsAll(views, ts)|
    requires NoneChecking(s, NodesAll(ts)) && |s.status| == |views| && fuel >= DepthAll(ts)
    ensures AfterKids(views, ts, s, fuel, i)
    decreases ts, 1
  {
    if i < |Rows(views, ts[0])| {
      CancelledHere(views, ts, s, fuel, i);
    } else {
      CancelledLater(views, ts, s, fuel, i);
    }
  }

  ghost predicate AfterKids(views: seq<PageView>, ts: seq<Tree>, s: State, fuel: nat, i: nat)
    requires i < |RowsAll(views, ts)|
  {
    var w := VisitKids(views, {|s.log| + i}, Roots(ts), s, fuel);
    && w.Done? && w.s.log == s.log + (RowsAll(views, ts)[..i + 1] + LaterAll(views, ts, i))
    && w.rc == RcOk && NoNewBut(s, w.s, NodesAll(ts))
  }

  /** What the walk does with a list of trees, and what the list consists of. */
  lemma FirstOf(views: seq<PageView>, cancels: set<nat>, ts: seq<Tree>, s: State, fuel: nat)
    requires UnfoldsAll(views, ts) && DistinctAll(ts) && ts != [] && fuel >= DepthAll(ts)
    requires NoneChecking(s, NodesAll(ts))
    ensures Unfolds(views, ts[0]) && UnfoldsAll(views, ts[1..]) && Distinct(ts[0]) && DistinctAll(ts[1..])
    ensures NoneChecking(s, Nodes(ts[0])) && NoneChecking(s, NodesAll(ts[1..]))
    ensures Nodes(ts[0]) !! NodesAll(ts[1..]) && NodesAll(ts) == Nodes(ts[0]) + NodesAll(ts[1..])
    ensures fuel >= Depth(ts[0]) && fuel >= DepthAll(ts[1..])
    ensures RowsAll(views, ts) == Rows(views, ts[0]) + RowsAll(views, ts[1..])
    ensures var w := Visit(views, cancels, ts[0].pageno, s, fuel);
            w.Done? ==> VisitKids(views, cancels, Roots(ts), s, fuel) ==
                        if w.rc == RcCancelled then Done(w.s, RcOk)
                        else VisitKids(views, cancels, Roots(ts[1..]), w.s, fuel)
  {
    hide Visit;
    assert Roots(ts)[1..] == Roots(ts[1..]);
  }

  lemma LaterHere(views: seq<PageView>, ts: seq<Tree>, i: nat)
    requires ts != [] && i < |Rows(views, ts[0])|
    ensures LaterAll(views, ts, i) ==
            if ViewAt(views, ts[0].pageno).Inner? then Later(views, ts[0], i) + RowsAll(views, ts[1..]) else []
    ensures !ViewAt(views, ts[0].pageno).Inner? ==> ViewAt(views, ts[0].pageno).LeafTable?
  {
  }

  /** The row is below the first child. */
  lemma {:induction false} CancelledHere(views: seq<PageView>, ts: seq<Tree>, s: State, fuel: nat, i: nat)
    requires UnfoldsAll(views, ts) && DistinctAll(ts) && ts != [] && i < |Rows(views, ts[0])|
    requires NoneChecking(s, NodesAll(ts)) && |s.status| == |views| && fuel >= DepthAll(ts)
    ensures i < |RowsAll(views, ts)| && AfterKids(views, ts, s, fuel, i)
    decreases ts, 0
  {
    var cancels := {|s.log| + i};
    FirstOf(views, cancels, ts, s, fuel);
    TreeCancelled(views, ts[0], s, fuel, i);
    LaterHere(views, ts, i);
    hide Visit, VisitKids, Rows, RowsAll, Later, LaterAll, Nodes, NodesAll, DepthAll, Depth, Roots, Unfolds, UnfoldsAll;
    hide Distinct, DistinctAll, NoneChecking;
    var w := Visit(views, cancels, ts[0].pageno, s, fuel);
    var here, more := Rows(views, ts[0]), RowsAll(views, ts[1..]);
    assert (here + more)[..i + 1] == here[..i + 1];
    if ViewAt(views, ts[0].pageno).Inner? {
      OthersStayFree(s, w.s, Nodes(ts[0]), NodesAll(ts[1..]));
      SameSize(s, w.s, Nodes(ts[0]));
      KidsInOrder(views, ts[1..], w.s, fuel);
      KidsAlike(views, cancels, Roots(ts[1..]), w.s, fuel);
      ThenNothingNew(s, w.s, VisitKids(views, cancels, Roots(ts[1..]), w.s, fuel).s, Nodes(ts[0]), NodesAll(ts));
      Regroup(s.log, here[..i + 1], Later(views, ts[0], i), more);
    } else {
      SomeNew(s, w.s, Nodes(ts[0]), NodesAll(ts));
    }
  }

  lemma Regroup(a: seq<TableRow>, b: seq<TableRow>, c: seq<TableRow>, d: seq<TableRow>)
    ensures a + (b + c) + d == a + (b + (c + d))
  {
  }

  lemma SameSize(a: State, b: State, pagenos: set<int>)
    requires NoNewBut(a, b, pagenos)
    ensures |a.status| == |b.status|
  {
  }

  lemma SomeNew(a: State, b: State, few: set<int>, many: set<int>)
    requires NoNewBut(a, b, few) && few <= many
    ensures NoNewBut(a, b, many)
  {
  }

  lemma ThenNothingNew(a: State, b: State, c: State, few: set<int>, many: set<int>)
    requires NoNewBut(a, b, few) && NoNew(b, c) && few <= many
    ensures NoNewBut(a, c, many)
  {
  }

  lemma OthersStayFree(a: State, b: State, here: set<int>, others: set<int>)
    requires NoNewBut(a, b, here) && NoneChecking(a, others) && here !! others
    ensures NoneChecking(b, others)
  {
  }

  /** The row is below a later child. */
  lemma {:induction false} CancelledLater(views: seq<PageView>, ts: seq<Tree>, s: State, fuel: nat, i: nat)
    requires UnfoldsAll(views, ts) && DistinctAll(ts) && ts != [] && |Rows(views, ts[0])| <= i < |RowsAll(views, ts)|
    requires NoneChecking(s, NodesAll(ts)) && |s.status| == |views| && fuel >= DepthAll(ts)
    ensures AfterKids(views, ts, s, fuel, i)
    decreases ts, 0
  {
    var cancels, j := {|s.log| + i}, i - |Rows(views, ts[0])|;
    FirstOf(views, cancels, ts, s, fuel);
    assert LaterAll(views, ts, i) == LaterAll(views, ts[1..], j);
    hide Visit, VisitKids, Rows, RowsAll, Later, LaterAll, Nodes, NodesAll, DepthAll, Depth, Roots, Unfolds, UnfoldsAll;
    hide Distinct, DistinctAll, NoneChecking;
    InOrder(views, ts[0], s, fuel);
    VisitAlike(views, cancels, ts[0].pageno, s, fuel);
    var w := Visit(views, {}, ts[0].pageno, s, fuel);
    var here, more := Rows(views, ts[0]), RowsAll(views, ts[1..]);
    NoneCheckingStays(s, w.s, NodesAll(ts[1..]));
    KidsCancelled(views, ts[1..], w.s, fuel, j);
    assert |w.s.log| + j == |s.log| + i;
    NothingNewThen(s, w.s, VisitKids(views, cancels, Roots(ts[1..]), w.s, fuel).s, NodesAll(ts[1..]), NodesAll(ts));
    RegroupLater(s.log, here, more, i, LaterAll(views, ts[1..], j));
  }

  lemma RegroupLater(a: seq<TableRow>, here: seq<TableRow>, more: seq<TableRow>, i: nat, later: seq<TableRow>)
    requires |here| <= i < |here| + |more|
    ensures a + here + (more[..i - |here| + 1] + later) == a + ((here + more)[..i + 1] + later)
  {
    assert (here + more)[..i + 1] == here + more[..i - |here| + 1];
  }

  lemma NothingNewThen(a: State, b: State, c: State, few: set<int>, many: set<int>)
    requires NoNew(a, b) && NoNewBut(b, c, few) && few <= many
    ensures NoNewBut(a, c, many)
  {
  }

  /** No row follows the one at which the client cancels exactly when nothing lies further right but
      under the same parent. */
  lemma CancelIsFinal(views: seq<PageView>, t: Tree, s: State, fuel: nat, i: nat)
    requires Unfolds(views, t) && Distinct(t) && i < |Rows(views, t)|
    requires NoneChecking(s, Nodes(t)) && |s.status| == |views| && fuel >= Depth(t)
    ensures var w := Visit(views, {|s.log| + i}, t.pageno, s, fuel);
            w.Done? && (|w.s.log| == |s.log| + i + 1 <==> Later(views, t, i) == [])
  {
    TreeCancelled(views, t, s, fuel, i);
  }

  /** Page 1 has the children 2 and 4, page 2 the child 3; pages 3 and 4 have a row each.  Cancelling at
      the first row does not keep the second from being handed over. */
  lemma CancelIsIgnored(a: TableRow, b: TableRow)
    ensures var views := [Inner([2, 4]), Inner([3]),
                          LeafTable([Cell([], Reported(a))]), LeafTable([Cell([], Reported(b))])];
            var w := Visit(views, {0}, 1, State([Unchecked, Unchecked, Unchecked, Unchecked], []), 4);
            w.Done? && w.s.log == [a, b]
  {
    var views := [Inner([2, 4]), Inner([3]), LeafTable([Cell([], Reported(a))]), LeafTable([Cell([], Reported(b))])];
    var s := State([Unchecked, Unchecked, Unchecked, Unchecked], []);
    var leaf3, leaf4 := Tree(3, []), Tree(4, []);
    var page2 := Tree(2, [leaf3]);
    var t := Tree(1, [page2, leaf4]);
    OneTree(views, leaf3);
    TwoTrees(views, page2, leaf4);
    assert [Cell([], Reported(a))][1..] == [] && [Cell([], Reported(b))][1..] == [];
    assert CellRows([Cell([], Reported(a))]) == [a] && CellRows([Cell([], Reported(b))]) == [b];
    assert Rows(views, page2) == [a] && Later(views, page2, 0) == [];
    assert Rows(views, t) == [a, b] && Later(views, t, 0) == [b];
    TreeCancelled(views, t, s, 4, 0);
    assert [a, b][..1] + [b] == [a, b];
  }

  lemma OneTree(views: seq<PageView>, t: Tree)
    ensures var ts := [t];
            && RowsAll(views, ts) == Rows(views, t) && Roots(ts) == [t.pageno] && NodesAll(ts) == Nodes(t)
            && DepthAll(ts) == Depth(t) && (UnfoldsAll(views, ts) <==> Unfolds(views, t))
            && (DistinctAll(ts) <==> Distinct(t))
            && forall i: nat | i < |Rows(views, t)| ::
                 LaterAll(views, ts, i) == if ViewAt(views, t.pageno).Inner? then Later(views, t, i) else []
  {
    assert [t][1..] == [];
    assert RowsAll(views, [t]) == Rows(views, t) + [];
  }

  lemma TwoTrees(views: seq<PageView>, t: Tree, u: Tree)
    ensures var ts := [t, u];
            && RowsAll(views, ts) == Rows(views, t) + Rows(views, u) && Roots(ts) == [t.pageno, u.pageno]
            && NodesAll(ts) == Nodes(t) + Nodes(u)
            && DepthAll(ts) == (if Depth(t) < Depth(u) then Depth(u) else Depth(t))
            && (UnfoldsAll(views, ts) <==> Unfolds(views, t) && Unfolds(views, u))
            && (DistinctAll(ts) <==> Distinct(t) && Distinct(u) && Nodes(t) !! Nodes(u))
            && forall i: nat | i < |Rows(views, t)| ::
                 LaterAll(views, ts, i) ==
                 if ViewAt(views, t.pageno).Inner? then Later(views, t, i) + Rows(views, u) else []
  {
    assert [t, u][1..] == [u];
    OneTree(views, u);
  }
}
