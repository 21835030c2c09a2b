/** What a whole run over a file hands over, and how often, where no page leads back to itself and rows of
    sqlite_master are not followed. */
module WholeRun {
  import opened Cells
  import opened Pages
  import opened Walker
  import opened Extraction
  import opened Cancellation
  import opened Recovery

  // ---------- which pages a walk deals with ----------

  /** The overflow pages of a leaf page, up to the first cell that cannot be read. */
  function CellTouches(cells: seq<Cell>): set<int> {
    if cells == [] then {}
    else
      (set q | q in cells[0].acquired) + if cells[0].outcome.Reported? then CellTouches(cells[1..]) else {}
  }

  /** The overflow pages of all leaf pages of a tree. */
  function Touches(views: seq<PageView>, t: Tree): set<int>
    decreases t
  {
    match ViewAt(views, t.pageno)
    case Inner(_) => TouchesAll(views, t.kids)
    case LeafTable(cells) => CellTouches(cells)
    case _ => {}
  }

  function TouchesAll(views: seq<PageView>, ts: seq<Tree>): set<int>
    decreases ts
  {
    if ts == [] then {} else Touches(views, ts[0]) + TouchesAll(views, ts[1..])
  }

  /** The pages a walk over a tree marks. */
  function Dealt(views: seq<PageView>, t: Tree): set<int> {
    Nodes(t) + Touches(views, t)
  }

  function DealtAll(views: seq<PageView>, ts: seq<Tree>): set<int> {
    NodesAll(ts) + TouchesAll(views, ts)
  }

  /** Exactly these pages and those dealt with before are dealt with. */
  ghost predicate DealtWith(a: State, b: State, pagenos: set<int>) {
    && |a.status| == |b.status|
    && forall p | 0 <= p < |a.status| ::
         b.status[p] != Unchecked <==> a.status[p] != Unchecked || p + 1 in pagenos
  }

  lemma DealtWithBoth(a: State, b: State, c: State, here: set<int>, more: set<int>, all: set<int>)
    requires DealtWith(a, b, here) && DealtWith(b, c, more) && all == here + more
    ensures DealtWith(a, c, all)
  {
  }

  lemma DealtWithOne(a: State, b: State, pageno: int, rc: Rc, pagenos: set<int>)
    requires DealtWith(Mark(a, pageno, Checking), b, pagenos) && rc != RcCancelled
    ensures DealtWith(a, Ended(b, pageno, rc), {pageno} + pagenos)
  {
  }

  lemma DealtWithNone(s: State)
    ensures DealtWith(s, s, {})
  {
  }

  lemma {:induction false} TouchAllDealsWith(views: seq<PageView>, s: State, pagenos: seq<int>)
    ensures DealtWith(s, TouchAll(views, s, pagenos), set q | q in pagenos)
    decreases |pagenos|
  {
    if pagenos != [] {
      TouchAllDealsWith(views, Touch(views, s, pagenos[0]), pagenos[1..]);
      assert (set q | q in pagenos) == {pagenos[0]} + set q | q in pagenos[1..];
    }
  }

  lemma {:induction false} CellsDealWith(views: seq<PageView>, cells: seq<Cell>, s: State)
    ensures DealtWith(s, VisitCells(views, {}, cells, s).0, CellTouches(cells))
    decreases |cells|
  {
    if cells != [] {
      var s1, qs := TouchAll(views, s, cells[0].acquired), set q | q in cells[0].acquired;
      TouchAllDealsWith(views, s, cells[0].acquired);
      if cells[0].outcome.Reported? {
        var s2 := s1.(log := s1.log + [cells[0].outcome.row]);
        assert DealtWith(s, s2, qs);
        CellsDealWith(views, cells[1..], s2);
        DealtWithBoth(s, s2, VisitCells(views, {}, cells, s).0, qs, CellTouches(cells[1..]), CellTouches(cells));
      }
    }
  }

  lemma {:induction false} TreeDealtWith(views: seq<PageView>, t: Tree, s: State, fuel: nat)
    requires Unfolds(views, t) && NoneChecking(s, Nodes(t)) && |s.status| == |views| && fuel >= Depth(t)
    ensures Visit(views, {}, t.pageno, s, fuel).Done?
    ensures DealtWith(s, Visit(views, {}, t.pageno, s, fuel).s, Dealt(views, t))
    decreases t
  {
    InOrder(views, t, s, fuel);
    assert t.pageno in Nodes(t);
    var s1, w := Mark(s, t.pageno, Checking), Visit(views, {}, t.pageno, s, fuel);
    hide DealtWith, VisitKids, VisitCells, Rows, RowsAll, NoNew;
    match ViewAt(views, t.pageno)
    case Inner(kids) =>
      NotBelowItself(views, t);
      KidsDealtWith(views, t.kids, s1, fuel - 1);
      KidsInOrder(views, t.kids, s1, fuel - 1);
      DealtWithOne(s, VisitKids(views, {}, kids, s1, fuel - 1).s, t.pageno, RcOk, DealtAll(views, t.kids));
      assert Dealt(views, t) == {t.pageno} + DealtAll(views, t.kids);
    case LeafTable(cells) =>
      CellsDealWith(views, cells, s1);
      CellsInOrder(views, cells, s1);
      var (s2, rc) := VisitCells(views, {}, cells, s1);
      DealtWithOne(s, s2, t.pageno, rc, CellTouches(cells));
      assert Dealt(views, t) == {t.pageno} + CellTouches(cells);
    case _ =>
      DealtWithNone(s1);
      if t.pageno <= |views| { DealtWithOne(s, s1, t.pageno, w.rc, {}); }
      assert Dealt(views, t) == {t.pageno};
  }

  lemma {:induction false} KidsDealtWith(views: seq<PageView>, ts: seq<Tree>, s: State, fuel: nat)
    requires UnfoldsAll(views, ts) && NoneChecking(s, NodesAll(ts)) && |s.status| == |views|
    requires fuel >= DepthAll(ts)
    ensures VisitKids(views, {}, Roots(ts), s, fuel).Done?
    ensures DealtWith(s, VisitKids(views, {}, Roots(ts), s, fuel).s, DealtAll(views, ts))
    decreases ts
  {
    if ts == [] {
    } else {
      TreeDealtWith(views, ts[0], s, fuel);
      InOrder(views, ts[0], s, fuel);
      var w := Visit(views, {}, ts[0].pageno, s, fuel);
      NextKid(views, ts, s, fuel);
      DealtOfFirst(views, ts);
      hide *;
      NoneCheckingStays(s, w.s, NodesAll(ts[1..]));
      KidsDealtWith(views, ts[1..], w.s, fuel);
      DealtWithBoth(s, w.s, VisitKids(views, {}, Roots(ts[1..]), w.s, fuel).s,
                    Dealt(views, ts[0]), DealtAll(views, ts[1..]), DealtAll(views, ts));
    }
  }

  lemma DealtOfFirst(views: seq<PageView>, ts: seq<Tree>)
    requires ts != []
    ensures DealtAll(views, ts) == Dealt(views, ts[0]) + DealtAll(views, ts[1..])
  {
  }

  // ---------- the depth of a tree ----------

  /** A tree is no deeper than the file has pages, and one page number outside the file. */
  lemma {:induction false} DepthBound(views: seq<PageView>, t: Tree)
    requires Unfolds(views, t)
    ensures Depth(t) <= |Nodes(t) * Upto(|views|)| + 1
    decreases t
  {
    if ViewAt(views, t.pageno).Inner? {
      NotBelowItself(views, t);
      DepthAllBound(views, t.kids);
      var all, below := Nodes(t) * Upto(|views|), NodesAll(t.kids) * Upto(|views|);
      assert all == below + {t.pageno};
    }
  }

  lemma {:induction false} DepthAllBound(views: seq<PageView>, ts: seq<Tree>)
    requires UnfoldsAll(views, ts)
    ensures DepthAll(ts) <= |NodesAll(ts) * Upto(|views|)| + 1
    decreases ts
  {
    if ts != [] {
      DepthBound(views, ts[0]);
      DepthAllBound(views, ts[1..]);
      Larger(Nodes(ts[0]) * Upto(|views|), NodesAll(ts) * Upto(|views|));
      Larger(NodesAll(ts[1..]) * Upto(|views|), NodesAll(ts) * Upto(|views|));
    }
  }

  lemma DepthSmall(views: seq<PageView>, t: Tree)
    requires Unfolds(views, t)
    ensures Depth(t) <= |views| + 1
  {
    DepthBound(views, t);
    SizeBound(Nodes(t) * Upto(|views|), |views|);
  }

  // ---------- the whole run ----------

  /** trees[p] is the tree of page p + 1: no page leads back to itself. */
  predicate AllUnfold(views: seq<PageView>, trees: seq<Tree>) {
    |trees| == |views| && forall p | 0 <= p < |views| :: trees[p].pageno == p + 1 && Unfolds(views, trees[p])
  }

  ghost function Depthwise(trees: seq<Tree>): seq<nat> {
    seq(|trees|, p requires 0 <= p < |trees| => Depth(trees[p]))
  }

  /** Where no page leads back to itself, the depths of the trees rank the pages, and the walk ends. */
  lemma AcyclicIsRanked(views: seq<PageView>, trees: seq<Tree>)
    requires AllUnfold(views, trees)
    ensures Ranked(Plain(views), Depthwise(trees), |views| + 3)
  {
    var g, rank := Plain(views), Depthwise(trees);
    hide Reached, Opening, Below, Unfolds;
    forall p | Loose(g, p) ensures RankAt(rank, p) + 1 < |views| + 3 {
      LooseIsInner(views, p);
      DepthSmall(views, trees[p - 1]);
    }
    forall p, y | Loose(g, p) && Loose(g, y) && y in Below(g, p) ensures RankAt(rank, y) < RankAt(rank, p) {
      LooseIsInner(views, p);
      LooseIsInner(views, y);
      ChildIsLower(views, trees, p, y);
    }
  }

  lemma LooseIsInner(views: seq<PageView>, p: int)
    requires Loose(Plain(views), p)
    ensures 1 <= p <= |views| && ViewAt(views, p).Inner? && Below(Plain(views), p) == ViewAt(views, p).kids
  {
    hide Reached;
    if ViewAt(views, p).LeafTable? { NoneOnward(Plain(views).to, ViewAt(views, p).cells); }
  }

  lemma ChildIsLower(views: seq<PageView>, trees: seq<Tree>, p: int, y: int)
    requires AllUnfold(views, trees) && 1 <= p <= |views| && 1 <= y <= |views|
    requires ViewAt(views, p).Inner? && y in ViewAt(views, p).kids
    ensures Depth(trees[y - 1]) < Depth(trees[p - 1])
  {
    RootsAreNodes(trees[p - 1].kids, y);
    var t := FindNode(views, trees[p - 1].kids, y);
    Unique(views, t, trees[y - 1]);
  }

  lemma {:induction false} RootsAreNodes(ts: seq<Tree>, y: int)
    requires y in Roots(ts)
    ensures y in NodesAll(ts)
    decreases ts
  {
    if ts != [] && y != ts[0].pageno {
      RootsAreNodes(ts[1..], y);
    }
  }

  /** The trees walked from page i + 1 on, when some pages have been dealt with: of each page not dealt
      with before that opens, in the order of their numbers. */
  function Walked(views: seq<PageView>, trees: seq<Tree>, i: nat, seen: set<int>): seq<Tree>
    requires |trees| == |views|
    decreases |views| - i
  {
    if i >= |views| then []
    else if Skipped(views, i, seen) then Walked(views, trees, i + 1, seen)
    else [trees[i]] + Walked(views, trees, i + 1, seen + Dealt(views, trees[i]))
  }

  predicate Skipped(views: seq<PageView>, i: nat, seen: set<int>) {
    i + 1 in seen || !Opens(views, i + 1)
  }

  /** Between two walks no page is being checked, and these pages have been dealt with. */
  ghost predicate Between(s: State, seen: set<int>) {
    && (forall p | 0 <= p < |s.status| :: s.status[p] != Checking)
    && forall p | 0 <= p < |s.status| :: s.status[p] != Unchecked <==> p + 1 in seen
  }

  /** One page of the run. */
  lemma OneWalk(views: seq<PageView>, t: Tree, s: State, fuel: nat, seen: set<int>)
    requires Unfolds(views, t) && fuel > |views| && |s.status| == |views| && Between(s, seen)
    ensures var w := Visit(views, {}, t.pageno, s, fuel);
            && w.Done? && w.s.log == s.log + Rows(views, t) && |w.s.status| == |views|
            && Between(w.s, seen + Dealt(views, t))
  {
    DepthSmall(views, t);
    InOrder(views, t, s, fuel);
    TreeDealtWith(views, t, s, fuel);
    hide Visit, Unfolds, Rows, Dealt;
  }

  /** What becomes of the i-th page in the run. */
  lemma OneStep(views: seq<PageView>, t: Tree, i: nat, s: State, fuel: nat, seen: set<int>)
    requires Unfolds(views, t) && t.pageno == i + 1 && i < |views|
    requires fuel > |views| && |s.status| == |views| && Between(s, seen)
    ensures var w, skipped := ParseOne(views, {}, i + 1, s, fuel), Skipped(views, i, seen);
            && w.Done? && w.s.log == (if skipped then s.log else s.log + Rows(views, t))
            && |w.s.status| == |views| && Between(w.s, if skipped then seen else seen + Dealt(views, t))
  {
    assert StatusAt(s.status, i + 1) != Unchecked <==> i + 1 in seen;
    hide Visit, Rows, Dealt, Between, Unfolds, Opens, StatusAt;
    if !Skipped(views, i, seen) { OneWalk(views, t, s, fuel, seen); }
  }

  lemma {:induction false} RunFrom(views: seq<PageView>, trees: seq<Tree>, i: nat, s: State, fuel: nat, seen: set<int>)
    requires AllUnfold(views, trees) && fuel > |views| && |s.status| == |views| && Between(s, seen)
    ensures var w := ParseFrom(views, {}, i, s, fuel);
            w.Done? && w.s.log == s.log + RowsAll(views, Walked(views, trees, i, seen))
    decreases |views| - i
  {
    hide Visit, ParseOne, Between, Rows, Dealt, Skipped;
    if i >= |views| {
      assert s.log + [] == s.log;
    } else {
      OneStep(views, trees[i], i, s, fuel, seen);
      var s1 := ParseOne(views, {}, i + 1, s, fuel).s;
      if Skipped(views, i, seen) {
        RunFrom(views, trees, i + 1, s1, fuel, seen);
      } else {
        RunFrom(views, trees, i + 1, s1, fuel, seen + Dealt(views, trees[i]));
        var rest := Walked(views, trees, i + 1, seen + Dealt(views, trees[i]));
        RowsOfMore(views, trees[i], rest);
        RegroupTwo(s.log, Rows(views, trees[i]), RowsAll(views, rest));
      }
    }
  }

  lemma RowsOfMore(views: seq<PageView>, t: Tree, rest: seq<Tree>)
    ensures RowsAll(views, [t] + rest) == Rows(views, t) + RowsAll(views, rest)
  {
    assert ([t] + rest)[1..] == rest;
  }

  // ---------- how often each page's rows are handed over ----------

  /** The leaf pages of a tree, from left to right. */
  function Leaves(views: seq<PageView>, t: Tree): seq<int>
    decreases t
  {
    match ViewAt(views, t.pageno)
    case Inner(_) => LeavesAll(views, t.kids)
    case LeafTable(_) => [t.pageno]
    case _ => []
  }

  function LeavesAll(views: seq<PageView>, ts: seq<Tree>): seq<int>
    decreases ts
  {
    if ts == [] then [] else Leaves(views, ts[0]) + LeavesAll(views, ts[1..])
  }

  /** The rows of these pages, one page after the other. */
  function PageRows(views: seq<PageView>, ps: seq<int>): seq<TableRow> {
    if ps == [] then []
    else
      (if ViewAt(views, ps[0]).LeafTable? then CellRows(ViewAt(views, ps[0]).cells) else []) + PageRows(views, ps[1..])
  }

  lemma {:induction false} PageRowsConcat(views: seq<PageView>, a: seq<int>, b: seq<int>)
    ensures PageRows(views, a + b) == PageRows(views, a) + PageRows(views, b)
  {
    if a == [] {
      assert a + b == b;
    } else {
      PageRowsConcat(views, a[1..], b);
      assert (a + b)[1..] == a[1..] + b && (a + b)[0] == a[0];
      var first := if ViewAt(views, a[0]).LeafTable? then CellRows(ViewAt(views, a[0]).cells) else [];
      assert PageRows(views, a + b) == first + PageRows(views, a[1..] + b);
      hide CellRows;
      RegroupTwo(first, PageRows(views, a[1..]), PageRows(views, b));
    }
  }

  lemma {:induction false} RowsOfLeaves(views: seq<PageView>, t: Tree)
    ensures Rows(views, t) == PageRows(views, Leaves(views, t))
    decreases t
  {
    match ViewAt(views, t.pageno)
    case Inner(_) => RowsOfAllLeaves(views, t.kids);
    case LeafTable(cells) =>
      assert [t.pageno][1..] == [];
      assert CellRows(cells) + [] == CellRows(cells);
    case _ =>
  }

  lemma {:induction false} RowsOfAllLeaves(views: seq<PageView>, ts: seq<Tree>)
    ensures RowsAll(views, ts) == PageRows(views, LeavesAll(views, ts))
    decreases ts
  {
    if ts != [] {
      RowsOfLeaves(views, ts[0]);
      RowsOfAllLeaves(views, ts[1..]);
      PageRowsConcat(views, Leaves(views, ts[0]), LeavesAll(views, ts[1..]));
    }
  }

  /** The leaf pages in the order in which a whole run hands their rows over, each as often as it does. */
  function Order(views: seq<PageView>, trees: seq<Tree>): seq<int>
    requires |trees| == |views|
  {
    LeavesAll(views, Walked(views, trees, 0, {}))
  }

  /** What a whole run hands over, exactly, wherever overflow chains lead. */
  lemma WholeLog(views: seq<PageView>, trees: seq<Tree>, fuel: nat)
    requires AllUnfold(views, trees) && fuel > |views|
    ensures var w := ParseFrom(views, {}, 0, Fresh(|views|), fuel);
            w.Done? && w.s.log == PageRows(views, Order(views, trees))
  {
    var s := Fresh(|views|);
    RunFrom(views, trees, 0, s, fuel, {});
    RowsOfAllLeaves(views, Walked(views, trees, 0, {}));
    assert s.log + PageRows(views, Order(views, trees)) == PageRows(views, Order(views, trees));
  }

  // ---------- the leaf pages that are lost ----------

  lemma {:induction false} WalkedUnfold(views: seq<PageView>, trees: seq<Tree>, i: nat, seen: set<int>)
    requires AllUnfold(views, trees)
    ensures UnfoldsAll(views, Walked(views, trees, i, seen))
    decreases |views| - i
  {
    if i < |views| {
      if Skipped(views, i, seen) {
        WalkedUnfold(views, trees, i + 1, seen);
      } else {
        WalkedUnfold(views, trees, i + 1, seen + Dealt(views, trees[i]));
        var rest := Walked(views, trees, i + 1, seen + Dealt(views, trees[i]));
        assert ([trees[i]] + rest)[1..] == rest;
      }
    }
  }

  /** A leaf page is among the leaf pages of the trees it stands in. */
  lemma {:induction false} LeafIsListed(views: seq<PageView>, t: Tree, p: int)
    requires Unfolds(views, t) && ViewAt(views, p).LeafTable?
    ensures p in Leaves(views, t) <==> p in Nodes(t)
    decreases t
  {
    if ViewAt(views, t.pageno).Inner? {
      LeafIsListedAll(views, t.kids, p);
    } else {
      assert NodesAll(t.kids) == {};
    }
  }

  lemma {:induction false} LeafIsListedAll(views: seq<PageView>, ts: seq<Tree>, p: int)
    requires UnfoldsAll(views, ts) && ViewAt(views, p).LeafTable?
    ensures p in LeavesAll(views, ts) <==> p in NodesAll(ts)
    decreases ts
  {
    if ts != [] {
      LeafIsListed(views, ts[0], p);
      LeafIsListedAll(views, ts[1..], p);
    }
  }

  /** A walk below an earlier page followed an overflow chain into page p. */
  ghost predicate ChainFirst(views: seq<PageView>, walked: seq<Tree>, p: int) {
    exists t | t in walked :: t.pageno < p && p in Touches(views, t)
  }

  lemma {:induction false} NotWalked(views: seq<PageView>, trees: seq<Tree>, i: nat, seen: set<int>, p: nat)
    requires AllUnfold(views, trees) && i <= p < |views| && Opens(views, p + 1) && p + 1 !in seen
    requires p + 1 !in NodesAll(Walked(views, trees, i, seen))
    ensures ChainFirst(views, Walked(views, trees, i, seen), p + 1)
    decreases p - i
  {
    if Skipped(views, i, seen) {
      NotWalked(views, trees, i + 1, seen, p);
    } else {
      var t := trees[i];
      var more := seen + Dealt(views, t);
      var rest := Walked(views, trees, i + 1, more);
      assert ([t] + rest)[1..] == rest && ([t] + rest)[0] == t && t.pageno in Nodes(t);
      if p + 1 !in Touches(views, t) {
        NotWalked(views, trees, i + 1, more, p);
        var t' :| t' in rest && t'.pageno < p + 1 && p + 1 in Touches(views, t');
        assert t' in [t] + rest;
      }
    }
  }

  /** Which leaf pages a run loses, exactly: those below no page that is walked, and such a page is one
      into which the run followed an overflow chain before it came to the page itself. */
  lemma LostIff(views: seq<PageView>, trees: seq<Tree>, p: nat)
    requires AllUnfold(views, trees) && p < |views| && views[p].LeafTable?
    ensures var walked := Walked(views, trees, 0, {});
            p + 1 !in Order(views, trees) <==> ChainFirst(views, walked, p + 1) && p + 1 !in NodesAll(walked)
  {
    WalkedUnfold(views, trees, 0, {});
    LeafIsListedAll(views, Walked(views, trees, 0, {}), p + 1);
    if p + 1 !in NodesAll(Walked(views, trees, 0, {})) {
      NotWalked(views, trees, 0, {}, p);
    }
  }

  /** A leaf page that is lost: a row of page 1 overflows into page 2, which is marked as checked, and no
      page leads to page 2. */
  lemma LostToAChain(cells: seq<Cell>, row: TableRow)
    ensures var views := [LeafTable([Cell([2], Reported(row))]), LeafTable(cells)];
            var w := ParseFrom(views, {}, 0, Fresh(2), 3);
            w.Done? && w.s.log == [row]
  {
    var cell := Cell([2], Reported(row));
    var views := [LeafTable([cell]), LeafTable(cells)];
    var one, two := Tree(1, []), Tree(2, []);
    assert [cell][1..] == [];
    assert 2 in CellTouches([cell]);
    assert Touches(views, one) == CellTouches([cell]);
    assert 2 in {} + Dealt(views, one);
    WholeLog(views, [one, two], 3);
    assert Walked(views, [one, two], 1, {} + Dealt(views, one)) == [];
    assert Walked(views, [one, two], 0, {}) == [one] + [] == [one];
    assert [one][1..] == [];
    assert LeavesAll(views, [one]) == [1];
    assert [1][1..] == [];
    assert CellRows([cell]) == [row];
    assert PageRows(views, [1]) == [row];
  }

  /** Leaf page 1 is walked on its own first, and then again below its parent, page 2: its rows are
      handed over twice. */
  lemma HandedOverTwice(cells: seq<Cell>)
    requires !exists c | c in cells :: 2 in c.acquired
    ensures var views := [LeafTable(cells), Inner([1])];
            var w := ParseFrom(views, {}, 0, Fresh(2), 3);
            w.Done? && w.s.log == CellRows(cells) + CellRows(cells)
  {
    var views := [LeafTable(cells), Inner([1])];
    var leaf := Tree(1, []);
    var top := Tree(2, [leaf]);
    var trees := [leaf, top];
    OneTree(views, leaf);
    NotTouched(cells, 2);
    assert 2 !in {} + Dealt(views, leaf);
    WholeLog(views, trees, 3);
    assert Walked(views, trees, 2, {} + Dealt(views, leaf) + Dealt(views, top)) == [];
    assert Walked(views, trees, 1, {} + Dealt(views, leaf)) == [top] + [];
    assert Walked(views, trees, 0, {}) == [leaf] + [top];
    TwoTrees(views, leaf, top);
    RowsOfAllLeaves(views, [leaf, top]);
    assert [leaf] + [top] == [leaf, top];
  }

  /** Leaf page 2 has a parent with a larger number, page 3; but page 1 leads to both, and its rows are
      handed over once. */
  lemma HandedOverOnce(cells: seq<Cell>)
    ensures var views := [Inner([3]), LeafTable(cells), Inner([2])];
            var w := ParseFrom(views, {}, 0, Fresh(3), 4);
            w.Done? && w.s.log == CellRows(cells)
  {
    var views := [Inner([3]), LeafTable(cells), Inner([2])];
    var leaf := Tree(2, []);
    var middle := Tree(3, [leaf]);
    var top := Tree(1, [middle]);
    var trees := [top, leaf, middle];
    OneTree(views, leaf);
    OneTree(views, middle);
    var seen := {} + Dealt(views, top);
    assert 2 in Nodes(leaf) && 2 in Nodes(middle) && 3 in Nodes(middle) && 2 in seen && 3 in seen;
    WholeLog(views, trees, 4);
    assert Walked(views, trees, 2, seen) == [];
    assert Walked(views, trees, 1, seen) == [];
    assert Walked(views, trees, 0, {}) == [top] + [] == [top];
    OneTree(views, top);
    RowsOfAllLeaves(views, [top]);
  }

  lemma {:induction false} NotTouched(cells: seq<Cell>, q: int)
    requires !exists c | c in cells :: q in c.acquired
    ensures q !in CellTouches(cells)
    decreases |cells|
  {
    if cells != [] {
      NotTouched(cells[1..], q);
    }
  }
}
