/** How often a whole run hands over the rows of a leaf page, and when exactly once. */
module OnceEach {
  import opened Cells
  import opened Pages
  import opened Walker
  import opened Extraction
  import opened Cancellation
  import opened WholeRun

  predicate IsKid(views: seq<PageView>, p: int, y: int) {
    ViewAt(views, p).Inner? && y in ViewAt(views, p).kids
  }

  /** Every page number stands on at most one interior page, and there only once. */
  ghost predicate OneParent(views: seq<PageView>) {
    && (forall p, q, y | IsKid(views, p, y) && IsKid(views, q, y) :: p == q)
    && forall p | 0 <= p < |views| && views[p].Inner? :: NoneTwice(views[p].kids)
  }

  predicate NoneTwice(kids: seq<int>) {
    forall i, j | 0 <= i < j < |kids| :: kids[i] != kids[j]
  }

  /** Children have larger numbers than their parents. */
  ghost predicate KidsLarger(views: seq<PageView>) {
    forall p, y | IsKid(views, p, y) :: p < y
  }

  // ---------- trees of such pages ----------

  lemma {:induction false} NodesLarger(views: seq<PageView>, t: Tree, q: int)
    requires KidsLarger(views) && Unfolds(views, t) && q in Nodes(t)
    ensures t.pageno <= q
    decreases t
  {
    if q != t.pageno {
      var root := AllNodesLarger(views, t.kids, q);
      assert IsKid(views, t.pageno, root);
    }
  }

  lemma {:induction false} AllNodesLarger(views: seq<PageView>, ts: seq<Tree>, q: int) returns (root: int)
    requires KidsLarger(views) && UnfoldsAll(views, ts) && q in NodesAll(ts)
    ensures root in Roots(ts) && root <= q
    decreases ts
  {
    if q in Nodes(ts[0]) {
      NodesLarger(views, ts[0], q);
      root := ts[0].pageno;
      assert Roots(ts)[0] == root;
    } else {
      root := AllNodesLarger(views, ts[1..], q);
      assert Roots(ts)[1..] == Roots(ts[1..]);
    }
  }

  /** A page in a tree is its root or has its parent there. */
  lemma {:induction false} HasParent(views: seq<PageView>, t: Tree, y: int) returns (q: int)
    requires Unfolds(views, t) && y in Nodes(t) && y != t.pageno
    ensures q in Nodes(t) && IsKid(views, q, y)
    decreases t
  {
    q := HasParentBelow(views, t.kids, y);
    if y in Roots(t.kids) { q := t.pageno; }
  }

  lemma {:induction false} HasParentBelow(views: seq<PageView>, ts: seq<Tree>, y: int) returns (q: int)
    requires UnfoldsAll(views, ts) && y in NodesAll(ts)
    ensures y in Roots(ts) || (q in NodesAll(ts) && IsKid(views, q, y))
    decreases ts
  {
    q := 0;
    if y in Nodes(ts[0]) {
      if y == ts[0].pageno {
        assert Roots(ts)[0] == y;
      } else {
        q := HasParent(views, ts[0], y);
      }
    } else {
      q := HasParentBelow(views, ts[1..], y);
      if y in Roots(ts[1..]) { assert Roots(ts)[1..] == Roots(ts[1..]); }
    }
  }

  /** Going down from pages outside a set, one enters it only through a page whose parent is outside. */
  ghost predicate ClosedUp(views: seq<PageView>, pagenos: set<int>, seen: set<int>) {
    forall q, y | q in pagenos && IsKid(views, q, y) && y in seen :: q in seen
  }

  lemma {:induction false} StaysOutside(views: seq<PageView>, t: Tree, seen: set<int>)
    requires Unfolds(views, t) && t.pageno !in seen && ClosedUp(views, Nodes(t), seen)
    ensures Nodes(t) !! seen
    decreases t
  {
    if ViewAt(views, t.pageno).Inner? {
      forall k | k in Roots(t.kids) ensures k !in seen {
        assert t.pageno in Nodes(t) && IsKid(views, t.pageno, k);
      }
      AllStayOutside(views, t.kids, seen);
    } else {
      assert NodesAll(t.kids) == {};
    }
  }

  lemma {:induction false} AllStayOutside(views: seq<PageView>, ts: seq<Tree>, seen: set<int>)
    requires UnfoldsAll(views, ts) && (forall k | k in Roots(ts) :: k !in seen) && ClosedUp(views, NodesAll(ts), seen)
    ensures NodesAll(ts) !! seen
    decreases ts
  {
    if ts != [] {
      assert Roots(ts)[0] == ts[0].pageno && Roots(ts)[1..] == Roots(ts[1..]);
      StaysOutside(views, ts[0], seen);
      AllStayOutside(views, ts[1..], seen);
    }
  }

  /** With one parent each, no page occurs twice in a tree. */
  lemma {:induction false} TreeDistinct(views: seq<PageView>, t: Tree)
    requires OneParent(views) && Unfolds(views, t)
    ensures Distinct(t)
    decreases t, |t.kids| + 1
  {
    if ViewAt(views, t.pageno).Inner? {
      assert t.kids[0..] == t.kids;
      KidsDistinct(views, t, 0);
    }
  }

  lemma {:induction false} KidsDistinct(views: seq<PageView>, t: Tree, k: nat)
    requires OneParent(views) && Unfolds(views, t) && ViewAt(views, t.pageno).Inner? && k <= |t.kids|
    ensures DistinctAll(t.kids[k..])
    decreases t, |t.kids| - k
  {
    if k < |t.kids| {
      var ts := t.kids[k..];
      assert ts[0] == t.kids[k] && ts[1..] == t.kids[k + 1..];
      KidsUnfold(views, t.kids, k);
      TreeDistinct(views, t.kids[k]);
      KidsDistinct(views, t, k + 1);
      SiblingsApart(views, t, k);
    }
  }

  lemma {:induction false} KidsUnfold(views: seq<PageView>, ts: seq<Tree>, k: nat)
    requires UnfoldsAll(views, ts) && k < |ts|
    ensures Unfolds(views, ts[k]) && UnfoldsAll(views, ts[k + 1..]) && Roots(ts[k + 1..]) == Roots(ts)[k + 1..]
    ensures Roots(ts)[k] == ts[k].pageno && Nodes(ts[k]) <= NodesAll(ts) && NodesAll(ts[k + 1..]) <= NodesAll(ts)
    decreases k
  {
    if k > 0 {
      KidsUnfold(views, ts[1..], k - 1);
      assert ts[1..][k - 1] == ts[k] && ts[1..][k..] == ts[k + 1..];
      assert Roots(ts)[1..] == Roots(ts[1..]);
    }
  }

  lemma SiblingsApart(views: seq<PageView>, t: Tree, k: nat)
    requires OneParent(views) && Unfolds(views, t) && ViewAt(views, t.pageno).Inner? && k < |t.kids|
    ensures Nodes(t.kids[k]) !! NodesAll(t.kids[k + 1..])
  {
    var a, rest := t.kids[k], t.kids[k + 1..];
    KidsUnfold(views, t.kids, k);
    NotBelowItself(views, t);
    var kids := ViewAt(views, t.pageno).kids;
    assert NoneTwice(kids);
    forall b | b in Roots(rest) ensures b !in Nodes(a) {
      var j :| 0 <= j < |Roots(rest)| && Roots(rest)[j] == b;
      assert b == kids[k + 1 + j] && a.pageno == kids[k];
      assert IsKid(views, t.pageno, b);
      if b in Nodes(a) { var q := HasParent(views, a, b); }
    }
    forall q, y | q in NodesAll(rest) && IsKid(views, q, y) && y in Nodes(a) ensures q in Nodes(a) {
      if y == a.pageno {
        assert kids[k] == y && IsKid(views, t.pageno, y);
      } else {
        var q' := HasParent(views, a, y);
      }
    }
    AllStayOutside(views, rest, Nodes(a));
  }

  /** In a tree without repetition a leaf page is listed once. */
  lemma {:induction false} ListedOnce(views: seq<PageView>, t: Tree, p: int)
    requires Unfolds(views, t) && Distinct(t) && ViewAt(views, p).LeafTable?
    ensures multiset(Leaves(views, t))[p] == if p in Nodes(t) then 1 else 0
    decreases t
  {
    if ViewAt(views, t.pageno).Inner? {
      AllListedOnce(views, t.kids, p);
    } else {
      assert NodesAll(t.kids) == {};
    }
  }

  lemma {:induction false} AllListedOnce(views: seq<PageView>, ts: seq<Tree>, p: int)
    requires UnfoldsAll(views, ts) && DistinctAll(ts) && ViewAt(views, p).LeafTable?
    ensures multiset(LeavesAll(views, ts))[p] == if p in NodesAll(ts) then 1 else 0
    decreases ts
  {
    if ts != [] {
      ListedOnce(views, ts[0], p);
      AllListedOnce(views, ts[1..], p);
      assert multiset(Leaves(views, ts[0]) + LeavesAll(views, ts[1..])) ==
             multiset(Leaves(views, ts[0])) + multiset(LeavesAll(views, ts[1..]));
    }
  }

  // ---------- the run ----------

  /** Page a leads to page p. */
  predicate Leads(trees: seq<Tree>, a: int, p: int) {
    1 <= a <= |trees| && p in Nodes(trees[a - 1])
  }

  /** No page with a smaller number leads to the page. */
  ghost predicate First(trees: seq<Tree>, a: int) {
    forall b | b < a :: !Leads(trees, b, a)
  }

  /** How often page p is listed in the trees of the pages from i + 1 on to which no page with a smaller
      number leads. */
  ghost function Visits(views: seq<PageView>, trees: seq<Tree>, i: nat, p: int): nat
    requires |trees| == |views|
    decreases |views| - i
  {
    if i >= |views| then 0
    else (if First(trees, i + 1) then multiset(Leaves(views, trees[i]))[p] else 0) + Visits(views, trees, i + 1, p)
  }

  /** The B-tree pages dealt with when the run comes to page i + 1: all those that a page before leads to. */
  ghost predicate SeenIs(views: seq<PageView>, trees: seq<Tree>, i: nat, seen: set<int>) {
    forall q | !Dud(ViewAt(views, q)) :: q in seen <==> exists b | b <= i :: Leads(trees, b, q)
  }

  lemma {:induction false} SubNodes(views: seq<PageView>, t: Tree, u: Tree)
    requires Unfolds(views, t) && Unfolds(views, u) && u.pageno in Nodes(t)
    ensures Nodes(u) <= Nodes(t)
    decreases t
  {
    if u.pageno == t.pageno {
      Unique(views, u, t);
    } else {
      AllSubNodes(views, t.kids, u);
    }
  }

  lemma {:induction false} AllSubNodes(views: seq<PageView>, ts: seq<Tree>, u: Tree)
    requires UnfoldsAll(views, ts) && Unfolds(views, u) && u.pageno in NodesAll(ts)
    ensures Nodes(u) <= NodesAll(ts)
    decreases ts
  {
    if u.pageno in Nodes(ts[0]) {
      SubNodes(views, ts[0], u);
    } else {
      AllSubNodes(views, ts[1..], u);
    }
  }

  lemma {:induction false} CellTouchesReached(views: seq<PageView>, cells: seq<Cell>, q: int)
    requires Reaching(views, cells) && q in CellTouches(cells)
    ensures Reached(views, q)
    decreases |cells|
  {
    hide Reached;
    if q !in cells[0].acquired {
      CellTouchesReached(views, cells[1..], q);
    }
  }

  lemma {:induction false} TouchesReached(views: seq<PageView>, t: Tree, q: int)
    requires q in Touches(views, t)
    ensures Reached(views, q)
    decreases t
  {
    match ViewAt(views, t.pageno)
    case Inner(_) => AllTouchesReached(views, t.kids, q);
    case LeafTable(cells) =>
      LeafReaches(views, t.pageno);
      CellTouchesReached(views, cells, q);
  }

  lemma {:induction false} AllTouchesReached(views: seq<PageView>, ts: seq<Tree>, q: int)
    requires q in TouchesAll(views, ts)
    ensures Reached(views, q)
    decreases ts
  {
    if q in Touches(views, ts[0]) {
      TouchesReached(views, ts[0], q);
    } else {
      AllTouchesReached(views, ts[1..], q);
    }
  }

  lemma DudIsBare(views: seq<PageView>, t: Tree)
    requires Unfolds(views, t) && Dud(ViewAt(views, t.pageno))
    ensures Leaves(views, t) == [] && Nodes(t) == {t.pageno}
  {
  }

  lemma TouchesAreDuds(views: seq<PageView>, t: Tree, q: int)
    requires Clean(views) && !Dud(ViewAt(views, q))
    ensures q !in Touches(views, t)
  {
    if q in Touches(views, t) { TouchesReached(views, t, q); }
  }

  /** The walk from a page to which no page before leads. */
  lemma SeenMore(views: seq<PageView>, trees: seq<Tree>, i: nat, seen: set<int>)
    requires Clean(views) && AllUnfold(views, trees) && i < |views| && SeenIs(views, trees, i, seen)
    ensures SeenIs(views, trees, i + 1, seen + Dealt(views, trees[i]))
  {
    var more := seen + Dealt(views, trees[i]);
    forall q | !Dud(ViewAt(views, q)) ensures q in more <==> exists b | b <= i + 1 :: Leads(trees, b, q) {
      TouchesAreDuds(views, trees[i], q);
      hide Clean, Unfolds, Touches, Dud;
      if q in seen {
        var b :| b <= i && Leads(trees, b, q);
      }
      assert Leads(trees, i + 1, q) <==> q in Nodes(trees[i]);
    }
  }

  /** The walk from a page that a page before leads to, or that does not open, is left out. */
  lemma SeenSame(views: seq<PageView>, trees: seq<Tree>, i: nat, seen: set<int>)
    requires AllUnfold(views, trees) && i < |views| && SeenIs(views, trees, i, seen) && Skipped(views, i, seen)
    ensures SeenIs(views, trees, i + 1, seen)
  {
    forall q | !Dud(ViewAt(views, q)) && Leads(trees, i + 1, q) ensures q in seen {
      if Dud(ViewAt(views, i + 1)) { DudIsBare(views, trees[i]); }
      var b :| b <= i && Leads(trees, b, i + 1);
      LeadsOn(views, trees, i + 1, b, q);
    }
    forall q | !Dud(ViewAt(views, q)) ensures q in seen <==> exists b | b <= i + 1 :: Leads(trees, b, q) {
      hide Unfolds, Dud, Skipped;
      if q in seen {
        var b :| b <= i && Leads(trees, b, q);
      }
    }
  }

  /** What leads to a page that leads to p, leads to p. */
  lemma LeadsOn(views: seq<PageView>, trees: seq<Tree>, a: int, b: int, p: int)
    requires AllUnfold(views, trees) && Leads(trees, b, a) && Leads(trees, a, p)
    ensures Leads(trees, b, p)
  {
    SubNodes(views, trees[b - 1], trees[a - 1]);
  }

  /** A page is walked from exactly if no page before leads to it, as far as leaf pages are concerned. */
  lemma VisitsStep(views: seq<PageView>, trees: seq<Tree>, i: nat, seen: set<int>, p: int)
    requires AllUnfold(views, trees) && i < |views| && SeenIs(views, trees, i, seen)
    ensures Visits(views, trees, i, p) ==
            (if Skipped(views, i, seen) then 0 else multiset(Leaves(views, trees[i]))[p]) +
            Visits(views, trees, i + 1, p)
  {
    if Dud(ViewAt(views, i + 1)) {
      DudIsBare(views, trees[i]);
    } else {
      assert i + 1 in seen <==> !First(trees, i + 1);
    }
  }

  lemma LeavesOfMore(views: seq<PageView>, t: Tree, rest: seq<Tree>, p: int)
    ensures multiset(LeavesAll(views, [t] + rest))[p] ==
            multiset(Leaves(views, t))[p] + multiset(LeavesAll(views, rest))[p]
  {
    assert ([t] + rest)[1..] == rest;
    assert multiset(Leaves(views, t) + LeavesAll(views, rest)) ==
           multiset(Leaves(views, t)) + multiset(LeavesAll(views, rest));
  }

  /** One step of the run, counting the times page p is listed. */
  lemma ListedStep(views: seq<PageView>, trees: seq<Tree>, i: nat, seen: set<int>, p: int)
    requires i < |views| == |trees|
    ensures multiset(LeavesAll(views, Walked(views, trees, i, seen)))[p] ==
            if Skipped(views, i, seen) then multiset(LeavesAll(views, Walked(views, trees, i + 1, seen)))[p]
            else
              multiset(Leaves(views, trees[i]))[p] +
              multiset(LeavesAll(views, Walked(views, trees, i + 1, seen + Dealt(views, trees[i]))))[p]
  {
    LeavesOfMore(views, trees[i], Walked(views, trees, i + 1, seen + Dealt(views, trees[i])), p);
    hide Skipped, Dealt, LeavesAll, Leaves;
  }

  lemma NoneVisited(views: seq<PageView>, trees: seq<Tree>, seen: set<int>, p: int)
    requires |trees| == |views|
    ensures multiset(LeavesAll(views, Walked(views, trees, |views|, seen)))[p] == 0
    ensures Visits(views, trees, |views|, p) == 0
  {
  }

  lemma {:induction false} HowOftenFrom(views: seq<PageView>, trees: seq<Tree>, i: nat, seen: set<int>, p: int)
    requires |trees| == |views| && i <= |views|
    requires Clean(views) && AllUnfold(views, trees) && SeenIs(views, trees, i, seen)
    ensures multiset(LeavesAll(views, Walked(views, trees, i, seen)))[p] == Visits(views, trees, i, p)
    decreases |views| - i
  {
    hide *;
    if i == |views| {
      NoneVisited(views, trees, seen, p);
    } else {
      VisitsStep(views, trees, i, seen, p);
      ListedStep(views, trees, i, seen, p);
      if Skipped(views, i, seen) {
        SeenSame(views, trees, i, seen);
        HowOftenFrom(views, trees, i + 1, seen, p);
      } else {
        SeenMore(views, trees, i, seen);
        HowOftenFrom(views, trees, i + 1, seen + Dealt(views, trees[i]), p);
      }
    }
  }

  /** How often the rows of a leaf page are handed over: as often as it is listed in the trees of the
      pages to which no page with a smaller number leads. */
  lemma HowOften(views: seq<PageView>, trees: seq<Tree>, p: int)
    requires Clean(views) && AllUnfold(views, trees)
    ensures multiset(Order(views, trees))[p] == Visits(views, trees, 0, p)
  {
    assert SeenIs(views, trees, 0, {});
    HowOftenFrom(views, trees, 0, {}, p);
  }

  // ---------- the pages that lead to a leaf page, where no page has two parents ----------

  /** The page stands on no interior page. */
  ghost predicate Top(views: seq<PageView>, a: int) {
    forall q :: !IsKid(views, q, a)
  }

  /** Of the pages that lead to page p, the one that stands on no interior page has the smallest number. */
  ghost predicate TopFirst(views: seq<PageView>, trees: seq<Tree>, p: int) {
    forall a, b | Leads(trees, a, p) && Top(views, a) && Leads(trees, b, p) :: a <= b
  }

  /** The children of a page in a tree are in the tree. */
  lemma KidsInside(views: seq<PageView>, trees: seq<Tree>, t: Tree, q: int, y: int)
    requires AllUnfold(views, trees) && Unfolds(views, t) && q in Nodes(t) && IsKid(views, q, y)
    ensures y in Nodes(t)
  {
    SubNodes(views, t, trees[q - 1]);
    RootsAreNodes(trees[q - 1].kids, y);
  }

  /** Of two pages that lead to the same page, one leads to the other. */
  lemma Chain(views: seq<PageView>, trees: seq<Tree>, a: int, b: int, p: int)
    requires AllUnfold(views, trees) && OneParent(views) && Leads(trees, a, p) && Leads(trees, b, p)
    ensures Leads(trees, a, b) || Leads(trees, b, a)
  {
    var s, t := trees[a - 1], trees[b - 1];
    if a !in Nodes(t) && b !in Nodes(s) {
      forall q, y | q in Nodes(s) && IsKid(views, q, y) && y in Nodes(t) ensures q in Nodes(t) {
        if y == b {
          KidsInside(views, trees, s, q, y);
        } else {
          var q' := HasParent(views, t, y);
        }
      }
      StaysOutside(views, s, Nodes(t));
    }
  }

  /** A page that another one leads to has a parent. */
  lemma NotTop(views: seq<PageView>, trees: seq<Tree>, a: int, b: int)
    requires AllUnfold(views, trees) && a != b && Leads(trees, b, a)
    ensures !Top(views, a)
  {
    var q := HasParent(views, trees[b - 1], a);
  }

  /** Some page that stands on no interior page leads to p. */
  lemma {:induction false} FindTop(views: seq<PageView>, trees: seq<Tree>, a: int, p: int) returns (top: int)
    requires AllUnfold(views, trees) && Leads(trees, a, p)
    ensures Leads(trees, top, p) && Top(views, top)
    decreases |views| + 1 - Depth(trees[a - 1])
  {
    if Top(views, a) {
      top := a;
    } else {
      var q :| IsKid(views, q, a);
      var t := trees[q - 1];
      DepthSmall(views, t);
      RootsAreNodes(t.kids, a);
      var u := FindNode(views, t.kids, a);
      Unique(views, u, trees[a - 1]);
      LeadsOn(views, trees, a, q, p);
      top := FindTop(views, trees, q, p);
    }
  }

  /** The first page that leads to p. */
  lemma {:induction false} FindFirst(trees: seq<Tree>, a: int, p: int) returns (first: int)
    requires Leads(trees, a, p)
    ensures Leads(trees, first, p) && first <= a && forall b | Leads(trees, b, p) :: first <= b
    decreases a
  {
    if b :| b < a && Leads(trees, b, p) {
      first := FindFirst(trees, b, p);
    } else {
      first := a;
    }
  }

  /** With one parent each, a leaf page is listed once in a tree that holds it. */
  lemma ListedIffLeads(views: seq<PageView>, trees: seq<Tree>, a: int, p: int)
    requires AllUnfold(views, trees) && OneParent(views) && ViewAt(views, p).LeafTable? && 1 <= a <= |views|
    ensures multiset(Leaves(views, trees[a - 1]))[p] == if Leads(trees, a, p) then 1 else 0
  {
    TreeDistinct(views, trees[a - 1]);
    ListedOnce(views, trees[a - 1], p);
  }

  lemma {:induction false} VisitsSome(views: seq<PageView>, trees: seq<Tree>, i: nat, p: int, a: int)
    requires AllUnfold(views, trees) && OneParent(views) && ViewAt(views, p).LeafTable?
    requires Leads(trees, a, p) && First(trees, a) && i < a <= |views|
    ensures Visits(views, trees, i, p) >= 1
    decreases |views| - i
  {
    hide First, Leads, OneParent;
    if i + 1 == a {
      ListedIffLeads(views, trees, a, p);
    } else {
      VisitsSome(views, trees, i + 1, p, a);
    }
  }

  lemma {:induction false} VisitsTwo(views: seq<PageView>, trees: seq<Tree>, i: nat, p: int, a: int, b: int)
    requires AllUnfold(views, trees) && OneParent(views) && ViewAt(views, p).LeafTable? && i < a < b <= |views|
    requires Leads(trees, a, p) && First(trees, a) && Leads(trees, b, p) && First(trees, b)
    ensures Visits(views, trees, i, p) >= 2
    decreases |views| - i
  {
    hide First, Leads, OneParent;
    if i + 1 == a {
      ListedIffLeads(views, trees, a, p);
      VisitsSome(views, trees, i + 1, p, b);
    } else {
      VisitsTwo(views, trees, i + 1, p, a, b);
    }
  }

  lemma {:induction false} VisitsUnique(views: seq<PageView>, trees: seq<Tree>, i: nat, p: int, top: int)
    requires AllUnfold(views, trees) && OneParent(views) && ViewAt(views, p).LeafTable?
    requires forall a | Leads(trees, a, p) && First(trees, a) :: a == top
    ensures Visits(views, trees, i, p) <= (if i < top then 1 else 0)
    decreases |views| - i
  {
    hide First, Leads, OneParent;
    if i < |views| {
      ListedIffLeads(views, trees, i + 1, p);
      VisitsUnique(views, trees, i + 1, p, top);
    }
  }

  /** The run walks from the page on no interior page that leads to p, and from the first page that does. */
  lemma BothFirst(views: seq<PageView>, trees: seq<Tree>, top: int, first: int, p: int)
    requires AllUnfold(views, trees) && Leads(trees, top, p) && Top(views, top)
    requires Leads(trees, first, p) && forall b | Leads(trees, b, p) :: first <= b
    ensures First(trees, top) && First(trees, first)
  {
    forall b | b < top ensures !Leads(trees, b, top) {
      if Leads(trees, b, top) { NotTop(views, trees, top, b); }
    }
    forall b | b < first ensures !Leads(trees, b, first) {
      if Leads(trees, b, first) { LeadsOn(views, trees, first, b, p); }
    }
  }

  lemma OnlyTop(views: seq<PageView>, trees: seq<Tree>, top: int, a: int, p: int)
    requires AllUnfold(views, trees) && OneParent(views) && TopFirst(views, trees, p)
    requires Leads(trees, top, p) && Top(views, top) && Leads(trees, a, p) && First(trees, a)
    ensures a == top
  {
    assert top <= a;
    if top < a {
      Chain(views, trees, a, top, p);
      if Leads(trees, a, top) { NotTop(views, trees, top, a); }
    }
  }

  lemma NotTopFirst(views: seq<PageView>, trees: seq<Tree>, top: int, first: int, p: int)
    requires AllUnfold(views, trees) && OneParent(views) && !TopFirst(views, trees, p)
    requires Leads(trees, top, p) && Top(views, top) && forall b | Leads(trees, b, p) :: first <= b
    ensures first < top
  {
    var a, b :| Leads(trees, a, p) && Top(views, a) && Leads(trees, b, p) && b < a;
    Chain(views, trees, a, top, p);
    if a != top {
      if Leads(trees, a, top) { NotTop(views, trees, top, a); } else { NotTop(views, trees, a, top); }
    }
  }

  /** Where every page stands on one interior page at most, a whole run hands over the rows of every leaf
      page, and exactly once if and only if, of the pages that lead to the leaf page, the one that stands
      on no interior page has the smallest number. */
  lemma OnceIff(views: seq<PageView>, trees: seq<Tree>, p: int)
    requires Clean(views) && AllUnfold(views, trees) && OneParent(views) && ViewAt(views, p).LeafTable?
    ensures multiset(Order(views, trees))[p] >= 1
    ensures multiset(Order(views, trees))[p] == 1 <==> TopFirst(views, trees, p)
  {
    HowOften(views, trees, p);
    assert Leads(trees, p, p);
    var top := FindTop(views, trees, p, p);
    var first := FindFirst(trees, p, p);
    BothFirst(views, trees, top, first, p);
    VisitsSome(views, trees, 0, p, top);
    if TopFirst(views, trees, p) {
      forall a | Leads(trees, a, p) && First(trees, a) ensures a == top {
        OnlyTop(views, trees, top, a, p);
      }
      VisitsUnique(views, trees, 0, p, top);
    } else {
      NotTopFirst(views, trees, top, first, p);
      VisitsTwo(views, trees, 0, p, first, top);
    }
  }

  /** Where children have larger numbers than their parents besides, every leaf page's rows are handed
      over exactly once. */
  lemma EachOnce(views: seq<PageView>, trees: seq<Tree>, p: int)
    requires Clean(views) && AllUnfold(views, trees) && OneParent(views) && KidsLarger(views)
    requires ViewAt(views, p).LeafTable?
    ensures multiset(Order(views, trees))[p] == 1
  {
    forall a, b | Leads(trees, a, p) && Top(views, a) && Leads(trees, b, p) ensures a <= b {
      Chain(views, trees, a, b, p);
      if Leads(trees, a, b) {
        NodesLarger(views, trees[a - 1], b);
      } else {
        NotTop(views, trees, a, b);
      }
    }
    OnceIff(views, trees, p);
  }
}
