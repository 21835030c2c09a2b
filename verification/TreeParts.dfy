/** What lies under a part of a parse tree, field by field, and that the walk comes to exactly that. */
module TreeParts {
  import opened ParseTrees

  datatype Part =
    | ExprPart(e: Expr)
    | ItemPart(item: Item)
    | SelectPart(s: Select)
    | UpsertPart(u: Upsert)
    | StepPart(step: TriggerStep)

  /** A field of the one part holds the other.  What hangs below an expression marked as a token or a leaf
      is none of its fields. */
  predicate Holds(a: Part, b: Part) {
    match a
    case ExprPart(e) => e.Expr? && !e.leaf && HoldsInExpr(e, b)
    case ItemPart(item) =>
      || b == SelectPart(item.pSelect)
      || b == ExprPart(item.pOn)
      || (item.isTabFunc && b.ExprPart? && b.e in item.pFuncArg)
    case SelectPart(s) => s.Select? && HoldsInSelect(s, b)
    case UpsertPart(u) =>
      && u.Upsert? && b.ExprPart?
      && (b.e in u.pTarget || b.e == u.pTargetWhere || b.e in u.pSet || b.e == u.pWhere)
    case StepPart(step) =>
      && step.TriggerStep?
      && (|| b == SelectPart(step.pSelect)
          || b == ExprPart(step.pWhere)
          || (b.ExprPart? && b.e in step.pExprList)
          || b == UpsertPart(step.pUpsert)
          || b == StepPart(step.pNext))
  }

  predicate HoldsInExpr(e: Expr, b: Part)
    requires e.Expr?
  {
    || (e.x.Query? && b == SelectPart(e.x.pSelect))
    || (e.x.List? && b.ExprPart? && b.e in e.x.pList)
    || b == ExprPart(e.pRight)
    || b == ExprPart(e.pLeft)
  }

  predicate HoldsInSelect(s: Select, b: Part)
    requires s.Select?
  {
    match b
    case ExprPart(e) =>
      || e in s.pEList || e == s.pWhere || e in s.pGroupBy || e == s.pHaving || e in s.pOrderBy || e == s.pLimit
    case ItemPart(item) => item in s.pSrc
    case SelectPart(t) => t in s.pWith || t == s.pPrior
    case _ => false
  }

  /** The part itself is what the visit is to. */
  predicate IsAt(a: Part, v: Visit) {
    match a
    case ExprPart(e) => e.Expr? && v == AtExpr(e.id)
    case ItemPart(item) => v == AtItem(item.id)
    case _ => false
  }

  /** From the one part to the other it is n fields down. */
  ghost predicate Down(a: Part, b: Part, n: nat)
    decreases n
  {
    if n == 0 then a == b else exists c :: Holds(a, c) && Down(c, b, n - 1)
  }

  /** An item or an expression with this number lies under the part, or is it. */
  ghost predicate Under(a: Part, v: Visit) {
    exists b, n: nat :: Down(a, b, n) && IsAt(b, v)
  }

  /** What the walk comes to. */
  function Of(a: Part): seq<Visit> {
    match a
    case ExprPart(e) => OfExpr(e)
    case ItemPart(item) => OfItem(item)
    case SelectPart(s) => OfSelect(s)
    case UpsertPart(u) => OfUpsert(u)
    case StepPart(step) => OfSteps(step)
  }

  // ---------- the walk comes to all that lies under a part ----------

  lemma {:induction false} InExprs(list: seq<Expr>, e: Expr, v: Visit)
    requires e in list && v in OfExpr(e)
    ensures v in OfExprs(list)
    decreases |list|
  {
    if list[0] != e { InExprs(list[1..], e, v); }
  }

  lemma {:induction false} InItems(list: seq<Item>, item: Item, v: Visit)
    requires item in list && v in OfItem(item)
    ensures v in OfItems(list)
    decreases |list|
  {
    if list[0] != item { InItems(list[1..], item, v); }
  }

  lemma {:induction false} InSelects(list: seq<Select>, s: Select, v: Visit)
    requires s in list && v in OfSelect(s)
    ensures v in OfSelects(list)
    decreases |list|
  {
    if list[0] != s { InSelects(list[1..], s, v); }
  }

  /** What the walk comes to from a field it comes to from the whole. */
  lemma FieldIsWalked(a: Part, b: Part, v: Visit)
    requires Holds(a, b) && v in Of(b)
    ensures v in Of(a)
  {
    match a
    case ExprPart(e) =>
      if e.x.List? && b.ExprPart? && b.e in e.x.pList { InExprs(e.x.pList, b.e, v); }
      assert v in OfOperands(e.x) || v in OfExpr(e.pRight) || v in OfExpr(e.pLeft);
    case ItemPart(item) => if b.ExprPart? && b.e in item.pFuncArg { InExprs(item.pFuncArg, b.e, v); }
    case SelectPart(s) => SelectField(s, b, v);
    case UpsertPart(u) =>
      if b.e in u.pTarget { InExprs(u.pTarget, b.e, v); }
      if b.e in u.pSet { InExprs(u.pSet, b.e, v); }
    case StepPart(step) => if b.ExprPart? && b.e in step.pExprList { InExprs(step.pExprList, b.e, v); }
  }

  lemma SelectField(s: Select, b: Part, v: Visit)
    requires s.Select? && HoldsInSelect(s, b) && v in Of(b)
    ensures v in OfSelect(s)
  {
    match b
    case ExprPart(e) =>
      if e in s.pEList { InExprs(s.pEList, e, v); }
      if e in s.pGroupBy { InExprs(s.pGroupBy, e, v); }
      if e in s.pOrderBy { InExprs(s.pOrderBy, e, v); }
    case ItemPart(item) => InItems(s.pSrc, item, v);
    case SelectPart(t) => if t in s.pWith { InSelects(s.pWith, t, v); }
  }

  lemma {:induction false} DownIsWalked(a: Part, b: Part, n: nat, v: Visit)
    requires Down(a, b, n) && IsAt(b, v)
    ensures v in Of(a)
    decreases n
  {
    if n > 0 {
      var c :| Holds(a, c) && Down(c, b, n - 1);
      DownIsWalked(c, b, n - 1, v);
      FieldIsWalked(a, c, v);
    }
  }

  // ---------- and to nothing else ----------

  lemma UnderField(a: Part, b: Part, v: Visit)
    requires Holds(a, b) && Under(b, v)
    ensures Under(a, v)
  {
    var c, n: nat :| Down(b, c, n) && IsAt(c, v);
    assert Down(a, c, n + 1);
  }

  lemma UnderSelf(a: Part, v: Visit)
    requires IsAt(a, v)
    ensures Under(a, v)
  {
    assert Down(a, a, 0);
  }

  lemma {:induction false} ExprIsUnder(e: Expr, v: Visit)
    requires v in OfExpr(e)
    ensures Under(ExprPart(e), v)
    decreases e
  {
    var a := ExprPart(e);
    hide Under;
    if v == AtExpr(e.id) {
      UnderSelf(a, v);
    } else if v in OfExpr(e.pRight) {
      ExprIsUnder(e.pRight, v);
      UnderField(a, ExprPart(e.pRight), v);
    } else if v in OfExpr(e.pLeft) {
      ExprIsUnder(e.pLeft, v);
      UnderField(a, ExprPart(e.pLeft), v);
    } else if e.x.Query? {
      SelectIsUnder(e.x.pSelect, v);
      UnderField(a, SelectPart(e.x.pSelect), v);
    } else {
      var f := OneIsUnder(e.x.pList, v);
      UnderField(a, ExprPart(f), v);
    }
  }

  lemma {:induction false} OneIsUnder(list: seq<Expr>, v: Visit) returns (e: Expr)
    requires v in OfExprs(list)
    ensures e in list && Under(ExprPart(e), v)
    decreases list
  {
    if v in OfExpr(list[0]) {
      e := list[0];
      ExprIsUnder(e, v);
    } else {
      e := OneIsUnder(list[1..], v);
    }
  }

  lemma {:induction false} ItemIsUnder(item: Item, v: Visit)
    requires v in OfItem(item)
    ensures Under(ItemPart(item), v)
    decreases item
  {
    var a := ItemPart(item);
    hide Under;
    if v == AtItem(item.id) {
      UnderSelf(a, v);
    } else if v in OfSelect(item.pSelect) {
      SelectIsUnder(item.pSelect, v);
      UnderField(a, SelectPart(item.pSelect), v);
    } else if v in OfExpr(item.pOn) {
      ExprIsUnder(item.pOn, v);
      UnderField(a, ExprPart(item.pOn), v);
    } else {
      var e := OneIsUnder(item.pFuncArg, v);
      UnderField(a, ExprPart(e), v);
    }
  }

  lemma {:induction false} OneItemIsUnder(list: seq<Item>, v: Visit) returns (item: Item)
    requires v in OfItems(list)
    ensures item in list && Under(ItemPart(item), v)
    decreases list
  {
    if v in OfItem(list[0]) {
      item := list[0];
      ItemIsUnder(item, v);
    } else {
      item := OneItemIsUnder(list[1..], v);
    }
  }

  lemma {:induction false} OneSelectIsUnder(list: seq<Select>, v: Visit) returns (s: Select)
    requires v in OfSelects(list)
    ensures s in list && Under(SelectPart(s), v)
    decreases list
  {
    if v in OfSelect(list[0]) {
      s := list[0];
      SelectIsUnder(s, v);
    } else {
      s := OneSelectIsUnder(list[1..], v);
    }
  }

  lemma {:induction false} SelectIsUnder(s: Select, v: Visit)
    requires v in OfSelect(s)
    ensures Under(SelectPart(s), v)
    decreases s
  {
    var a := SelectPart(s);
    hide Under;
    if v in OfSelect(s.pPrior) {
      SelectIsUnder(s.pPrior, v);
      UnderField(a, SelectPart(s.pPrior), v);
    } else if v in OfSelects(s.pWith) {
      var t := OneSelectIsUnder(s.pWith, v);
      UnderField(a, SelectPart(t), v);
    } else if v in OfItems(s.pSrc) {
      var item := OneItemIsUnder(s.pSrc, v);
      UnderField(a, ItemPart(item), v);
    } else if v in OfExprs(s.pEList) {
      var e := OneIsUnder(s.pEList, v);
      UnderField(a, ExprPart(e), v);
    } else if v in OfExprs(s.pGroupBy) {
      var e := OneIsUnder(s.pGroupBy, v);
      UnderField(a, ExprPart(e), v);
    } else if v in OfExprs(s.pOrderBy) {
      var e := OneIsUnder(s.pOrderBy, v);
      UnderField(a, ExprPart(e), v);
    } else {
      var e := if v in OfExpr(s.pWhere) then s.pWhere else if v in OfExpr(s.pHaving) then s.pHaving else s.pLimit;
      ExprIsUnder(e, v);
      UnderField(a, ExprPart(e), v);
    }
  }

  lemma UpsertIsUnder(u: Upsert, v: Visit)
    requires v in OfUpsert(u)
    ensures Under(UpsertPart(u), v)
  {
    var a := UpsertPart(u);
    hide Under;
    if v in OfExprs(u.pTarget) {
      var e := OneIsUnder(u.pTarget, v);
      UnderField(a, ExprPart(e), v);
    } else if v in OfExprs(u.pSet) {
      var e := OneIsUnder(u.pSet, v);
      UnderField(a, ExprPart(e), v);
    } else {
      var e := if v in OfExpr(u.pTargetWhere) then u.pTargetWhere else u.pWhere;
      ExprIsUnder(e, v);
      UnderField(a, ExprPart(e), v);
    }
  }

  lemma {:induction false} StepIsUnder(step: TriggerStep, v: Visit)
    requires v in OfSteps(step)
    ensures Under(StepPart(step), v)
    decreases step
  {
    var a := StepPart(step);
    hide Under;
    if v in OfSteps(step.pNext) {
      StepIsUnder(step.pNext, v);
      UnderField(a, StepPart(step.pNext), v);
    } else if v in OfSelect(step.pSelect) {
      SelectIsUnder(step.pSelect, v);
      UnderField(a, SelectPart(step.pSelect), v);
    } else if v in OfExpr(step.pWhere) {
      ExprIsUnder(step.pWhere, v);
      UnderField(a, ExprPart(step.pWhere), v);
    } else if v in OfExprs(step.pExprList) {
      var e := OneIsUnder(step.pExprList, v);
      UnderField(a, ExprPart(e), v);
    } else {
      UpsertIsUnder(step.pUpsert, v);
      UnderField(a, UpsertPart(step.pUpsert), v);
    }
  }

  /** The walk from a part comes to exactly what lies under it. */
  lemma WalkedIsUnder(a: Part, v: Visit)
    ensures v in Of(a) <==> Under(a, v)
  {
    if v in Of(a) {
      match a
      case ExprPart(e) => ExprIsUnder(e, v);
      case ItemPart(item) => ItemIsUnder(item, v);
      case SelectPart(s) => SelectIsUnder(s, v);
      case UpsertPart(u) => UpsertIsUnder(u, v);
      case StepPart(step) => StepIsUnder(step, v);
    }
    if Under(a, v) {
      var b, n: nat :| Down(a, b, n) && IsAt(b, v);
      DownIsWalked(a, b, n, v);
    }
  }

  // ---------- the order of the walk ----------

  function ExprParts(list: seq<Expr>): seq<Part> {
    if list == [] then [] else [ExprPart(list[0])] + ExprParts(list[1..])
  }

  function ItemParts(list: seq<Item>): seq<Part> {
    if list == [] then [] else [ItemPart(list[0])] + ItemParts(list[1..])
  }

  function SelectParts(list: seq<Select>): seq<Part> {
    if list == [] then [] else [SelectPart(list[0])] + SelectParts(list[1..])
  }

  /** The fields of a part, in order. */
  function FieldsOf(a: Part): seq<Part> {
    match a
    case ExprPart(e) =>
      if e.NoExpr? || e.leaf then []
      else
        (match e.x
         case Query(select) => [SelectPart(select)]
         case List(list) => ExprParts(list)) + [ExprPart(e.pRight), ExprPart(e.pLeft)]
    case ItemPart(item) =>
      [SelectPart(item.pSelect), ExprPart(item.pOn)] + if item.isTabFunc then ExprParts(item.pFuncArg) else []
    case SelectPart(s) =>
      if s.NoSelect? then []
      else
        ExprParts(s.pEList) + ItemParts(s.pSrc) + [ExprPart(s.pWhere)] + ExprParts(s.pGroupBy) +
        [ExprPart(s.pHaving)] + ExprParts(s.pOrderBy) + [ExprPart(s.pLimit)] + SelectParts(s.pWith) +
        [SelectPart(s.pPrior)]
    case UpsertPart(u) =>
      if u.NoUpsert? then []
      else ExprParts(u.pTarget) + [ExprPart(u.pTargetWhere)] + ExprParts(u.pSet) + [ExprPart(u.pWhere)]
    case StepPart(step) =>
      if step.NoStep? then []
      else
        [SelectPart(step.pSelect), ExprPart(step.pWhere)] + ExprParts(step.pExprList) +
        [UpsertPart(step.pUpsert), StepPart(step.pNext)]
  }

  lemma {:induction false} InExprParts(list: seq<Expr>, b: Part)
    ensures b in ExprParts(list) <==> b.ExprPart? && b.e in list
    decreases |list|
  {
    if list != [] { InExprParts(list[1..], b); }
  }

  lemma {:induction false} InItemParts(list: seq<Item>, b: Part)
    ensures b in ItemParts(list) <==> b.ItemPart? && b.item in list
    decreases |list|
  {
    if list != [] { InItemParts(list[1..], b); }
  }

  lemma {:induction false} InSelectParts(list: seq<Select>, b: Part)
    ensures b in SelectParts(list) <==> b.SelectPart? && b.s in list
    decreases |list|
  {
    if list != [] { InSelectParts(list[1..], b); }
  }

  /** The fields in order are the fields. */
  lemma FieldsAreHeld(a: Part, b: Part)
    ensures b in FieldsOf(a) <==> Holds(a, b)
  {
    hide ExprParts, ItemParts, SelectParts;
    match a
    case ExprPart(e) => if e.Expr? && e.x.List? { InExprParts(e.x.pList, b); }
    case ItemPart(item) => InExprParts(item.pFuncArg, b);
    case SelectPart(s) =>
      if s.Select? {
        InExprParts(s.pEList, b);
        InItemParts(s.pSrc, b);
        InExprParts(s.pGroupBy, b);
        InExprParts(s.pOrderBy, b);
        InSelectParts(s.pWith, b);
      }
    case UpsertPart(u) =>
      if u.Upsert? {
        InExprParts(u.pTarget, b);
        InExprParts(u.pSet, b);
      }
    case StepPart(step) => if step.TriggerStep? { InExprParts(step.pExprList, b); }
  }

  function Own(a: Part): seq<Visit> {
    match a
    case ExprPart(e) => if e.Expr? then [AtExpr(e.id)] else []
    case ItemPart(item) => [AtItem(item.id)]
    case _ => []
  }

  function OfAll(parts: seq<Part>): seq<Visit> {
    if parts == [] then [] else Of(parts[0]) + OfAll(parts[1..])
  }

  lemma {:induction false} OfAllConcat(a: seq<Part>, b: seq<Part>)
    ensures OfAll(a + b) == OfAll(a) + OfAll(b)
    decreases |a|
  {
    hide Of;
    if a == [] {
      assert a + b == b;
    } else {
      OfAllConcat(a[1..], b);
      assert (a + b)[0] == a[0] && (a + b)[1..] == a[1..] + b;
    }
  }

  lemma OfOne(a: Part)
    ensures OfAll([a]) == Of(a)
  {
    hide Of;
    assert [a][1..] == [];
  }

  lemma OfTwo(a: Part, b: Part)
    ensures OfAll([a, b]) == Of(a) + Of(b)
  {
    hide Of;
    assert [a, b][1..] == [b];
    OfOne(b);
  }

  lemma {:induction false} OfExprParts(list: seq<Expr>)
    ensures OfAll(ExprParts(list)) == OfExprs(list)
    decreases |list|
  {
    hide OfExpr;
    if list != [] {
      OfExprParts(list[1..]);
      assert ExprParts(list)[1..] == ExprParts(list[1..]);
    }
  }

  lemma {:induction false} OfItemParts(list: seq<Item>)
    ensures OfAll(ItemParts(list)) == OfItems(list)
    decreases |list|
  {
    hide OfItem;
    if list != [] {
      OfItemParts(list[1..]);
      assert ItemParts(list)[1..] == ItemParts(list[1..]);
    }
  }

  lemma {:induction false} OfSelectParts(list: seq<Select>)
    ensures OfAll(SelectParts(list)) == OfSelects(list)
    decreases |list|
  {
    hide OfSelect;
    if list != [] {
      OfSelectParts(list[1..]);
      assert SelectParts(list)[1..] == SelectParts(list[1..]);
    }
  }

  /** The walk goes through a part in order: first itself, then its fields. */
  lemma InFieldOrder(a: Part)
    ensures Of(a) == Own(a) + OfAll(FieldsOf(a))
  {
    match a
    case ExprPart(e) => ExprInOrder(e);
    case ItemPart(item) => ItemInOrder(item);
    case SelectPart(s) => SelectInOrder(s);
    case UpsertPart(u) => UpsertInOrder(u);
    case StepPart(step) => StepInOrder(step);
  }

  lemma ExprInOrder(e: Expr)
    ensures var a := ExprPart(e); Of(a) == Own(a) + OfAll(FieldsOf(a))
  {
    if e.Expr? && !e.leaf {
      var first := match e.x case Query(select) => [SelectPart(select)] case List(list) => ExprParts(list);
      OfAllConcat(first, [ExprPart(e.pRight), ExprPart(e.pLeft)]);
      OfTwo(ExprPart(e.pRight), ExprPart(e.pLeft));
      if e.x.List? {
        OfExprParts(e.x.pList);
      } else {
        assert first == [SelectPart(e.x.pSelect)];
        OfOne(SelectPart(e.x.pSelect));
      }
      assert OfAll(first) == OfOperands(e.x);
      assert FieldsOf(ExprPart(e)) == first + [ExprPart(e.pRight), ExprPart(e.pLeft)];
    }
  }

  lemma ItemInOrder(item: Item)
    ensures var a := ItemPart(item); Of(a) == Own(a) + OfAll(FieldsOf(a))
  {
    var args := if item.isTabFunc then ExprParts(item.pFuncArg) else [];
    OfAllConcat([SelectPart(item.pSelect), ExprPart(item.pOn)], args);
    OfTwo(SelectPart(item.pSelect), ExprPart(item.pOn));
    OfExprParts(item.pFuncArg);
  }

  lemma SelectInOrder(s: Select)
    ensures var a := SelectPart(s); Of(a) == Own(a) + OfAll(FieldsOf(a))
  {
    if s.Select? {
      var p1 := ExprParts(s.pEList);
      var p2 := p1 + ItemParts(s.pSrc);
      var p3 := p2 + [ExprPart(s.pWhere)];
      var p4 := p3 + ExprParts(s.pGroupBy);
      var p5 := p4 + [ExprPart(s.pHaving)];
      var p6 := p5 + ExprParts(s.pOrderBy);
      var p7 := p6 + [ExprPart(s.pLimit)];
      var p8 := p7 + SelectParts(s.pWith);
      assert FieldsOf(SelectPart(s)) == p8 + [SelectPart(s.pPrior)];
      assert Of(SelectPart(s)) == OfOneSelect(s) + Of(SelectPart(s.pPrior));
      assert Of(ExprPart(s.pWhere)) == OfExpr(s.pWhere) && Of(ExprPart(s.pHaving)) == OfExpr(s.pHaving);
      assert Of(ExprPart(s.pLimit)) == OfExpr(s.pLimit);
      hide Of, FieldsOf, OfSelect, OfExpr, OfExprs, OfItems, OfSelects, OfAll, ExprParts, ItemParts, SelectParts;
      OfExprParts(s.pEList);
      OfItemParts(s.pSrc);
      OfExprParts(s.pGroupBy);
      OfExprParts(s.pOrderBy);
      OfSelectParts(s.pWith);
      OfOne(ExprPart(s.pWhere));
      OfOne(ExprPart(s.pHaving));
      OfOne(ExprPart(s.pLimit));
      OfOne(SelectPart(s.pPrior));
      OfAllConcat(p1, ItemParts(s.pSrc));
      OfAllConcat(p2, [ExprPart(s.pWhere)]);
      OfAllConcat(p3, ExprParts(s.pGroupBy));
      OfAllConcat(p4, [ExprPart(s.pHaving)]);
      OfAllConcat(p5, ExprParts(s.pOrderBy));
      OfAllConcat(p6, [ExprPart(s.pLimit)]);
      OfAllConcat(p7, SelectParts(s.pWith));
      OfAllConcat(p8, [SelectPart(s.pPrior)]);
      Regroup(OfExprs(s.pEList), OfItems(s.pSrc), OfExpr(s.pWhere), OfExprs(s.pGroupBy), OfExpr(s.pHaving),
              OfExprs(s.pOrderBy), OfExpr(s.pLimit), OfSelects(s.pWith));
    }
  }

  lemma Regroup(a: seq<Visit>, b: seq<Visit>, c: seq<Visit>, d: seq<Visit>, e: seq<Visit>, f: seq<Visit>,
                g: seq<Visit>, h: seq<Visit>)
    ensures a + (b + (c + (d + (e + (f + (g + h)))))) == a + b + c + d + e + f + g + h
  {
    hide *;
    Associates(a, b, c + (d + (e + (f + (g + h)))));
    Associates(a + b, c, d + (e + (f + (g + h))));
    Associates(a + b + c, d, e + (f + (g + h)));
    Associates(a + b + c + d, e, f + (g + h));
    Associates(a + b + c + d + e, f, g + h);
    Associates(a + b + c + d + e + f, g, h);
  }

  lemma Associates(a: seq<Visit>, b: seq<Visit>, c: seq<Visit>)
    ensures a + (b + c) == a + b + c
  {
  }

  lemma RegroupFour(a: seq<Visit>, b: seq<Visit>, c: seq<Visit>, d: seq<Visit>)
    ensures a + (b + (c + d)) == a + b + c + d
  {
    assert b + (c + d) == b + c + d;
  }

  lemma UpsertInOrder(u: Upsert)
    ensures var a := UpsertPart(u); Of(a) == Own(a) + OfAll(FieldsOf(a))
  {
    if u.Upsert? {
      var p1 := ExprParts(u.pTarget);
      var p2 := p1 + [ExprPart(u.pTargetWhere)];
      var p3 := p2 + ExprParts(u.pSet);
      assert FieldsOf(UpsertPart(u)) == p3 + [ExprPart(u.pWhere)];
      assert Of(UpsertPart(u)) == OfUpsert(u);
      assert Of(ExprPart(u.pTargetWhere)) == OfExpr(u.pTargetWhere) && Of(ExprPart(u.pWhere)) == OfExpr(u.pWhere);
      hide Of, FieldsOf, OfExpr, OfExprs, OfAll, ExprParts;
      OfAllConcat(p1, [ExprPart(u.pTargetWhere)]);
      OfAllConcat(p2, ExprParts(u.pSet));
      OfAllConcat(p3, [ExprPart(u.pWhere)]);
      OfExprParts(u.pTarget);
      OfExprParts(u.pSet);
      OfOne(ExprPart(u.pTargetWhere));
      OfOne(ExprPart(u.pWhere));
      RegroupFour(OfExprs(u.pTarget), OfExpr(u.pTargetWhere), OfExprs(u.pSet), OfExpr(u.pWhere));
    }
  }

  lemma RegroupStep(a: seq<Visit>, b: seq<Visit>, c: seq<Visit>, d: seq<Visit>, e: seq<Visit>)
    ensures a + (b + (c + d)) + e == a + b + c + (d + e)
  {
    RegroupFour(a, b, c, d);
    Associates(a + b + c, d, e);
  }

  lemma StepInOrder(step: TriggerStep)
    ensures var a := StepPart(step); Of(a) == Own(a) + OfAll(FieldsOf(a))
  {
    if step.TriggerStep? {
      var p1 := [SelectPart(step.pSelect), ExprPart(step.pWhere)];
      var p2 := p1 + ExprParts(step.pExprList);
      assert FieldsOf(StepPart(step)) == p2 + [UpsertPart(step.pUpsert), StepPart(step.pNext)];
      RegroupStep(OfSelect(step.pSelect), OfExpr(step.pWhere), OfExprs(step.pExprList), OfUpsert(step.pUpsert),
                  OfSteps(step.pNext));
      assert Of(SelectPart(step.pSelect)) == OfSelect(step.pSelect) && Of(ExprPart(step.pWhere)) == OfExpr(step.pWhere);
      assert Of(UpsertPart(step.pUpsert)) == OfUpsert(step.pUpsert) && Of(StepPart(step.pNext)) == OfSteps(step.pNext);
      hide Of, FieldsOf, OfExpr, OfExprs, OfSelect, OfUpsert, OfSteps, OfAll, ExprParts;
      OfTwo(SelectPart(step.pSelect), ExprPart(step.pWhere));
      OfAllConcat(p1, ExprParts(step.pExprList));
      OfAllConcat(p2, [UpsertPart(step.pUpsert), StepPart(step.pNext)]);
      OfTwo(UpsertPart(step.pUpsert), StepPart(step.pNext));
      OfExprParts(step.pExprList);
    }
  }

  // ---------- what the fixer does to everything under some parts ----------

  ghost predicate UnderAny(parts: seq<Part>, v: Visit) {
    exists i | 0 <= i < |parts| :: Under(parts[i], v)
  }

  /** The nodes under the parts are numbered inside the arrays. */
  ghost predicate Numbered(s: Fields, parts: seq<Part>) {
    && (forall id: nat | UnderAny(parts, AtItem(id)) :: id < |s.items|)
    && forall id: nat | UnderAny(parts, AtExpr(id)) :: id < |s.ops|
  }

  /** No FROM item under the parts names another database, unless only variables are looked for; and no
      expression under them is a variable, unless the schema is being read. */
  ghost predicate Permitted(f: Fix, s: Fields, parts: seq<Part>)
    requires Numbered(s, parts)
  {
    && (forall id: nat | UnderAny(parts, AtItem(id)) ::
          f.bVarOnly || s.items[id].zDatabase.None? || SameName(s.items[id].zDatabase.value, f.zDb))
    && forall id: nat | UnderAny(parts, AtExpr(id)) :: s.ops[id] == TK_VARIABLE ==> f.busy
  }

  /** Every FROM item under the parts is bound to the schema, unless only variables are looked for; every
      variable under them has become a null; and nothing else has changed. */
  ghost predicate Bound(f: Fix, s: Fields, s': Fields, parts: seq<Part>) {
    && |s'.items| == |s.items| && |s'.ops| == |s.ops|
    && (forall id: nat | id < |s.items| ::
          s'.items[id] ==
          if UnderAny(parts, AtItem(id)) && !f.bVarOnly then ItemFields(None, f.pSchema) else s.items[id])
    && forall id: nat | id < |s.ops| ::
         s'.ops[id] == if UnderAny(parts, AtExpr(id)) && s.ops[id] == TK_VARIABLE then TK_NULL else s.ops[id]
  }

  /** The visits are to what lies under the parts. */
  ghost predicate Covers(parts: seq<Part>, vs: seq<Visit>) {
    forall v :: v in vs <==> UnderAny(parts, v)
  }

  lemma OneCovers(a: Part)
    ensures Covers([a], Of(a))
  {
    forall v ensures v in Of(a) <==> UnderAny([a], v) {
      WalkedIsUnder(a, v);
      assert [a][0] == a;
    }
  }

  lemma TwoCover(a: Part, b: Part)
    ensures Covers([a, b], Of(a) + Of(b))
  {
    forall v ensures v in Of(a) + Of(b) <==> UnderAny([a, b], v) {
      WalkedIsUnder(a, v);
      WalkedIsUnder(b, v);
      hide Under, Of;
      assert [a, b][0] == a && [a, b][1] == b;
    }
  }

  lemma CoversInRange(s: Fields, parts: seq<Part>, vs: seq<Visit>)
    requires Covers(parts, vs) && Numbered(s, parts)
    ensures AllInRange(s, vs)
  {
    hide UnderAny;
    forall i | 0 <= i < |vs| ensures InRange(s, vs[i]) {
      assert vs[i] in vs && UnderAny(parts, vs[i]);
    }
  }

  /** A walk over what lies under the parts succeeds exactly if it is permitted, and then has bound it. */
  lemma WalkBinds(f: Fix, s: Fields, parts: seq<Part>, vs: seq<Visit>)
    requires Covers(parts, vs) && Numbered(s, parts)
    ensures AllInRange(s, vs)
    ensures Walk(f, s, vs).1 == 0 <==> Permitted(f, s, parts)
    ensures Walk(f, s, vs).1 == 0 ==> Bound(f, s, Walk(f, s, vs).0, parts)
  {
    CoversInRange(s, parts, vs);
    SucceedsIff(f, s, vs);
    hide UnderAny, Walk;
    if AllAllowed(f, s, vs) {
      forall id: nat | UnderAny(parts, AtItem(id)) ensures Allowed(f, s, AtItem(id)) { InVisits(f, s, vs, AtItem(id)); }
      forall id: nat | UnderAny(parts, AtExpr(id)) ensures Allowed(f, s, AtExpr(id)) { InVisits(f, s, vs, AtExpr(id)); }
      AfterSuccess(f, s, vs);
    }
    if Permitted(f, s, parts) {
      forall i | 0 <= i < |vs| ensures Allowed(f, s, vs[i]) {
        assert vs[i] in vs && UnderAny(parts, vs[i]);
      }
    }
  }

  lemma InVisits(f: Fix, s: Fields, vs: seq<Visit>, v: Visit)
    requires AllInRange(s, vs) && AllAllowed(f, s, vs) && v in vs
    ensures InRange(s, v) && Allowed(f, s, v)
  {
  }
}
