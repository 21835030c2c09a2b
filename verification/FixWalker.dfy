/** The family of sqlite3Fix functions: they bind every database reference of a view, trigger or index
    to one database. */
module FixWalker {
  import opened ParseTrees
  import opened TreeParts

  class DbFixer {
    const fix: Fix
    /** The fields of the parse tree that are overwritten, by node. */
    const items: array<ItemFields>
    const ops: array<int>

    constructor (fix: Fix, items: array<ItemFields>, ops: array<int>)
      ensures this.fix == fix && this.items == items && this.ops == ops
    {
      this.fix, this.items, this.ops := fix, items, ops;
    }

    ghost function Now(): Fields
      reads items, ops
    {
      Fields(items[..], ops[..])
    }

    /** The loop body of sqlite3FixSrcList that concerns the item itself. */
    method FixItem(id: nat) returns (rc: int)
      requires id < items.Length
      modifies items
      ensures AllInRange(old(Now()), [AtItem(id)]) && (Now(), rc) == Walk(fix, old(Now()), [AtItem(id)])
    {
      if !fix.bVarOnly {
        if items[id].zDatabase.Some? && !SameName(items[id].zDatabase.value, fix.zDb) { return 1; }
        items[id] := ItemFields(None, fix.pSchema);
      }
      rc := 0;
    }

    /** The part of sqlite3FixExpr that concerns the operator. */
    method FixOp(id: nat) returns (rc: int)
      requires id < ops.Length
      modifies ops
      ensures AllInRange(old(Now()), [AtExpr(id)]) && (Now(), rc) == Walk(fix, old(Now()), [AtExpr(id)])
    {
      if ops[id] == TK_VARIABLE {
        if !fix.busy { return 1; }
        ops[id] := TK_NULL;
      }
      rc := 0;
    }

    /** sqlite3FixSrcList */
    method FixSrcList(pList: seq<Item>) returns (rc: int)
      requires AllInRange(Now(), OfItems(pList))
      modifies items, ops
      ensures (Now(), rc) == Walk(fix, old(Now()), OfItems(pList))
      decreases pList
    {
      var i := 0;
      ghost var goal := Walk(fix, Now(), OfItems(pList));
      WalkNone(fix, Now());
      while i < |pList|
        invariant i <= |pList| && AllInRange(Now(), OfItems(pList[i..]))
        invariant Walk(fix, Now(), OfItems(pList[i..])) == goal
      {
        ghost var rest := pList[i..];
        assert rest[0] == pList[i] && rest[1..] == pList[i + 1..];
        WalkConcat(fix, Now(), OfItem(rest[0]), OfItems(rest[1..]));
        rc := FixOneItem(pList[i]);
        if rc != 0 { return; }
        i := i + 1;
      }
      rc := 0;
    }

    method FixOneItem(item: Item) returns (rc: int)
      requires AllInRange(Now(), OfItem(item))
      modifies items, ops
      ensures (Now(), rc) == Walk(fix, old(Now()), OfItem(item))
      decreases item
    {
      ghost var args := if item.isTabFunc then OfExprs(item.pFuncArg) else [];
      ghost var goal := Walk(fix, Now(), OfItem(item));
      WalkConcat(fix, Now(), [AtItem(item.id)], OfSelect(item.pSelect) + (OfExpr(item.pOn) + args));
      assert InRange(Now(), [AtItem(item.id)][0]);
      hide *;
      rc := FixItem(item.id);
      if rc != 0 { return; }
      WalkConcat(fix, Now(), OfSelect(item.pSelect), OfExpr(item.pOn) + args);
      rc := FixSelect(item.pSelect);
      if rc != 0 { return; }
      WalkConcat(fix, Now(), OfExpr(item.pOn), args);
      rc := FixExpr(item.pOn);
      if rc != 0 { return; }
      WalkNone(fix, Now());
      if item.isTabFunc {
        rc := FixExprList(item.pFuncArg);
      }
    }

    /** sqlite3FixSelect: a SELECT, and those before it in a compound. */
    method FixSelect(pSelect: Select) returns (rc: int)
      requires AllInRange(Now(), OfSelect(pSelect))
      modifies items, ops
      ensures (Now(), rc) == Walk(fix, old(Now()), OfSelect(pSelect))
      decreases pSelect, 1
    {
      var select := pSelect;
      ghost var goal := Walk(fix, Now(), OfSelect(pSelect));
      while select.Select?
        invariant select == pSelect || select < pSelect
        invariant AllInRange(Now(), OfSelect(select)) && Walk(fix, Now(), OfSelect(select)) == goal
        decreases select
      {
        WalkConcat(fix, Now(), OfOneSelect(select), OfSelect(select.pPrior));
        rc := FixOneSelect(select);
        if rc != 0 { return; }
        select := select.pPrior;
      }
      rc := 0;
    }

    method FixOneSelect(s: Select) returns (rc: int)
      requires s.Select? && AllInRange(Now(), OfOneSelect(s))
      modifies items, ops
      ensures (Now(), rc) == Walk(fix, old(Now()), OfOneSelect(s))
      decreases s, 0
    {
      ghost var r7 := OfSelects(s.pWith);
      ghost var r6 := OfExpr(s.pLimit) + r7;
      ghost var r5 := OfExprs(s.pOrderBy) + r6;
      ghost var r4 := OfExpr(s.pHaving) + r5;
      ghost var r3 := OfExprs(s.pGroupBy) + r4;
      ghost var r2 := OfExpr(s.pWhere) + r3;
      ghost var r1 := OfItems(s.pSrc) + r2;
      assert OfOneSelect(s) == OfExprs(s.pEList) + r1;
      hide *;
      WalkConcat(fix, Now(), OfExprs(s.pEList), r1);
      rc := FixExprList(s.pEList);
      if rc != 0 { return; }
      WalkConcat(fix, Now(), OfItems(s.pSrc), r2);
      rc := FixSrcList(s.pSrc);
      if rc != 0 { return; }
      WalkConcat(fix, Now(), OfExpr(s.pWhere), r3);
      rc := FixExpr(s.pWhere);
      if rc != 0 { return; }
      WalkConcat(fix, Now(), OfExprs(s.pGroupBy), r4);
      rc := FixExprList(s.pGroupBy);
      if rc != 0 { return; }
      WalkConcat(fix, Now(), OfExpr(s.pHaving), r5);
      rc := FixExpr(s.pHaving);
      if rc != 0 { return; }
      WalkConcat(fix, Now(), OfExprs(s.pOrderBy), r6);
      rc := FixExprList(s.pOrderBy);
      if rc != 0 { return; }
      WalkConcat(fix, Now(), OfExpr(s.pLimit), r7);
      rc := FixExpr(s.pLimit);
      if rc != 0 { return; }
      rc := FixWith(s.pWith);
    }

    /** The loop over the WITH clause. */
    method FixWith(list: seq<Select>) returns (rc: int)
      requires AllInRange(Now(), OfSelects(list))
      modifies items, ops
      ensures (Now(), rc) == Walk(fix, old(Now()), OfSelects(list))
      decreases list
    {
      var i := 0;
      ghost var goal := Walk(fix, Now(), OfSelects(list));
      WalkNone(fix, Now());
      while i < |list|
        invariant i <= |list| && AllInRange(Now(), OfSelects(list[i..]))
        invariant Walk(fix, Now(), OfSelects(list[i..])) == goal
      {
        ghost var rest := list[i..];
        assert rest[0] == list[i] && rest[1..] == list[i + 1..];
        WalkConcat(fix, Now(), OfSelect(rest[0]), OfSelects(rest[1..]));
        rc := FixSelect(list[i]);
        if rc != 0 { return; }
        i := i + 1;
      }
      rc := 0;
    }

    /** sqlite3FixExpr: recursion to the right, a loop to the left. */
    method FixExpr(pExpr: Expr) returns (rc: int)
      requires AllInRange(Now(), OfExpr(pExpr))
      modifies items, ops
      ensures (Now(), rc) == Walk(fix, old(Now()), OfExpr(pExpr))
      decreases pExpr
    {
      var e := pExpr;
      ghost var goal := Walk(fix, Now(), OfExpr(pExpr));
      WalkNone(fix, Now());
      while e.Expr?
        invariant e == pExpr || e < pExpr
        invariant AllInRange(Now(), OfExpr(e)) && Walk(fix, Now(), OfExpr(e)) == goal
        decreases e
      {
        ghost var rest := if e.leaf then [] else OfOperands(e.x) + (OfExpr(e.pRight) + OfExpr(e.pLeft));
        WalkConcat(fix, Now(), [AtExpr(e.id)], rest);
        assert InRange(Now(), [AtExpr(e.id)][0]);
        rc := FixOp(e.id);
        if rc != 0 { return; }
        if e.leaf {
          WalkNone(fix, Now());
          break;
        }
        WalkConcat(fix, Now(), OfOperands(e.x), OfExpr(e.pRight) + OfExpr(e.pLeft));
        match e.x {
          case Query(select) => rc := FixSelect(select);
          case List(list) => rc := FixExprList(list);
        }
        if rc != 0 { return; }
        WalkConcat(fix, Now(), OfExpr(e.pRight), OfExpr(e.pLeft));
        rc := FixExpr(e.pRight);
        if rc != 0 { return; }
        e := e.pLeft;
      }
      rc := 0;
    }

    /** sqlite3FixExprList */
    method FixExprList(pList: seq<Expr>) returns (rc: int)
      requires AllInRange(Now(), OfExprs(pList))
      modifies items, ops
      ensures (Now(), rc) == Walk(fix, old(Now()), OfExprs(pList))
      decreases pList
    {
      var i := 0;
      ghost var goal := Walk(fix, Now(), OfExprs(pList));
      WalkNone(fix, Now());
      while i < |pList|
        invariant i <= |pList| && AllInRange(Now(), OfExprs(pList[i..]))
        invariant Walk(fix, Now(), OfExprs(pList[i..])) == goal
      {
        ghost var rest := pList[i..];
        assert rest[0] == pList[i] && rest[1..] == pList[i + 1..];
        WalkConcat(fix, Now(), OfExpr(rest[0]), OfExprs(rest[1..]));
        rc := FixExpr(pList[i]);
        if rc != 0 { return; }
        i := i + 1;
      }
      rc := 0;
    }

    /** sqlite3FixTriggerStep, with the list of steps that follow. */
    method FixTriggerStep(pStep: TriggerStep) returns (rc: int)
      requires AllInRange(Now(), OfSteps(pStep))
      modifies items, ops
      ensures (Now(), rc) == Walk(fix, old(Now()), OfSteps(pStep))
    {
      var step := pStep;
      ghost var goal := Walk(fix, Now(), OfSteps(pStep));
      WalkNone(fix, Now());
      while step.TriggerStep?
        invariant AllInRange(Now(), OfSteps(step)) && Walk(fix, Now(), OfSteps(step)) == goal
        decreases step
      {
        WalkConcat(fix, Now(), OfOneStep(step), OfSteps(step.pNext));
        rc := FixOneStep(step);
        if rc != 0 { return; }
        step := step.pNext;
      }
      rc := 0;
    }

    method FixOneStep(t: TriggerStep) returns (rc: int)
      requires t.TriggerStep? && AllInRange(Now(), OfOneStep(t))
      modifies items, ops
      ensures (Now(), rc) == Walk(fix, old(Now()), OfOneStep(t))
    {
      ghost var r3 := OfUpsert(t.pUpsert);
      ghost var r2 := OfExprs(t.pExprList) + r3;
      ghost var r1 := OfExpr(t.pWhere) + r2;
      assert OfOneStep(t) == OfSelect(t.pSelect) + r1;
      hide *;
      WalkConcat(fix, Now(), OfSelect(t.pSelect), r1);
      rc := FixSelect(t.pSelect);
      if rc != 0 { return; }
      WalkConcat(fix, Now(), OfExpr(t.pWhere), r2);
      rc := FixExpr(t.pWhere);
      if rc != 0 { return; }
      WalkConcat(fix, Now(), OfExprs(t.pExprList), r3);
      rc := FixExprList(t.pExprList);
      if rc != 0 { return; }
      rc := FixUpsert(t.pUpsert);
    }

    method FixUpsert(u: Upsert) returns (rc: int)
      requires AllInRange(Now(), OfUpsert(u))
      modifies items, ops
      ensures (Now(), rc) == Walk(fix, old(Now()), OfUpsert(u))
    {
      WalkNone(fix, Now());
      if u.NoUpsert? { return 0; }
      ghost var r3 := OfExpr(u.pWhere);
      ghost var r2 := OfExprs(u.pSet) + r3;
      ghost var r1 := OfExpr(u.pTargetWhere) + r2;
      assert OfUpsert(u) == OfExprs(u.pTarget) + r1;
      hide *;
      WalkConcat(fix, Now(), OfExprs(u.pTarget), r1);
      rc := FixExprList(u.pTarget);
      if rc != 0 { return; }
      WalkConcat(fix, Now(), OfExpr(u.pTargetWhere), r2);
      rc := FixExpr(u.pTargetWhere);
      if rc != 0 { return; }
      WalkConcat(fix, Now(), OfExprs(u.pSet), r3);
      rc := FixExprList(u.pSet);
      if rc != 0 { return; }
      rc := FixExpr(u.pWhere);
    }

    /** How CREATE VIEW uses the fixer: it succeeds exactly if nothing under the SELECT is forbidden, and
        then everything under it is bound. */
    method FixView(pSelect: Select) returns (rc: int)
      requires Numbered(Now(), [SelectPart(pSelect)])
      modifies items, ops
      ensures Numbered(old(Now()), [SelectPart(pSelect)])
      ensures rc == 0 <==> Permitted(fix, old(Now()), [SelectPart(pSelect)])
      ensures rc == 0 ==> Bound(fix, old(Now()), Now(), [SelectPart(pSelect)])
      ensures AllInRange(old(Now()), OfSelect(pSelect)) && (Now(), rc) == Walk(fix, old(Now()), OfSelect(pSelect))
    {
      hide *;
      OneCovers(SelectPart(pSelect));
      OfIs(SelectPart(pSelect));
      WalkBinds(fix, Now(), [SelectPart(pSelect)], OfSelect(pSelect));
      rc := FixSelect(pSelect);
    }

    /** How CREATE TRIGGER uses it: on the steps, then on the WHEN clause. */
    method FixTrigger(stepList: TriggerStep, pWhen: Expr) returns (rc: int)
      requires Numbered(Now(), [StepPart(stepList), ExprPart(pWhen)])
      modifies items, ops
      ensures Numbered(old(Now()), [StepPart(stepList), ExprPart(pWhen)])
      ensures rc == 0 <==> Permitted(fix, old(Now()), [StepPart(stepList), ExprPart(pWhen)])
      ensures rc == 0 ==> Bound(fix, old(Now()), Now(), [StepPart(stepList), ExprPart(pWhen)])
      ensures AllInRange(old(Now()), OfSteps(stepList) + OfExpr(pWhen))
      ensures (Now(), rc) == Walk(fix, old(Now()), OfSteps(stepList) + OfExpr(pWhen))
    {
      hide *;
      TwoCover(StepPart(stepList), ExprPart(pWhen));
      OfIs(StepPart(stepList));
      OfIs(ExprPart(pWhen));
      WalkBinds(fix, Now(), [StepPart(stepList), ExprPart(pWhen)], OfSteps(stepList) + OfExpr(pWhen));
      WalkConcat(fix, Now(), OfSteps(stepList), OfExpr(pWhen));
      rc := FixTriggerStep(stepList);
      if rc != 0 { return; }
      rc := FixExpr(pWhen);
    }
  }

  lemma OfIs(a: Part)
    ensures match a
            case ExprPart(e) => Of(a) == OfExpr(e)
            case SelectPart(s) => Of(a) == OfSelect(s)
            case StepPart(step) => Of(a) == OfSteps(step)
            case _ => true
  {
  }

  lemma WalkNone(f: Fix, s: Fields)
    ensures Walk(f, s, []) == (s, 0)
  {
  }
}
