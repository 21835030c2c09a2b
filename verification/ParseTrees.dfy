/** Parse trees as the database fixer walks them, and what a walk over a list of visits does. */
module ParseTrees {

  const TK_NULL: int := 110
  const TK_VARIABLE: int := 144

  datatype Option<T> = None | Some(value: T)

  // ---------- the trees ----------

  /** An expression.  id is where its operator is kept; leaf stands for EP_TokenOnly or EP_Leaf. */
  datatype Expr = NoExpr | Expr(id: nat, leaf: bool, x: Operands, pRight: Expr, pLeft: Expr)

  /** The union x, of which EP_xIsSelect says which member is meant. */
  datatype Operands = Query(pSelect: Select) | List(pList: seq<Expr>)

  /** An item of a FROM clause.  id is where its database name and schema are kept. */
  datatype Item = Item(id: nat, pSelect: Select, pOn: Expr, isTabFunc: bool, pFuncArg: seq<Expr>)

  datatype Select =
    | NoSelect
    | Select(pEList: seq<Expr>, pSrc: seq<Item>, pWhere: Expr, pGroupBy: seq<Expr>, pHaving: Expr,
             pOrderBy: seq<Expr>, pLimit: Expr, pWith: seq<Select>, pPrior: Select)

  datatype Upsert =
    | NoUpsert
    | Upsert(pTarget: seq<Expr>, pTargetWhere: Expr, pSet: seq<Expr>, pWhere: Expr)

  datatype TriggerStep =
    | NoStep
    | TriggerStep(pSelect: Select, pWhere: Expr, pExprList: seq<Expr>, pUpsert: Upsert, pNext: TriggerStep)

  // ---------- what can be reached, in the order of the walk ----------

  datatype Visit = AtItem(id: nat) | AtExpr(id: nat)

  function OfExpr(e: Expr): seq<Visit>
    decreases e
  {
    if e.NoExpr? then []
    else [AtExpr(e.id)] + if e.leaf then [] else OfOperands(e.x) + (OfExpr(e.pRight) + OfExpr(e.pLeft))
  }

  function OfOperands(x: Operands): seq<Visit>
    decreases x
  {
    match x
    case Query(select) => OfSelect(select)
    case List(list) => OfExprs(list)
  }

  function OfExprs(list: seq<Expr>): seq<Visit>
    decreases list
  {
    if list == [] then [] else OfExpr(list[0]) + OfExprs(list[1..])
  }

  function OfItem(item: Item): seq<Visit>
    decreases item
  {
    [AtItem(item.id)] +
    (OfSelect(item.pSelect) + (OfExpr(item.pOn) + if item.isTabFunc then OfExprs(item.pFuncArg) else []))
  }

  function OfItems(list: seq<Item>): seq<Visit>
    decreases list
  {
    if list == [] then [] else OfItem(list[0]) + OfItems(list[1..])
  }

  /** One SELECT, without those before it in a compound. */
  function OfOneSelect(s: Select): seq<Visit>
    requires s.Select?
    decreases s, 0
  {
    OfExprs(s.pEList) + (OfItems(s.pSrc) + (OfExpr(s.pWhere) + (OfExprs(s.pGroupBy) + (OfExpr(s.pHaving) +
    (OfExprs(s.pOrderBy) + (OfExpr(s.pLimit) + OfSelects(s.pWith)))))))
  }

  function OfSelect(s: Select): seq<Visit>
    decreases s, 1
  {
    if s.NoSelect? then [] else OfOneSelect(s) + OfSelect(s.pPrior)
  }

  function OfSelects(list: seq<Select>): seq<Visit>
    decreases list
  {
    if list == [] then [] else OfSelect(list[0]) + OfSelects(list[1..])
  }

  function OfUpsert(u: Upsert): seq<Visit> {
    if u.NoUpsert? then []
    else OfExprs(u.pTarget) + (OfExpr(u.pTargetWhere) + (OfExprs(u.pSet) + OfExpr(u.pWhere)))
  }

  /** One step, without those after it. */
  function OfOneStep(t: TriggerStep): seq<Visit>
    requires t.TriggerStep?
  {
    OfSelect(t.pSelect) + (OfExpr(t.pWhere) + (OfExprs(t.pExprList) + OfUpsert(t.pUpsert)))
  }

  function OfSteps(t: TriggerStep): seq<Visit>
    decreases t
  {
    if t.NoStep? then [] else OfOneStep(t) + OfSteps(t.pNext)
  }

  // ---------- what a visit does ----------

  /** The fields of a FROM item that the fixer writes. */
  datatype ItemFields = ItemFields(zDatabase: Option<string>, pSchema: nat)

  /** The fields of all items, and the operators of all expressions. */
  datatype Fields = Fields(items: seq<ItemFields>, ops: seq<int>)

  /** What the fixer is told: the database and its schema, whether only variables are looked for, and
      whether the schema is being read (db->init.busy). */
  datatype Fix = Fix(zDb: string, pSchema: nat, bVarOnly: bool, busy: bool)

  function Lower(c: char): char {
    if 'A' <= c <= 'Z' then c + 32 as char else c
  }

  /** sqlite3StrICmp finds no difference. */
  predicate SameName(a: string, b: string) {
    |a| == |b| && forall i | 0 <= i < |a| :: Lower(a[i]) == Lower(b[i])
  }

  /** Names are the same if they differ in nothing but the case of ASCII letters. */
  lemma SameNameIs(a: string, b: string)
    ensures SameName(a, b) <==>
              |a| == |b| &&
              forall i | 0 <= i < |a| ::
                || a[i] == b[i]
                || ('A' <= a[i] <= 'Z' && b[i] as int == a[i] as int + 32)
                || ('A' <= b[i] <= 'Z' && a[i] as int == b[i] as int + 32)
  {
    if |a| == |b| {
      forall i | 0 <= i < |a|
        ensures Lower(a[i]) == Lower(b[i]) <==>
                  || a[i] == b[i]
                  || ('A' <= a[i] <= 'Z' && b[i] as int == a[i] as int + 32)
                  || ('A' <= b[i] <= 'Z' && a[i] as int == b[i] as int + 32)
      {
      }
    }
  }

  predicate InRange(s: Fields, v: Visit) {
    match v
    case AtItem(id) => id < |s.items|
    case AtExpr(id) => id < |s.ops|
  }

  ghost predicate AllInRange(s: Fields, vs: seq<Visit>) {
    forall i | 0 <= i < |vs| :: InRange(s, vs[i])
  }

  /** The visit finds nothing wrong: no other database is named, and no variable is used. */
  predicate Allowed(f: Fix, s: Fields, v: Visit)
    requires InRange(s, v)
  {
    match v
    case AtItem(id) => f.bVarOnly || s.items[id].zDatabase.None? || SameName(s.items[id].zDatabase.value, f.zDb)
    case AtExpr(id) => s.ops[id] != TK_VARIABLE || f.busy
  }

  /** What it writes when it finds nothing wrong. */
  function Written(f: Fix, s: Fields, v: Visit): (s': Fields)
    requires InRange(s, v)
    ensures |s'.items| == |s.items| && |s'.ops| == |s.ops|
  {
    match v
    case AtItem(id) => if f.bVarOnly then s else s.(items := s.items[id := ItemFields(None, f.pSchema)])
    case AtExpr(id) => if s.ops[id] == TK_VARIABLE then s.(ops := s.ops[id := TK_NULL]) else s
  }

  /** The walk up to the first visit that finds something wrong. */
  function Walk(f: Fix, s: Fields, vs: seq<Visit>): (r: (Fields, int))
    requires AllInRange(s, vs)
    ensures |r.0.items| == |s.items| && |r.0.ops| == |s.ops|
    decreases |vs|
  {
    if vs == [] then (s, 0)
    else if !Allowed(f, s, vs[0]) then (s, 1)
    else Walk(f, Written(f, s, vs[0]), vs[1..])
  }

  lemma {:induction false} WalkConcat(f: Fix, s: Fields, a: seq<Visit>, b: seq<Visit>)
    requires AllInRange(s, a + b)
    ensures AllInRange(s, a) && AllInRange(Walk(f, s, a).0, b)
    ensures Walk(f, s, a + b) == if Walk(f, s, a).1 != 0 then Walk(f, s, a) else Walk(f, Walk(f, s, a).0, b)
    decreases |a|
  {
    forall i | 0 <= i < |a| ensures InRange(s, a[i]) { assert a[i] == (a + b)[i]; }
    forall i | 0 <= i < |b| ensures InRange(s, b[i]) { assert b[i] == (a + b)[|a| + i]; }
    if a == [] {
      assert a + b == b;
    } else {
      assert (a + b)[0] == a[0] && (a + b)[1..] == a[1..] + b;
      if Allowed(f, s, a[0]) {
        WalkConcat(f, Written(f, s, a[0]), a[1..], b);
      }
    }
  }

  // ---------- what a walk achieves ----------

  ghost predicate AllAllowed(f: Fix, s: Fields, vs: seq<Visit>)
    requires AllInRange(s, vs)
  {
    forall i | 0 <= i < |vs| :: Allowed(f, s, vs[i])
  }

  /** An allowed visit changes nothing about which visits are allowed. */
  lemma AllowedStays(f: Fix, s: Fields, v: Visit, w: Visit)
    requires InRange(s, v) && InRange(s, w) && Allowed(f, s, v)
    ensures Allowed(f, Written(f, s, v), w) <==> Allowed(f, s, w)
  {
  }

  /** The result is 0 exactly if, to begin with, no reachable item names another database (unless only
      variables are looked for) and no reachable expression is a variable (unless the schema is being
      read).  Nodes may be reached more than once. */
  lemma {:induction false} SucceedsIff(f: Fix, s: Fields, vs: seq<Visit>)
    requires AllInRange(s, vs)
    ensures Walk(f, s, vs).1 == 0 <==> AllAllowed(f, s, vs)
    decreases |vs|
  {
    if vs != [] && Allowed(f, s, vs[0]) {
      var s1 := Written(f, s, vs[0]);
      forall i | 0 <= i < |vs| ensures Allowed(f, s1, vs[i]) <==> Allowed(f, s, vs[i]) {
        AllowedStays(f, s, vs[0], vs[i]);
      }
      SucceedsIff(f, s1, vs[1..]);
    }
  }

  /** A visited node as the walk leaves it. */
  ghost predicate Settled(f: Fix, s: Fields, v: Visit)
    requires InRange(s, v)
  {
    match v
    case AtItem(id) => f.bVarOnly || s.items[id] == ItemFields(None, f.pSchema)
    case AtExpr(id) => s.ops[id] != TK_VARIABLE
  }

  lemma SettledStays(f: Fix, s: Fields, v: Visit, w: Visit)
    requires InRange(s, v) && InRange(s, w) && Settled(f, s, w)
    ensures Settled(f, Written(f, s, v), w)
  {
  }

  lemma {:induction false} SettledAfter(f: Fix, s: Fields, vs: seq<Visit>, w: Visit)
    requires AllInRange(s, vs) && InRange(s, w) && Settled(f, s, w)
    ensures Settled(f, Walk(f, s, vs).0, w)
    decreases |vs|
  {
    if vs != [] && Allowed(f, s, vs[0]) {
      SettledStays(f, s, vs[0], w);
      SettledAfter(f, Written(f, s, vs[0]), vs[1..], w);
    }
  }

  /** After a successful walk every reachable item is bound to the schema, and no reachable expression
      is a variable. */
  lemma {:induction false} AllSettled(f: Fix, s: Fields, vs: seq<Visit>)
    requires AllInRange(s, vs) && Walk(f, s, vs).1 == 0
    ensures forall i | 0 <= i < |vs| :: Settled(f, Walk(f, s, vs).0, vs[i])
    decreases |vs|
  {
    if vs != [] {
      var s1 := Written(f, s, vs[0]);
      SettledAfter(f, s1, vs[1..], vs[0]);
      AllSettled(f, s1, vs[1..]);
      assert forall i | 0 < i < |vs| :: vs[i] == vs[1..][i - 1];
    }
  }

  /** What a successful walk has written, exactly. */
  lemma {:induction false} AfterSuccess(f: Fix, s: Fields, vs: seq<Visit>)
    requires AllInRange(s, vs) && Walk(f, s, vs).1 == 0
    ensures var s' := Walk(f, s, vs).0;
            && (forall id: nat | id < |s.items| ::
                  s'.items[id] == if AtItem(id) in vs && !f.bVarOnly then ItemFields(None, f.pSchema) else s.items[id])
            && forall id: nat | id < |s.ops| ::
                 s'.ops[id] == if AtExpr(id) in vs && s.ops[id] == TK_VARIABLE then TK_NULL else s.ops[id]
    decreases |vs|
  {
    if vs != [] { AfterSuccess(f, Written(f, s, vs[0]), vs[1..]); }
  }

  /** A walk over settled nodes finds nothing wrong and changes nothing. */
  lemma {:induction false} NothingToDo(f: Fix, s: Fields, vs: seq<Visit>)
    requires AllInRange(s, vs) && forall i | 0 <= i < |vs| :: Settled(f, s, vs[i])
    ensures Walk(f, s, vs) == (s, 0)
    decreases |vs|
  {
    if vs != [] {
      assert Settled(f, s, vs[0]);
      assert Written(f, s, vs[0]) == s by {
        if vs[0].AtItem? && !f.bVarOnly { assert s.items[vs[0].id := s.items[vs[0].id]] == s.items; }
      }
      NothingToDo(f, s, vs[1..]);
    }
  }

  /** A second run after a successful one changes nothing. */
  lemma SecondRun(f: Fix, s: Fields, vs: seq<Visit>)
    requires AllInRange(s, vs) && Walk(f, s, vs).1 == 0
    ensures Walk(f, Walk(f, s, vs).0, vs) == (Walk(f, s, vs).0, 0)
  {
    AllSettled(f, s, vs);
    NothingToDo(f, Walk(f, s, vs).0, vs);
  }

  /** Nodes that are not visited stay as they are, and when only variables are looked for, or the
      schema is not being read, whole kinds of fields do. */
  lemma {:induction false} OthersStay(f: Fix, s: Fields, vs: seq<Visit>)
    requires AllInRange(s, vs)
    ensures var s' := Walk(f, s, vs).0;
            && (forall i | 0 <= i < |s.items| && AtItem(i) !in vs :: s'.items[i] == s.items[i])
            && (forall i | 0 <= i < |s.ops| && (AtExpr(i) !in vs || s.ops[i] != TK_VARIABLE) :: s'.ops[i] == s.ops[i])
            && (f.bVarOnly ==> s'.items == s.items) && (!f.busy ==> s'.ops == s.ops)
    decreases |vs|
  {
    if vs != [] && Allowed(f, s, vs[0]) {
      OthersStay(f, Written(f, s, vs[0]), vs[1..]);
    }
  }

  /** A walk that fails has done exactly what the walk up to the first offence does. */
  lemma {:induction false} FailsAtTheFirst(f: Fix, s: Fields, vs: seq<Visit>) returns (k: nat)
    requires AllInRange(s, vs) && Walk(f, s, vs).1 != 0
    ensures k < |vs| && AllInRange(s, vs[..k]) && !Allowed(f, s, vs[k])
    ensures AllAllowed(f, s, vs[..k]) && Walk(f, s, vs[..k]) == (Walk(f, s, vs).0, 0)
    decreases |vs|
  {
    if !Allowed(f, s, vs[0]) {
      k := 0;
    } else {
      var s1 := Written(f, s, vs[0]);
      var j := FailsAtTheFirst(f, s1, vs[1..]);
      k := j + 1;
      assert vs[..k][0] == vs[0] && vs[..k][1..] == vs[1..][..j];
      AllowedStays(f, s, vs[0], vs[k]);
      SucceedsIff(f, s, vs[..k]);
    }
  }
}
