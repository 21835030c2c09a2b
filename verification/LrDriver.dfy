/** The Lemon parser driver: a stack of states in an array, changed in place by shift and reduce
    actions.  The semantic actions of the rules are not part of this model; the ghost field trees
    holds, for each stack entry above the bottom, the parse tree it stands for. */
module LrDriver {
  import opened LrTables

  datatype Entry = Entry(stateno: nat, major: nat)

  class Parser {
    const t: Tables
    const yystack: array<Entry>
    var yytos: nat    // index of the top of the stack
    var nErr: nat     // number of errors reported

    ghost const g: Grammar
    ghost const k: Knowledge
    ghost var states: seq<nat>     // the states on the stack
    ghost var trees: seq<Tree>     // the parse trees above the bottom
    ghost var consumed: seq<nat>   // the tokens shifted since the stack was last empty

    /** sqlite3ParserInit */
    constructor (t: Tables, depth: nat, ghost g: Grammar, ghost k: Knowledge)
      requires Right(t, g, k) && depth > 0
      ensures this.t == t && this.g == g && this.k == k
      ensures Waiting() && fresh(yystack) && yystack.Length == depth
      ensures nErr == 0 && states == [0] && consumed == []
    {
      this.t, this.g, this.k := t, g, k;
      yystack := new Entry[depth](_ => Entry(0, 0));
      yytos, nErr := 0, 0;
      states, trees, consumed := [0], [], [];
      new;
      assert EntryOk(k, states, Roots(t, trees), 0);
    }

    ghost predicate Valid()
      reads this, yystack
    {
      && Right(t, g, k)
      && yytos < yystack.Length && |states| == yytos + 1
      && (forall i | 0 <= i <= yytos :: yystack[i].stateno == states[i])
      && StackOk(k, states, Roots(t, trees))
      && Grown(t, g, trees, consumed)
    }

    /** yyStackOverflow: pop everything and report an error. */
    method StackOverflow()
      requires Valid()
      modifies this`yytos, this`nErr, this`states, this`trees, this`consumed
      ensures Valid() && yytos == 0 && states == [0] && consumed == [] && nErr == old(nErr) + 1
    {
      PopOk(k, states, Roots(t, trees), 0);
      assert states[..1] == [0];
      while yytos > 0
        invariant 0 <= yytos < yystack.Length
        modifies this`yytos
      {
        yytos := yytos - 1;
      }
      nErr := nErr + 1;
      states, trees, consumed := [0], [], [];
      assert Roots(t, trees) == [];
    }

    /** yy_shift */
    method Shift(yyNewState: nat, yyMajor: nat, ghost eff: nat)
      requires Valid() && eff < t.nToken
      requires Follows(k, states[|states| - 1], eff, ShiftCode(t, yyNewState))
      modifies this`yytos, this`nErr, this`states, this`trees, this`consumed, yystack
      ensures Valid()
      ensures if old(yytos) + 1 < yystack.Length then
                nErr == old(nErr) && consumed == old(consumed) + [eff]
                && states == old(states) + [ShiftCode(t, yyNewState)]
              else nErr == old(nErr) + 1 && yytos == 0 && states == [0] && consumed == []
    {
      if yytos + 1 > yystack.Length - 1 {
        StackOverflow();
        return;
      }
      var newState := yyNewState;
      if newState > t.maxShift {
        newState := newState + (t.minReduce - t.minShiftReduce);
      }
      PushOk(k, states, Roots(t, trees), eff, newState);
      GrowLeaf(t, g, trees, consumed, eff);
      yytos := yytos + 1;
      yystack[yytos] := Entry(newState, yyMajor);
      states, trees, consumed := states + [newState], trees + [Leaf(eff)], consumed + [eff];
    }

    /** yy_reduce, without the semantic action of the rule. */
    method Reduce(yyruleno: nat, ghost token: nat) returns (yyact: nat)
      requires Valid() && MayReduce(t, g, k, states[|states| - 1], yyruleno, token)
      modifies this`yytos, this`nErr, this`states, this`trees, this`consumed, yystack
      ensures Valid()
      ensures if |AfterReduce(t, old(states), yyruleno)| <= yystack.Length then
                nErr == old(nErr) && consumed == old(consumed) && yytos > 0
                && states == AfterReduce(t, old(states), yyruleno) && yyact == states[|states| - 1]
              else nErr == old(nErr) + 1 && yytos == 0 && states == [0] && consumed == []
    {
      ReduceOk(t, g, k, states, Roots(t, trees), yyruleno, token);
      if t.nrhs[yyruleno] == 0 && yytos >= yystack.Length - 1 {
        StackOverflow();
        return 0;
      }
      var yygoto, yysize := t.lhs[yyruleno], t.nrhs[yyruleno];
      yyact := FindReduceAction(yystack[yytos - yysize].stateno, yygoto);
      ghost var node := GrowNode(t, g, trees, consumed, yyruleno);
      hide Grown, StackOk, Right, MayReduce, GotoRight, Follows, Roots, AllSuit, LrTables.Shaped;
      states := states[..yytos - yysize + 1] + [yyact];
      trees := trees[..yytos - yysize] + [node];
      yytos := yytos - yysize + 1;
      yystack[yytos] := Entry(yyact, yygoto);
    }

    /** yy_find_reduce_action: its assertions hold. */
    method FindReduceAction(stateno: nat, symbol: nat) returns (a: nat)
      requires Right(t, g, k) && HasGoto(t, stateno, symbol)
      ensures a == Goto(t, stateno, symbol)
    {
      var i := t.reduceOfst[stateno];
      i := i + symbol;
      a := t.action[i];
    }

    /** yy_find_shift_action, with the token the action is for. */
    method FindShiftAction(token: nat, stateno: nat) returns (a: nat, ghost eff: nat)
      requires LrTables.Shaped(t) && token < t.nToken
      ensures a == FindShift(t, token, stateno).0 && eff == FindShift(t, token, stateno).1
    {
      if stateno > t.maxShift { return stateno, token; }
      var iLookAhead: nat := token;
      while true
        invariant iLookAhead < t.nToken
        invariant FindShift(t, token, stateno) == FindShift(t, iLookAhead, stateno)
        decreases if Fallback(t, iLookAhead) != 0 then 1 else 0
      {
        var i := t.shiftOfst[stateno] + iLookAhead;
        if i >= |t.lookahead| || t.lookahead[i] != iLookAhead {
          if iLookAhead < |t.fallback| && t.fallback[iLookAhead] != 0 {
            iLookAhead := t.fallback[iLookAhead];
            continue;
          }
          var j := i - iLookAhead + t.wildcard;
          if j < |t.lookahead| && t.lookahead[j] == t.wildcard && iLookAhead > 0 {
            return t.action[j], t.wildcard;
          }
          return t.default_[stateno], iLookAhead;
        }
        return t.action[i], iLookAhead;
      }
    }

    lemma Starts()
      requires Waiting()
      ensures LrTables.Shaped(t) && |states| > 0
    {
    }

    /** Between two tokens the accept code is not on the stack. */
    ghost predicate Waiting()
      reads this, yystack
    {
      Valid() && states[|states| - 1] != t.acceptAction
    }

    ghost function Now(): Status
      reads this
    {
      Status(nErr, states, consumed)
    }

    /** sqlite3Parser: one input token.  What becomes of it is what the tables say: it is shifted, or the
        input is accepted, or an error is reported, because the tables refuse the token or the stack is
        full. */
    method Parse(yymajor: nat) returns (accepted: bool, ghost tree: Tree, ghost o: Outcome)
      requires Waiting() && yymajor < t.nToken
      modifies this`yytos, this`nErr, this`states, this`trees, this`consumed, yystack
      ensures Waiting()
      ensures Ends(t, yystack.Length, yymajor, old(states), o)
      ensures Shows(t, g, o, yymajor, accepted, tree, old(Now()), Now())
    {
      accepted, tree, o := false, Leaf(0), Overflowed;
      hide *;
      IsWaiting();
      NowIs();
      ghost var goal, was := states, Now();
      AlikeSame(t, yystack.Length, yymajor, states);
      var yyact := Top();
      while true
        invariant Valid() && nErr == was.nErr && consumed == was.consumed && |states| > 0
        invariant EndsAlike(t, yystack.Length, yymajor, states, goal)
        invariant yyact == states[|states| - 1] && (yyact == t.acceptAction ==> yymajor == 0)
        decreases StepsLeft(k, states, yymajor)
      {
        ghost var eff;
        yyact, eff := FindShiftAction(yymajor, yyact);
        if yyact >= t.minReduce {
          yyact := ReduceOnce(yymajor, yyact, goal, was);
          if yytos == 0 {
            OverflowShows(yymajor, tree, was);
            return;
          }
        } else {
          ghost var last := states;
          accepted, tree, o := Conclude(yymajor, yyact, eff, was);
          AlikeEnds(t, yystack.Length, yymajor, last, goal, o);
          return;
        }
      }
    }

    /** A reduction in the loop: what becomes of the token stays the same, or the stack overflows. */
    method ReduceOnce(yymajor: nat, a: nat, ghost goal: seq<nat>, ghost was: Status) returns (yyact: nat)
      requires Valid() && yymajor < t.nToken && nErr == was.nErr && consumed == was.consumed && |goal| > 0
      requires LrTables.Shaped(t) && |states| > 0 && a == FindShift(t, yymajor, states[|states| - 1]).0 >= t.minReduce
      requires EndsAlike(t, yystack.Length, yymajor, states, goal)
      modifies this`yytos, this`nErr, this`states, this`trees, this`consumed, yystack
      ensures Valid() && |states| > 0
      ensures yytos == 0 ==>
                && Waiting() && nErr == was.nErr + 1 && states == [0] && consumed == []
                && Ends(t, yystack.Length, yymajor, goal, Overflowed)
      ensures yytos > 0 ==>
                && nErr == was.nErr && consumed == was.consumed
                && EndsAlike(t, yystack.Length, yymajor, states, goal)
                && yyact == states[|states| - 1] && (yyact == t.acceptAction ==> yymajor == 0)
                && StepsLeft(k, states, yymajor) < StepsLeft(k, old(states), yymajor)
    {
      hide *;
      ReduceIsRight(yymajor, a);
      AlikeAfter(t, yystack.Length, yymajor, states, goal);
      yyact := Reduce(a - t.minReduce, yymajor);
      if yytos == 0 { OverflowWaits(); }
    }

    lemma NowIs()
      ensures Now() == Status(nErr, states, consumed)
    {
    }

    lemma IsWaiting()
      requires Waiting()
      ensures Valid() && |states| > 0 && states[|states| - 1] != t.acceptAction && LrTables.Shaped(t)
    {
    }

    lemma OverflowShows(yymajor: nat, tree: Tree, was: Status)
      requires nErr == was.nErr + 1 && states == [0] && consumed == []
      ensures Shows(t, g, Overflowed, yymajor, false, tree, was, Now())
    {
    }

    /** After a stack overflow only the bottom is left. */
    lemma OverflowWaits()
      requires Valid() && yytos == 0
      ensures Waiting()
    {
    }

    /** The actions that end the loop: shift, accept and error. */
    method Conclude(yymajor: nat, yyact: nat, ghost eff: nat, ghost was: Status)
        returns (accepted: bool, ghost tree: Tree, ghost o: Outcome)
      requires Valid() && yymajor < t.nToken && yyact < t.minReduce
      requires yyact == FindShift(t, yymajor, states[|states| - 1]).0
      requires eff == FindShift(t, yymajor, states[|states| - 1]).1
      requires states[|states| - 1] == t.acceptAction ==> yymajor == 0
      requires nErr == was.nErr && consumed == was.consumed
      modifies this`yytos, this`nErr, this`states, this`trees, this`consumed, yystack
      ensures Waiting()
      ensures Ends(t, yystack.Length, yymajor, old(states), o)
      ensures Shows(t, g, o, yymajor, accepted, tree, was, Now())
    {
      accepted, tree, o := false, Leaf(0), Final(t, yystack.Length, states, yyact, eff);
      TopIsRight(yymajor, yyact, eff);
      EndsHere(t, yystack.Length, yymajor, states);
      hide StackOk, Right, Grown, MayReduce, Follows, FindShift, Parses, Yield, Stands, ShiftCode, Ends;
      if yyact <= t.maxShiftReduce {
        ShiftCodeIs(yyact);
        Shift(yyact, yymajor, eff);
      } else if yyact == t.acceptAction {
        tree := Accept();
        accepted := true;
      } else {
        SyntaxError();
      }
    }

    lemma ShiftCodeIs(a: nat)
      requires LrTables.Shaped(t) && (a <= t.maxShift || t.minShiftReduce <= a <= t.maxShiftReduce)
      ensures ShiftCode(t, a) != t.acceptAction && t.acceptAction != 0
    {
    }

    method Top() returns (s: nat)
      requires Valid()
      ensures s == states[|states| - 1]
    {
      s := yystack[yytos].stateno;
    }

    /** yy_syntax_error, without error recovery: the token is dropped. */
    method SyntaxError()
      requires Valid()
      modifies this`nErr
      ensures Valid() && nErr == old(nErr) + 1
    {
      nErr := nErr + 1;
    }

    /** What the tables promise about the action for the top state. */
    lemma TopIsRight(token: nat, a: nat, eff: nat)
      requires Valid() && token < t.nToken
      requires a == FindShift(t, token, states[|states| - 1]).0 && eff == FindShift(t, token, states[|states| - 1]).1
      ensures LrTables.Shaped(t) && Stands(t, token, eff) && eff < t.nToken
      ensures a >= t.minReduce ==> MayReduce(t, g, k, states[|states| - 1], a - t.minReduce, token)
      ensures a <= t.maxShiftReduce ==>
                Follows(k, states[|states| - 1], eff, ShiftCode(t, a)) && (a <= t.maxShift || t.minShiftReduce <= a)
      ensures a == t.acceptAction ==> states[|states| - 1] == t.acceptAction && yytos > 0
      ensures a < t.minReduce && a != t.acceptAction ==> states[|states| - 1] != t.acceptAction
      ensures a >= t.minReduce || a <= t.maxShiftReduce || a == t.acceptAction || a == t.errorAction
    {
      assert EntryOk(k, states, Roots(t, trees), yytos);
      ShiftedStands(t, token, states[|states| - 1]);
      assert ActionRight(t, g, k, states[|states| - 1], token);
    }

    /** A reduction is right, and brings the shift nearer. */
    lemma ReduceIsRight(token: nat, a: nat)
      requires Valid() && token < t.nToken
      requires a == FindShift(t, token, states[|states| - 1]).0 >= t.minReduce
      ensures LrTables.Shaped(t) && MayReduce(t, g, k, states[|states| - 1], a - t.minReduce, token)
      ensures var next := AfterReduce(t, states, a - t.minReduce);
              && |next| > 0 && StepsLeft(k, next, token) < StepsLeft(k, states, token)
              && (next[|next| - 1] == t.acceptAction ==> token == 0)
    {
      TopIsRight(token, a, FindShift(t, token, states[|states| - 1]).1);
      hide MayReduce, Follows, FindShift;
      ReduceCounts(t, g, k, states, Roots(t, trees), a - t.minReduce, token);
    }

    /** The accept action: one tree is left, it is what has been asked for, and the stack is empty. */
    method Accept() returns (ghost tree: Tree)
      requires Valid() && states[|states| - 1] == t.acceptAction && yytos > 0
      modifies this`yytos, this`states, this`trees, this`consumed
      ensures Valid() && yytos == 0 && states == [0] && consumed == []
      ensures Parses(t, g, tree) && Root(t, tree) == g.start && Yield(tree) == old(consumed)
    {
      AcceptOk(t, g, k, states, Roots(t, trees));
      tree := trees[0];
      assert trees == [tree] && Roots(t, trees)[0] == Root(t, tree);
      assert Yields([tree]) == Yield(tree) + Yields([]);
      PopOk(k, states, Roots(t, trees), 0);
      assert states[..1] == [0];
      yytos := yytos - 1;
      states, trees, consumed := [0], [], [];
      assert Roots(t, trees) == [];
    }
  }

  /** What a client can tell of the parser: errors, stack, and the tokens shifted. */
  datatype Status = Status(nErr: nat, states: seq<nat>, consumed: seq<nat>)

  /** How an outcome shows.  An accepted input ends with token 0, and has a parse tree of the start symbol
      over all tokens shifted. */
  ghost predicate Shows(t: Tables, g: Grammar, o: Outcome, yymajor: nat, accepted: bool, tree: Tree,
                        was: Status, now: Status)
  {
    match o
    case Shifted(s, eff) =>
      !accepted && now == Status(was.nErr, s, was.consumed + [eff]) && Stands(t, yymajor, eff)
    case Accepted =>
      && accepted && now == Status(was.nErr, [0], []) && yymajor == 0
      && Parses(t, g, tree) && Root(t, tree) == g.start && Yield(tree) == was.consumed
    case Refused(s) => !accepted && now == Status(was.nErr + 1, s, was.consumed)
    case Overflowed => !accepted && now == Status(was.nErr + 1, [0], [])
  }

  /** What becomes of a token from the one stack becomes of it from the other. */
  ghost predicate EndsAlike(t: Tables, depth: nat, token: nat, states: seq<nat>, goal: seq<nat>)
    requires LrTables.Shaped(t) && token < t.nToken && |states| > 0 && |goal| > 0
  {
    forall o :: Ends(t, depth, token, states, o) ==> Ends(t, depth, token, goal, o)
  }

  lemma AlikeSame(t: Tables, depth: nat, token: nat, states: seq<nat>)
    requires LrTables.Shaped(t) && token < t.nToken && |states| > 0
    ensures EndsAlike(t, depth, token, states, states)
  {
  }

  lemma AlikeEnds(t: Tables, depth: nat, token: nat, states: seq<nat>, goal: seq<nat>, o: Outcome)
    requires LrTables.Shaped(t) && token < t.nToken && |states| > 0 && |goal| > 0
    requires EndsAlike(t, depth, token, states, goal) && Ends(t, depth, token, states, o)
    ensures Ends(t, depth, token, goal, o)
  {
  }

  /** A reduction: the stack overflows, or what becomes of the token is decided from there. */
  lemma AlikeAfter(t: Tables, depth: nat, token: nat, states: seq<nat>, goal: seq<nat>)
    requires LrTables.Shaped(t) && token < t.nToken && |states| > 0 && |goal| > 0
    requires FindShift(t, token, states[|states| - 1]).0 >= t.minReduce && EndsAlike(t, depth, token, states, goal)
    ensures var next := AfterReduce(t, states, FindShift(t, token, states[|states| - 1]).0 - t.minReduce);
            |next| > 0 &&
            if |next| > depth then Ends(t, depth, token, goal, Overflowed)
            else EndsAlike(t, depth, token, next, goal)
  {
    EndsAfter(t, depth, token, states, Overflowed);
    var next := AfterReduce(t, states, FindShift(t, token, states[|states| - 1]).0 - t.minReduce);
    hide Ends, FindShift, AfterReduce;
    if |next| <= depth {
      forall o | Ends(t, depth, token, next, o) ensures Ends(t, depth, token, goal, o) {
        EndsAfter(t, depth, token, states, o);
      }
    }
  }

  /** The trees are parse trees, and their leaves are the tokens, in order. */
  ghost predicate Grown(t: Tables, g: Grammar, trees: seq<Tree>, tokens: seq<nat>) {
    (forall i | 0 <= i < |trees| :: Parses(t, g, trees[i])) && Yields(trees) == tokens
  }

  lemma GrowLeaf(t: Tables, g: Grammar, trees: seq<Tree>, tokens: seq<nat>, eff: nat)
    requires Grown(t, g, trees, tokens) && eff < t.nToken
    ensures Grown(t, g, trees + [Leaf(eff)], tokens + [eff])
    ensures Roots(t, trees + [Leaf(eff)]) == Roots(t, trees) + [eff]
  {
    YieldsConcat(trees, [Leaf(eff)]);
    YieldsOne(Leaf(eff));
  }

  /** The trees of a right-hand side, with the unit rules left out put back, become one tree. */
  lemma GrowNode(t: Tables, g: Grammar, trees: seq<Tree>, tokens: seq<nat>, r: nat) returns (node: Tree)
    requires Grown(t, g, trees, tokens) && Shaped(t)
    requires r < |g.rhs| && r < |t.lhs| && t.nrhs[r] <= |trees|
    requires AllSuit(t, g, Roots(t, trees)[|trees| - t.nrhs[r]..], g.rhs[r])
    ensures var m := |trees| - t.nrhs[r];
            && Grown(t, g, trees[..m] + [node], tokens)
            && Roots(t, trees[..m] + [node]) == Roots(t, trees)[..m] + [t.lhs[r]]
  {
    var m := |trees| - t.nrhs[r];
    assert Roots(t, trees[m..]) == Roots(t, trees)[m..];
    var kids := LiftTrees(t, g, trees[m..], g.rhs[r]);
    node := Node(r, kids);
    hide AllSuit, MatchesRule;
    assert trees == trees[..m] + trees[m..];
    YieldsConcat(trees[..m], trees[m..]);
    YieldsConcat(trees[..m], [node]);
    YieldsOne(node);
  }

  /** Feed a whole token stream, ended by token 0, until it is accepted or an error is reported.  It is
      accepted exactly if the tables accept it on a stack of this depth; and only as a whole: if it, each
      token replaced where the driver did so, derives from the start symbol. */
  method ParseAll(t: Tables, depth: nat, ghost g: Grammar, ghost k: Knowledge, input: seq<nat>)
      returns (accepted: bool, ghost tree: Tree)
    requires Right(t, g, k) && depth > 0 && AreTokens(t, input)
    ensures accepted <==> AcceptsFrom(t, depth, [0], input)
    ensures accepted ==>
              && Parses(t, g, tree) && Root(t, tree) == g.start && |Yield(tree)| == |input|
              && forall i | 0 <= i < |input| :: Stands(t, input[i], Yield(tree)[i])
  {
    var p := new Parser(t, depth, g, k);
    p.Starts();
    hide Right, Parses, Yield, Stands, Ends, AcceptsFrom, Parser.Waiting;
    var fed := 0;
    assert input[0..] == input;
    while fed < |input|
      invariant fed <= |input| && p.Waiting() && p.t == t && p.g == g && p.nErr == 0 && fresh(p) && fresh(p.yystack)
      invariant p.yystack.Length == depth && |p.states| > 0
      invariant AcceptsFrom(t, depth, [0], input) <==> AcceptsFrom(t, depth, p.states, input[fed..])
      invariant |p.consumed| == fed && forall i | 0 <= i < fed :: Stands(t, input[i], p.consumed[i])
    {
      ghost var o;
      ghost var before := p.states;
      accepted, tree, o := p.Parse(input[fed]);
      p.Starts();
      assert input[fed..][0] == input[fed] && input[fed..][1..] == input[fed + 1..];
      AcceptsNext(t, depth, before, input[fed..], o);
      if p.nErr > 0 { return; }
      fed := fed + 1;
    }
    ghost var o;
    ghost var before := p.states;
    accepted, tree, o := p.Parse(0);
    LastToken(t, depth, before, o);
    assert input[fed..] == [];
  }

  /** At the end of the input the outcome decides. */
  lemma LastToken(t: Tables, depth: nat, states: seq<nat>, o: Outcome)
    requires LrTables.Shaped(t) && |states| > 0 && 0 < t.nToken && Ends(t, depth, 0, states, o)
    ensures AcceptsFrom(t, depth, states, []) <==> o.Accepted?
  {
    if AcceptsFrom(t, depth, states, []) { EndsOnce(t, depth, 0, states, o, Accepted); }
  }
}
