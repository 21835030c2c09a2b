/** The tables of a Lemon parser, what makes them right for a grammar, and what follows for the
    stack of the LR automaton. */
module LrTables {

  // ---------- the tables ----------

  /** Action codes: 0..maxShift shift and go to that state; minShiftReduce..maxShiftReduce shift and
      reduce; errorAction; acceptAction; minReduce.. reduce.  Tokens are 0..nToken-1, nonterminals come
      after them, and wildcard is the token that stands for any other; fallback 0 means none. */
  datatype Tables = Tables(
    maxShift: nat, minShiftReduce: nat, maxShiftReduce: nat, errorAction: nat, acceptAction: nat, minReduce: nat,
    nToken: nat, wildcard: nat,
    shiftOfst: seq<nat>, reduceOfst: seq<int>, lookahead: seq<nat>, action: seq<nat>, default_: seq<nat>,
    fallback: seq<nat>,
    lhs: seq<nat>, nrhs: seq<nat>)

  /** The order of the action codes, and that no lookup runs off a table: only the first states have
      gotos, and where the lookahead table is longer than the action table it holds no token. */
  predicate Shaped(t: Tables) {
    && t.maxShift < t.minShiftReduce <= t.maxShiftReduce < t.errorAction < t.acceptAction < t.minReduce
    && |t.lhs| == |t.nrhs| == t.maxShiftReduce - t.minShiftReduce + 1
    && |t.shiftOfst| == |t.default_| == t.maxShift + 1 && |t.reduceOfst| <= t.maxShift + 1
    && |t.action| <= |t.lookahead| && (forall i | |t.action| <= i < |t.lookahead| :: t.lookahead[i] >= t.nToken)
    && t.wildcard < t.nToken && |t.fallback| <= t.nToken
    && (forall r | 0 <= r < |t.lhs| :: t.lhs[r] >= t.nToken)
    && forall k | 0 <= k < |t.fallback| ::
         t.fallback[k] != 0 ==> t.fallback[k] < t.nToken && Fallback(t, t.fallback[k]) == 0
  }

  function Fallback(t: Tables, token: nat): nat {
    if token < |t.fallback| then t.fallback[token] else 0
  }

  /** The action for a state and a lookahead token, and the token it is an action for: the lookahead
      itself, its fallback, or the wildcard. */
  function FindShift(t: Tables, token: nat, state: nat): (r: (nat, nat))
    requires Shaped(t) && token < t.nToken
    ensures state > t.maxShift ==> r.0 == state
    decreases if Fallback(t, token) != 0 then 1 else 0
  {
    if state > t.maxShift then (state, token)
    else
      var i := t.shiftOfst[state] + token;
      if i >= |t.lookahead| || t.lookahead[i] != token then
        if Fallback(t, token) != 0 then FindShift(t, Fallback(t, token), state)
        else
          var j := t.shiftOfst[state] + t.wildcard;
          if j < |t.lookahead| && t.lookahead[j] == t.wildcard && token > 0 then (t.action[j], t.wildcard)
          else (t.default_[state], token)
      else (t.action[i], token)
  }

  /** Token eff may stand in for the input token. */
  predicate Stands(t: Tables, token: nat, eff: nat) {
    || eff == token
    || (Fallback(t, token) != 0 && eff == Fallback(t, token))
    || (eff == t.wildcard && (token > 0 || Fallback(t, token) != 0))
  }

  lemma ShiftedStands(t: Tables, token: nat, state: nat)
    requires Shaped(t) && token < t.nToken
    ensures var eff := FindShift(t, token, state).1; eff < t.nToken && Stands(t, token, eff)
  {
  }

  /** The tables have an action of their own for the state and the token. */
  predicate IsListed(t: Tables, state: nat, token: nat) {
    state < |t.shiftOfst| && t.shiftOfst[state] + token < |t.lookahead| &&
    t.lookahead[t.shiftOfst[state] + token] == token
  }

  /** Which action is found: that for the token; failing that, for its fallback; failing that, for the
      wildcard, which stands for everything but the end of the input; failing that, the default. */
  lemma FindShiftIs(t: Tables, token: nat, state: nat)
    requires Shaped(t) && token < t.nToken
    ensures var instead := Fallback(t, token);
            FindShift(t, token, state) ==
            if state > t.maxShift then (state, token)
            else if IsListed(t, state, token) then (t.action[t.shiftOfst[state] + token], token)
            else if instead != 0 && IsListed(t, state, instead) then (t.action[t.shiftOfst[state] + instead], instead)
            else if IsListed(t, state, t.wildcard) && (token > 0 || instead != 0) then
              (t.action[t.shiftOfst[state] + t.wildcard], t.wildcard)
            else (t.default_[state], if instead != 0 then instead else token)
  {
    var instead := Fallback(t, token);
    if instead != 0 { assert Fallback(t, instead) == 0; }
  }

  /** Where the action for a state and a nonterminal is found: no default, no error. */
  predicate HasGoto(t: Tables, state: nat, symbol: nat)
    requires Shaped(t)
  {
    && state < |t.reduceOfst|
    && 0 <= t.reduceOfst[state] + symbol < |t.action|
    && t.lookahead[t.reduceOfst[state] + symbol] == symbol
  }

  function Goto(t: Tables, state: nat, symbol: nat): nat
    requires Shaped(t) && HasGoto(t, state, symbol)
  {
    t.action[t.reduceOfst[state] + symbol]
  }

  // ---------- the grammar ----------

  /** The start symbol, and for each rule the symbols allowed at each place of its right-hand side:
      Lemon lets a rule name several terminals for one place. */
  datatype Grammar = Grammar(start: nat, rhs: seq<seq<set<nat>>>)

  datatype Tree = Leaf(token: nat) | Node(rule: nat, kids: seq<Tree>)

  function Root(t: Tables, tree: Tree): nat {
    match tree
    case Leaf(token) => token
    case Node(rule, _) => if rule < |t.lhs| then t.lhs[rule] else 0
  }

  function Roots(t: Tables, trees: seq<Tree>): (r: seq<nat>)
    ensures |r| == |trees| && forall i | 0 <= i < |trees| :: r[i] == Root(t, trees[i])
  {
    seq(|trees|, i requires 0 <= i < |trees| => Root(t, trees[i]))
  }

  /** tree is a parse tree of the grammar. */
  predicate Parses(t: Tables, g: Grammar, tree: Tree) {
    match tree
    case Leaf(token) => token < t.nToken
    case Node(rule, kids) =>
      && rule < |g.rhs| && rule < |t.lhs|
      && MatchesRule(Roots(t, kids), g.rhs[rule])
      && forall k | k in kids :: Parses(t, g, k)
  }

  /** At each place there is one of the symbols allowed there. */
  predicate MatchesRule(syms: seq<nat>, places: seq<set<nat>>) {
    |syms| == |places| && forall i | 0 <= i < |syms| :: syms[i] in places[i]
  }

  function Yield(tree: Tree): seq<nat> {
    match tree
    case Leaf(token) => [token]
    case Node(_, kids) => Yields(kids)
  }

  function Yields(trees: seq<Tree>): seq<nat> {
    if trees == [] then [] else Yield(trees[0]) + Yields(trees[1..])
  }

  lemma {:induction false} YieldsConcat(a: seq<Tree>, b: seq<Tree>)
    ensures Yields(a + b) == Yields(a) + Yields(b)
  {
    if a == [] {
      assert a + b == b;
    } else {
      YieldsConcat(a[1..], b);
      assert (a + b)[1..] == a[1..] + b && (a + b)[0] == a[0];
      YieldsFirst(a);
      YieldsFirst(a + b);
      hide *;
      assert Yield(a[0]) + (Yields(a[1..]) + Yields(b)) == Yield(a[0]) + Yields(a[1..]) + Yields(b);
    }
  }

  lemma YieldsFirst(a: seq<Tree>)
    requires a != []
    ensures Yields(a) == Yield(a[0]) + Yields(a[1..])
  {
  }

  lemma YieldsOne(tree: Tree)
    ensures Yields([tree]) == Yield(tree)
  {
    assert [tree][1..] == [];
    assert Yields([tree]) == Yield(tree) + Yields([]);
  }

  // ---------- unit rules ----------

  /** Rule r has one place, and y may stand there. */
  predicate IsUnit(t: Tables, g: Grammar, r: nat, y: nat) {
    r < |g.rhs| && r < |t.lhs| && |g.rhs[r]| == 1 && y in g.rhs[r][0]
  }

  /** With at most n unit rules, y is made into one of the wanted symbols. */
  ghost predicate Reaches(t: Tables, g: Grammar, y: nat, wanted: set<nat>, n: nat)
    decreases n
  {
    y in wanted || (n > 0 && exists r: nat | IsUnit(t, g, r, y) :: Reaches(t, g, t.lhs[r], wanted, n - 1))
  }

  /** Symbol y can be made into one of the wanted symbols.  The table generator leaves out reductions
      by unit rules without an action, so that y lies on the stack where a wanted symbol is meant. */
  ghost predicate Suits(t: Tables, g: Grammar, y: nat, wanted: set<nat>) {
    exists n: nat :: Reaches(t, g, y, wanted, n)
  }

  /** The reductions left out are put back into the tree. */
  lemma {:induction false} LiftTree(t: Tables, g: Grammar, tree: Tree, wanted: set<nat>, n: nat) returns (lifted: Tree)
    requires Parses(t, g, tree) && Reaches(t, g, Root(t, tree), wanted, n)
    ensures Parses(t, g, lifted) && Root(t, lifted) in wanted && Yield(lifted) == Yield(tree)
    decreases n
  {
    var y := Root(t, tree);
    if y in wanted {
      lifted := tree;
    } else {
      var r: nat :| IsUnit(t, g, r, y) && Reaches(t, g, t.lhs[r], wanted, n - 1);
      var node := Node(r, [tree]);
      YieldsOne(tree);
      assert Roots(t, [tree]) == [y];
      lifted := LiftTree(t, g, node, wanted, n - 1);
    }
  }

  ghost predicate AllSuit(t: Tables, g: Grammar, syms: seq<nat>, places: seq<set<nat>>) {
    |syms| == |places| && forall i | 0 <= i < |syms| :: Suits(t, g, syms[i], places[i])
  }

  lemma {:induction false} LiftTrees(t: Tables, g: Grammar, trees: seq<Tree>, places: seq<set<nat>>)
      returns (kids: seq<Tree>)
    requires (forall k | k in trees :: Parses(t, g, k)) && AllSuit(t, g, Roots(t, trees), places)
    ensures (forall k | k in kids :: Parses(t, g, k)) && MatchesRule(Roots(t, kids), places)
    ensures Yields(kids) == Yields(trees)
    decreases |trees|
  {
    if trees == [] {
      kids := [];
    } else {
      var y := Roots(t, trees)[0];
      var n: nat :| Reaches(t, g, y, places[0], n);
      var first := LiftTree(t, g, trees[0], places[0], n);
      assert Roots(t, trees[1..]) == Roots(t, trees)[1..];
      var rest := LiftTrees(t, g, trees[1..], places[1..]);
      kids := [first] + rest;
      assert kids[1..] == rest;
    }
  }

  // ---------- when tables are right for a grammar ----------

  /** What is known one entry down the stack: the symbols the entry may have, and the states that can
      lie beneath it. */
  datatype Below = Below(symbols: set<nat>, states: set<nat>)

  /** What is known of a state code: the entries, topmost first, and for each token a bound on the
      reductions to come. */
  datatype Known = Known(below: seq<Below>, rank: seq<nat>)

  /** For each state code that can lie on the stack, what is known.  The codes are states, the reduce
      codes a fused shift leaves pending, and the accept code. */
  type Knowledge = map<nat, Known>

  /** Going from state s to state s' with symbol x, nothing is claimed that was not known. */
  ghost predicate Follows(k: Knowledge, s: nat, x: nat, s': nat) {
    && s in k && s' in k && s' != 0
    && |k[s'].below| <= |k[s].below| + 1
    && (|k[s'].below| > 0 ==> x in k[s'].below[0].symbols && s in k[s'].below[0].states)
    && forall i, j | 0 <= i && j == i + 1 < |k[s'].below| ::
         k[s].below[i].symbols <= k[s'].below[j].symbols && k[s].below[i].states <= k[s'].below[j].states
  }

  /** Rule r may be applied with state s on top and the given lookahead: its right-hand side is there,
      and whatever state is exposed has somewhere to go, with fewer reductions to come. */
  ghost predicate MayReduce(t: Tables, g: Grammar, k: Knowledge, s: nat, r: nat, token: nat)
    requires Shaped(t)
  {
    && s in k && r < |t.lhs| && r < |g.rhs| && |g.rhs[r]| == t.nrhs[r] <= |k[s].below|
    && (forall i | 0 <= i < t.nrhs[r] :: AllOf(t, g, k[s].below[i].symbols, g.rhs[r][t.nrhs[r] - 1 - i]))
    && (t.lhs[r] == g.start ==> token == 0)
    && if t.nrhs[r] == 0 then GotoRight(t, g, k, s, r, s, token)
       else forall q | q in k[s].below[t.nrhs[r] - 1].states :: GotoRight(t, g, k, q, r, s, token)
  }

  ghost predicate AllOf(t: Tables, g: Grammar, symbols: set<nat>, wanted: set<nat>) {
    forall y | y in symbols :: Suits(t, g, y, wanted)
  }

  /** The rank of a state code for a token. */
  function Rank(k: Knowledge, s: nat, token: nat): nat {
    if s in k && token < |k[s].rank| then k[s].rank[token] else 0
  }

  /** With state q exposed by reducing by rule r on top of state s, there is a goto, nothing new is
      claimed, and stack height and rank together go down. */
  ghost predicate GotoRight(t: Tables, g: Grammar, k: Knowledge, q: nat, r: nat, s: nat, token: nat)
    requires Shaped(t) && r < |t.lhs|
  {
    && HasGoto(t, q, t.lhs[r])
    && var a := Goto(t, q, t.lhs[r]);
       && (a <= t.maxShift || a >= t.minReduce || (a == t.acceptAction && q == 0 && t.lhs[r] == g.start))
       && Follows(k, q, t.lhs[r], a)
       && Rank(k, a, token) + 1 < Rank(k, s, token) + t.nrhs[r]
  }

  /** The state code a shift action puts on the stack. */
  function ShiftCode(t: Tables, a: nat): nat
    requires Shaped(t)
  {
    if a > t.maxShift then a + (t.minReduce - t.minShiftReduce) else a
  }

  ghost predicate ActionRight(t: Tables, g: Grammar, k: Knowledge, s: nat, token: nat)
    requires Shaped(t) && token < t.nToken
  {
    var (a, eff) := FindShift(t, token, s);
    if a <= t.maxShift || t.minShiftReduce <= a <= t.maxShiftReduce then
      s <= t.maxShift && Follows(k, s, eff, ShiftCode(t, a))
    else if a >= t.minReduce then MayReduce(t, g, k, s, a - t.minReduce, token)
    else if a == t.acceptAction then s == t.acceptAction
    else a == t.errorAction
  }

  /** Tables that are right for a grammar, as far as the knowledge k can tell. */
  ghost predicate Right(t: Tables, g: Grammar, k: Knowledge) {
    && Shaped(t)
    && 0 in k && k[0].below == []
    && (t.acceptAction in k ==> k[t.acceptAction].below == [Below({g.start}, {0})])
    && forall s, token: nat | s in k && token < t.nToken :: ActionRight(t, g, k, s, token)
  }

  // ---------- the stack ----------

  /** What state states[n] claims about the entries at and below n is so. */
  ghost predicate EntryOk(k: Knowledge, states: seq<nat>, syms: seq<nat>, n: nat)
    requires n < |states| == |syms| + 1
  {
    && states[n] in k && |k[states[n]].below| <= n
    && forall i | 0 <= i < |k[states[n]].below| ::
         syms[n - 1 - i] in k[states[n]].below[i].symbols && states[n - 1 - i] in k[states[n]].below[i].states
  }

  /** A stack as the automaton builds it: state 0 at the bottom and nowhere else, and every claim true. */
  ghost predicate StackOk(k: Knowledge, states: seq<nat>, syms: seq<nat>) {
    && |states| == |syms| + 1 && states[0] == 0
    && (forall n | 0 < n < |states| :: states[n] != 0)
    && forall n | 0 <= n < |states| :: EntryOk(k, states, syms, n)
  }

  lemma PushOk(k: Knowledge, states: seq<nat>, syms: seq<nat>, x: nat, s': nat)
    requires StackOk(k, states, syms) && Follows(k, states[|states| - 1], x, s')
    ensures StackOk(k, states + [s'], syms + [x])
  {
    var states', syms', n := states + [s'], syms + [x], |states|;
    var below := k[s'].below;
    assert EntryOk(k, states, syms, n - 1);
    forall m | 0 <= m < n
      ensures EntryOk(k, states', syms', m)
    {
      assert EntryOk(k, states, syms, m);
    }
    forall j | 0 <= j < |below|
      ensures syms'[n - 1 - j] in below[j].symbols && states'[n - 1 - j] in below[j].states
    {
      if j > 0 {
        var i := j - 1;
        var under := k[states[n - 1]].below[i];
        assert syms[n - 2 - i] in under.symbols && states[n - 2 - i] in under.states;
        assert under.symbols <= below[j].symbols && under.states <= below[j].states;
      }
    }
  }

  lemma PopOk(k: Knowledge, states: seq<nat>, syms: seq<nat>, m: nat)
    requires StackOk(k, states, syms) && m <= |syms|
    ensures StackOk(k, states[..m + 1], syms[..m])
  {
    var states', syms' := states[..m + 1], syms[..m];
    forall n | 0 <= n < |states'|
      ensures EntryOk(k, states', syms', n)
    {
      assert EntryOk(k, states, syms, n);
    }
  }

  /** A rule the tables allow finds its right-hand side on the stack, up to unit rules left out, and a
      place to go. */
  lemma ReduceOk(t: Tables, g: Grammar, k: Knowledge, states: seq<nat>, syms: seq<nat>, r: nat, token: nat)
    requires Right(t, g, k) && StackOk(k, states, syms)
    requires MayReduce(t, g, k, states[|states| - 1], r, token)
    ensures t.nrhs[r] <= |syms| && AllSuit(t, g, syms[|syms| - t.nrhs[r]..], g.rhs[r])
    ensures GotoRight(t, g, k, states[|syms| - t.nrhs[r]], r, states[|states| - 1], token)
    ensures var m := |syms| - t.nrhs[r];
            StackOk(k, states[..m + 1] + [Goto(t, states[m], t.lhs[r])], syms[..m] + [t.lhs[r]])
  {
    var n, c := |syms|, t.nrhs[r];
    var s := states[n];
    assert EntryOk(k, states, syms, n);
    forall i | 0 <= i < c
      ensures Suits(t, g, syms[n - c..][i], g.rhs[r][i])
    {
      var j := c - 1 - i;
      assert syms[n - 1 - j] in k[s].below[j].symbols;
      assert AllOf(t, g, k[s].below[j].symbols, g.rhs[r][c - 1 - j]);
    }
    if c > 0 {
      var j := c - 1;
      assert states[n - 1 - j] in k[s].below[j].states;
      assert states[n - c] in k[s].below[c - 1].states;
    }
    assert GotoRight(t, g, k, states[n - c], r, s, token);
    PopOk(k, states, syms, n - c);
    PushOk(k, states[..n - c + 1], syms[..n - c], t.lhs[r], Goto(t, states[n - c], t.lhs[r]));
  }

  /** With the accept code on top, the stack is that code on the bottom, and its symbol the start symbol. */
  lemma AcceptOk(t: Tables, g: Grammar, k: Knowledge, states: seq<nat>, syms: seq<nat>)
    requires Right(t, g, k) && StackOk(k, states, syms)
    requires states[|states| - 1] == t.acceptAction
    ensures |states| == 2 && syms == [g.start]
  {
    var n := |syms|;
    assert EntryOk(k, states, syms, n);
    assert syms[n - 1 - 0] in k[t.acceptAction].below[0].symbols;
    assert states[n - 1 - 0] in k[t.acceptAction].below[0].states;
  }

  /** A fused shift-reduce leaves the stack a plain shift, to any state whatever, and a reduce by the
      same rule would leave. */
  lemma FusedShift(t: Tables, states: seq<nat>, a: nat, plain: nat)
    requires Shaped(t) && t.minShiftReduce <= a <= t.maxShiftReduce
    requires 0 < t.nrhs[a - t.minShiftReduce] <= |states|
    requires HasGoto(t, states[|states| - t.nrhs[a - t.minShiftReduce]], t.lhs[a - t.minShiftReduce])
    ensures ShiftCode(t, a) - t.minReduce == a - t.minShiftReduce
    ensures forall token | 0 <= token < t.nToken :: FindShift(t, token, ShiftCode(t, a)).0 == ShiftCode(t, a)
    ensures var r := a - t.minShiftReduce;
            AfterReduce(t, states + [ShiftCode(t, a)], r) == AfterReduce(t, states + [plain], r)
  {
    var r := a - t.minShiftReduce;
    var m := |states| - t.nrhs[r];
    var fused, twice := states + [ShiftCode(t, a)], states + [plain];
    assert |fused| - 1 - t.nrhs[r] == m && |twice| - 1 - t.nrhs[r] == m;
    assert fused[m] == twice[m] && fused[..m + 1] == twice[..m + 1];
  }

  // ---------- chains of reductions ----------

  /** The states after reducing by rule r, or the states themselves where that cannot be done. */
  function AfterReduce(t: Tables, states: seq<nat>, r: nat): seq<nat>
    requires Shaped(t)
  {
    if r < |t.nrhs| && t.nrhs[r] < |states| then
      var m := |states| - 1 - t.nrhs[r];
      if HasGoto(t, states[m], t.lhs[r]) then states[..m + 1] + [Goto(t, states[m], t.lhs[r])] else states
    else states
  }

  /** A bound on the reductions that can be done before the next shift. */
  function StepsLeft(k: Knowledge, states: seq<nat>, token: nat): nat
    requires |states| > 0
  {
    |states| + Rank(k, states[|states| - 1], token)
  }

  /** Right tables do not reduce for ever without consuming a token. */
  lemma ReduceCounts(t: Tables, g: Grammar, k: Knowledge, states: seq<nat>, syms: seq<nat>, r: nat, token: nat)
    requires Right(t, g, k) && StackOk(k, states, syms)
    requires MayReduce(t, g, k, states[|states| - 1], r, token)
    ensures |AfterReduce(t, states, r)| > 0
    ensures StepsLeft(k, AfterReduce(t, states, r), token) < StepsLeft(k, states, token)
    ensures var next := AfterReduce(t, states, r); next[|next| - 1] == t.acceptAction ==> token == 0
  {
    ReduceOk(t, g, k, states, syms, r, token);
    hide Right, StackOk, Follows, AllSuit;
  }

  // ---------- what the tables make of a token ----------

  /** What becomes of a token: it is put on the stack, as itself or another one; the input is accepted; it
      is refused, after reductions; or the stack is too small. */
  datatype Outcome = Shifted(states: seq<nat>, token: nat) | Accepted | Refused(states: seq<nat>) | Overflowed

  /** The action that ends the work on a token. */
  function Final(t: Tables, depth: nat, states: seq<nat>, a: nat, eff: nat): Outcome
    requires Shaped(t)
  {
    if a == t.acceptAction then Accepted
    else if a == t.errorAction then Refused(states)
    else if |states| >= depth then Overflowed
    else Shifted(states + [ShiftCode(t, a)], eff)
  }

  /** From these states, on a stack of at most depth entries, the token comes to outcome o after n
      reductions. */
  ghost predicate Comes(t: Tables, depth: nat, token: nat, states: seq<nat>, n: nat, o: Outcome)
    requires Shaped(t) && token < t.nToken && |states| > 0
    decreases n
  {
    var (a, eff) := FindShift(t, token, states[|states| - 1]);
    if a < t.minReduce then n == 0 && o == Final(t, depth, states, a, eff)
    else
      && n > 0
      && var next := AfterReduce(t, states, a - t.minReduce);
         if |next| > depth then n == 1 && o == Overflowed else Comes(t, depth, token, next, n - 1, o)
  }

  ghost predicate Ends(t: Tables, depth: nat, token: nat, states: seq<nat>, o: Outcome)
    requires Shaped(t) && token < t.nToken && |states| > 0
  {
    exists n: nat :: Comes(t, depth, token, states, n, o)
  }

  lemma {:induction false} ComesOnce(t: Tables, depth: nat, token: nat, states: seq<nat>,
                                     n: nat, o: Outcome, n': nat, o': Outcome)
    requires Shaped(t) && token < t.nToken && |states| > 0
    requires Comes(t, depth, token, states, n, o) && Comes(t, depth, token, states, n', o')
    ensures n == n' && o == o'
    decreases n
  {
    hide Shaped, FindShift, Final, AfterReduce;
    var (a, eff) := FindShift(t, token, states[|states| - 1]);
    if a >= t.minReduce {
      var next := AfterReduce(t, states, a - t.minReduce);
      if |next| <= depth {
        ComesLater(t, depth, token, states, n, o);
        ComesLater(t, depth, token, states, n', o');
        hide Comes;
        ComesOnce(t, depth, token, next, n - 1, o, n' - 1, o');
      }
    }
  }

  /** After a reduction that fits there is one reduction less to come. */
  lemma ComesLater(t: Tables, depth: nat, token: nat, states: seq<nat>, n: nat, o: Outcome)
    requires Shaped(t) && token < t.nToken && |states| > 0 && Comes(t, depth, token, states, n, o)
    requires FindShift(t, token, states[|states| - 1]).0 >= t.minReduce
    ensures var next := AfterReduce(t, states, FindShift(t, token, states[|states| - 1]).0 - t.minReduce);
            n > 0 && |next| > 0 && (|next| <= depth ==> Comes(t, depth, token, next, n - 1, o))
  {
    hide Shaped, FindShift, Final;
  }

  /** There is one outcome. */
  lemma EndsOnce(t: Tables, depth: nat, token: nat, states: seq<nat>, o: Outcome, o': Outcome)
    requires Shaped(t) && token < t.nToken && |states| > 0
    requires Ends(t, depth, token, states, o) && Ends(t, depth, token, states, o')
    ensures o == o'
  {
    var n: nat :| Comes(t, depth, token, states, n, o);
    var n': nat :| Comes(t, depth, token, states, n', o');
    ComesOnce(t, depth, token, states, n, o, n', o');
  }

  /** After a reduction that fits the outcome is what it is from there. */
  lemma EndsAfter(t: Tables, depth: nat, token: nat, states: seq<nat>, o: Outcome)
    requires Shaped(t) && token < t.nToken && |states| > 0
    requires FindShift(t, token, states[|states| - 1]).0 >= t.minReduce
    ensures var next := AfterReduce(t, states, FindShift(t, token, states[|states| - 1]).0 - t.minReduce);
            && |next| > 0 && (|next| > depth ==> Ends(t, depth, token, states, Overflowed))
            && (|next| <= depth && Ends(t, depth, token, next, o) ==> Ends(t, depth, token, states, o))
  {
    var next := AfterReduce(t, states, FindShift(t, token, states[|states| - 1]).0 - t.minReduce);
    assert |next| > 0;
    if |next| > depth {
      assert Comes(t, depth, token, states, 1, Overflowed);
    } else if Ends(t, depth, token, next, o) {
      var n: nat :| Comes(t, depth, token, next, n, o);
      assert Comes(t, depth, token, states, n + 1, o);
    }
  }

  /** The action that ends it gives the outcome. */
  lemma EndsHere(t: Tables, depth: nat, token: nat, states: seq<nat>)
    requires Shaped(t) && token < t.nToken && |states| > 0
    requires FindShift(t, token, states[|states| - 1]).0 < t.minReduce
    ensures var (a, eff) := FindShift(t, token, states[|states| - 1]);
            Ends(t, depth, token, states, Final(t, depth, states, a, eff))
  {
    var (a, eff) := FindShift(t, token, states[|states| - 1]);
    assert Comes(t, depth, token, states, 0, Final(t, depth, states, a, eff));
  }

  predicate AreTokens(t: Tables, input: seq<nat>) {
    forall i | 0 <= i < |input| :: 0 < input[i] < t.nToken
  }

  /** By the tables, every token of the input is put on the stack, and the input is accepted at its end. */
  ghost predicate AcceptsFrom(t: Tables, depth: nat, states: seq<nat>, input: seq<nat>)
    requires Shaped(t) && |states| > 0 && AreTokens(t, input)
    decreases |input|
  {
    if input == [] then Ends(t, depth, 0, states, Accepted)
    else exists s, eff :: Ends(t, depth, input[0], states, Shifted(s, eff)) && |s| > 0 &&
                          AcceptsFrom(t, depth, s, input[1..])
  }

  /** It depends on what becomes of the first token. */
  lemma AcceptsNext(t: Tables, depth: nat, states: seq<nat>, input: seq<nat>, o: Outcome)
    requires Shaped(t) && |states| > 0 && AreTokens(t, input) && input != []
    requires Ends(t, depth, input[0], states, o) && (o.Shifted? ==> |o.states| > 0)
    ensures AcceptsFrom(t, depth, states, input) <==> o.Shifted? && AcceptsFrom(t, depth, o.states, input[1..])
  {
    if AcceptsFrom(t, depth, states, input) {
      var s, eff :| Ends(t, depth, input[0], states, Shifted(s, eff)) && |s| > 0 &&
                    AcceptsFrom(t, depth, s, input[1..]);
      EndsOnce(t, depth, input[0], states, o, Shifted(s, eff));
    }
  }
}
