/** A small grammar and tables for it, as the generator would make them: input ::= list, list ::= list A,
    list ::= A.  Tokens are the end of the input (0), A (1), a keyword that may stand for A (2), and the
    wildcard (3); symbols 4 and 5 are input and list. */
module LrExample {
  import opened LrTables

  /** State 0 is the start, state 1 has a list on the stack.  Both shift A by reducing at once. */
  function Sample(): Tables {
    Tables(1, 2, 4, 5, 6, 8, 4, 3, [0, 6], [0], [9, 1, 9, 9, 4, 5, 0, 1], [5, 4, 5, 5, 6, 1, 8, 3], [5, 5],
           [0, 0, 1], [4, 5, 5], [1, 2, 1])
  }

  function SampleGrammar(): Grammar {
    Grammar(4, [[{5}], [{5}, {1}], [{1}]])
  }

  /** Codes 9 and 10 are the reductions by the second and the third rule that a shift leaves pending. */
  function SampleKnowledge(): Knowledge {
    map[0 := Known([], [0, 0, 0, 0]),
        1 := Known([Below({5}, {0})], [1, 1, 1, 1]),
        6 := Known([Below({4}, {0})], [0, 0, 0, 0]),
        9 := Known([Below({1}, {1}), Below({5}, {0})], [1, 1, 1, 1]),
        10 := Known([Below({1}, {0})], [2, 2, 2, 2])]
  }

  /** The tables, entry by entry. */
  lemma SampleEntries()
    ensures var t := Sample();
            && t.maxShift == 1 && t.minShiftReduce == 2 && t.maxShiftReduce == 4 && t.errorAction == 5
            && t.acceptAction == 6 && t.minReduce == 8 && t.nToken == 4 && t.wildcard == 3
            && |t.shiftOfst| == 2 && t.shiftOfst[0] == 0 && t.shiftOfst[1] == 6
            && |t.reduceOfst| == 1 && t.reduceOfst[0] == 0 && |t.lookahead| == 8 && |t.action| == 8
            && t.lookahead[0] == 9 && t.lookahead[1] == 1 && t.lookahead[2] == 9 && t.lookahead[3] == 9
            && t.lookahead[4] == 4 && t.lookahead[5] == 5 && t.lookahead[6] == 0 && t.lookahead[7] == 1
            && t.action[1] == 4 && t.action[4] == 6 && t.action[5] == 1 && t.action[6] == 8 && t.action[7] == 3
            && |t.default_| == 2 && t.default_[0] == 5 && t.default_[1] == 5
            && |t.fallback| == 3 && t.fallback[0] == 0 && t.fallback[1] == 0 && t.fallback[2] == 1
            && |t.lhs| == 3 && t.lhs[0] == 4 && t.lhs[1] == 5 && t.lhs[2] == 5
            && |t.nrhs| == 3 && t.nrhs[0] == 1 && t.nrhs[1] == 2 && t.nrhs[2] == 1
  {
  }

  lemma SampleShaped()
    ensures Shaped(Sample())
  {
    SampleEntries();
    hide Sample;
  }

  /** The action for a state and a token: the keyword stands for A, and nothing for the wildcard. */
  lemma SampleActions(s: nat, token: nat)
    requires token < 4
    ensures Shaped(Sample())
    ensures FindShift(Sample(), token, s) ==
            if s > 1 then (s, token)
            else if token == 1 || token == 2 then (if s == 0 then 4 else 3, 1)
            else if s == 1 && token == 0 then (8, 0)
            else (5, token)
  {
    SampleShaped();
    SampleEntries();
    FindShiftIs(Sample(), token, s);
    hide Sample, FindShift;
  }

  lemma SampleGotos()
    ensures var t := Sample();
            Shaped(t) && HasGoto(t, 0, 4) && Goto(t, 0, 4) == 6 && HasGoto(t, 0, 5) && Goto(t, 0, 5) == 1
  {
    SampleShaped();
    SampleEntries();
    hide Sample, Shaped;
  }

  /** What is known, entry by entry. */
  lemma SampleKnows()
    ensures var k := SampleKnowledge();
            && k.Keys == {0, 1, 6, 9, 10} && k[0].below == []
            && k[1].below == [Below({5}, {0})] && k[6].below == [Below({4}, {0})] && k[10].below == [Below({1}, {0})]
            && k[9].below == [Below({1}, {1}), Below({5}, {0})]
    ensures forall token: nat | token < 4 ::
              var k := SampleKnowledge();
              && Rank(k, 1, token) == Rank(k, 9, token) == 1 && Rank(k, 6, token) == 0 && Rank(k, 10, token) == 2
  {
  }

  lemma SampleFollows()
    ensures var k := SampleKnowledge();
            Follows(k, 0, 1, 10) && Follows(k, 0, 5, 1) && Follows(k, 0, 4, 6) && Follows(k, 1, 1, 9)
  {
    SampleKnows();
    hide SampleKnowledge;
  }

  lemma SampleSuits(y: nat, wanted: set<nat>)
    requires y in wanted
    ensures Suits(Sample(), SampleGrammar(), y, wanted)
  {
    assert Reaches(Sample(), SampleGrammar(), y, wanted, 0);
  }

  /** The right-hand sides of the rules. */
  lemma SampleRules()
    ensures var g := SampleGrammar();
            g.start == 4 && |g.rhs| == 3 && g.rhs[0] == [{5}] && g.rhs[1] == [{5}, {1}] && g.rhs[2] == [{1}]
  {
  }

  /** With code s on the stack rule r can be applied, which leads on from state 0. */
  lemma ByRule(s: nat, r: nat, token: nat)
    requires token < 4 && ((s == 1 && r == 0 && token == 0) || (s == 9 && r == 1) || (s == 10 && r == 2))
    ensures Shaped(Sample()) && MayReduce(Sample(), SampleGrammar(), SampleKnowledge(), s, r, token)
  {
    SampleShaped();
    SampleEntries();
    SampleKnows();
    SampleRules();
    SampleSuits(5, {5});
    SampleSuits(1, {1});
    FromZero(s, r, token);
    hide Sample, SampleGrammar, SampleKnowledge, Shaped, Suits, GotoRight;
  }

  lemma FromZero(s: nat, r: nat, token: nat)
    requires token < 4 && ((s == 1 && r == 0) || (s == 9 && r == 1) || (s == 10 && r == 2))
    ensures Shaped(Sample()) && |Sample().lhs| == 3
    ensures GotoRight(Sample(), SampleGrammar(), SampleKnowledge(), 0, r, s, token)
  {
    SampleShaped();
    SampleEntries();
    SampleKnows();
    SampleRules();
    SampleFollows();
    SampleGotos();
    hide Sample, SampleGrammar, SampleKnowledge, Shaped, HasGoto, Goto, Follows, Rank;
  }

  lemma SampleAction(s: nat, token: nat)
    requires token < 4 && s in SampleKnowledge()
    ensures Shaped(Sample()) && ActionRight(Sample(), SampleGrammar(), SampleKnowledge(), s, token)
  {
    SampleActions(s, token);
    SampleEntries();
    SampleKnows();
    SampleFollows();
    if s == 1 && token == 0 { ByRule(1, 0, 0); }
    if s == 9 || s == 10 { ByRule(s, s - 8, token); }
    hide Sample, SampleGrammar, SampleKnowledge, FindShift, Shaped, Follows, MayReduce;
  }

  /** The tables are right for the grammar. */
  lemma SampleIsRight()
    ensures Right(Sample(), SampleGrammar(), SampleKnowledge())
  {
    SampleShaped();
    SampleEntries();
    SampleKnows();
    SampleRules();
    var t, g, k := Sample(), SampleGrammar(), SampleKnowledge();
    hide Sample, SampleGrammar, SampleKnowledge, Shaped, ActionRight;
    forall s, token: nat | s in k && token < t.nToken ensures ActionRight(t, g, k, s, token) {
      SampleAction(s, token);
    }
  }

  lemma FirstToken()
    ensures var t := Sample(); Shaped(t) && Ends(t, 3, 2, [0], Shifted([0, 10], 1))
  {
    var t := Sample();
    SampleActions(0, 2);
    SampleEntries();
    EndsHere(t, 3, 2, [0]);
    assert [0] + [10] == [0, 10];
    hide Sample, Shaped, FindShift, Ends;
  }

  lemma SecondToken()
    ensures var t := Sample(); Shaped(t) && Ends(t, 3, 1, [0, 10], Shifted([0, 1, 9], 1))
  {
    var t := Sample();
    SampleActions(1, 1);
    SampleActions(10, 1);
    SampleEntries();
    SampleGotos();
    hide Sample, Shaped, FindShift, Ends, HasGoto, Goto;
    EndsHere(t, 3, 1, [0, 1]);
    assert [0, 1] + [9] == [0, 1, 9];
    assert AfterReduce(t, [0, 10], 2) == [0, 1] by { assert [0, 10][..1] + [1] == [0, 1]; }
    EndsAfter(t, 3, 1, [0, 10], Shifted([0, 1, 9], 1));
  }

  lemma LastToken()
    ensures var t := Sample(); Shaped(t) && Ends(t, 3, 0, [0, 1, 9], Accepted)
  {
    var t := Sample();
    SampleActions(1, 0);
    SampleActions(6, 0);
    SampleActions(9, 0);
    SampleEntries();
    SampleGotos();
    hide Sample, Shaped, FindShift, Ends, HasGoto, Goto;
    EndsHere(t, 3, 0, [0, 6]);
    assert AfterReduce(t, [0, 1], 0) == [0, 6] by { assert [0, 1][..1] + [6] == [0, 6]; }
    EndsAfter(t, 3, 0, [0, 1], Accepted);
    assert AfterReduce(t, [0, 1, 9], 1) == [0, 1] by { assert [0, 1, 9][..1] + [1] == [0, 1]; }
    EndsAfter(t, 3, 0, [0, 1, 9], Accepted);
  }

  /** A and the keyword in its place: each is shifted, and the list is accepted. */
  lemma SampleAccepts()
    ensures var t := Sample(); Shaped(t) && AreTokens(t, [2, 1]) && AcceptsFrom(t, 3, [0], [2, 1])
  {
    var t := Sample();
    FirstToken();
    SecondToken();
    LastToken();
    SampleEntries();
    hide Sample, Shaped, Ends;
    assert AreTokens(t, [2, 1]) && AreTokens(t, [1]) && AreTokens(t, []) && [2, 1][1..] == [1] && [1][1..] == [];
    AtEnd([0, 1, 9]);
    hide *;
    AcceptsNext(t, 3, [0, 10], [1], Shifted([0, 1, 9], 1));
    AcceptsNext(t, 3, [0], [2, 1], Shifted([0, 10], 1));
  }

  lemma AtEnd(states: seq<nat>)
    requires states != [] && Shaped(Sample()) && Ends(Sample(), 3, 0, states, Accepted)
    ensures AcceptsFrom(Sample(), 3, states, [])
  {
    hide Ends;
  }

  /** The empty input is refused. */
  lemma SampleRefuses()
    ensures var t := Sample(); Shaped(t) && AreTokens(t, []) && !AcceptsFrom(t, 3, [0], [])
  {
    var t := Sample();
    SampleActions(0, 0);
    SampleEntries();
    hide Sample, Shaped, FindShift, Ends;
    EndsHere(t, 3, 0, [0]);
    if Ends(t, 3, 0, [0], Accepted) { EndsOnce(t, 3, 0, [0], Accepted, Refused([0])); }
  }
}
