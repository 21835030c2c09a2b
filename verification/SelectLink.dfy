/** The linking of a compound SELECT, which the parser builds from left to right. */
module SelectLink {

  class Select {
    var pPrior: Select?
    var pNext: Select?
    /** SF_Compound and SF_MultiValue of selFlags. */
    var compound: bool
    var multiValue: bool

    constructor (pPrior: Select?, multiValue: bool)
      ensures this.pPrior == pPrior && pNext == null && !compound && this.multiValue == multiValue
    {
      this.pPrior, pNext, compound, this.multiValue := pPrior, null, false, multiValue;
    }
  }

  /** The terms of a compound from the right-most one on, by the links to the left. */
  ghost predicate Chain(terms: seq<Select>)
    reads terms
  {
    && terms != [] && terms[|terms| - 1].pPrior == null
    && (forall i, j | 0 <= i < j < |terms| :: terms[i] != terms[j])
    && (forall i, j | 0 <= i < |terms| && j == i + 1 && j < |terms| :: terms[i].pPrior == terms[j])
  }

  /** The first n terms are linked back to the right, and marked. */
  ghost predicate LinkedBack(terms: seq<Select>, n: nat)
    requires n <= |terms|
    reads terms
  {
    && (forall i | 0 <= i < n :: terms[i].compound)
    && (0 < n ==> terms[0].pNext == null)
    && (forall i, j | 0 <= i < n && j == i + 1 && j < n :: terms[j].pNext == terms[i])
  }

  lemma Alone(terms: seq<Select>)
    requires Chain(terms)
    ensures terms[0].pPrior == null <==> |terms| == 1
  {
    if |terms| > 1 {
      assert terms[0].pPrior == terms[1];
    }
  }

  /** parserDoubleLinkSelect: the terms of a compound become a doubly linked list, and the result says
      whether there are more than the limit allows.  mxSelect is 0 or less when there is no limit. */
  method DoubleLinkSelect(p: Select, mxSelect: int, ghost terms: seq<Select>) returns (tooMany: bool)
    requires Chain(terms) && terms[0] == p
    modifies terms
    ensures Chain(terms) && forall t | t in terms :: t.pPrior == old(t.pPrior) && t.multiValue == old(t.multiValue)
    ensures |terms| > 1 ==> LinkedBack(terms, |terms|)
    ensures |terms| == 1 ==> p.pNext == old(p.pNext) && p.compound == old(p.compound)
    ensures tooMany <==> |terms| > 1 && !p.multiValue && 0 < mxSelect < |terms|
  {
    tooMany := false;
    Alone(terms);
    if p.pPrior == null { return; }
    var pNext: Select?, pLoop: Select? := null, p;
    var cnt := 0;
    while pLoop != null
      invariant cnt <= |terms| && pLoop == (if cnt < |terms| then terms[cnt] else null)
      invariant pNext == if cnt > 0 then terms[cnt - 1] else null
      invariant forall t | t in terms :: t.pPrior == old(t.pPrior) && t.multiValue == old(t.multiValue)
      invariant LinkedBack(terms, cnt)
      decreases |terms| - cnt
    {
      assert pLoop in terms;
      pLoop.pNext := pNext;
      pLoop.compound := true;
      pNext := pLoop;
      assert cnt + 1 < |terms| ==> terms[cnt].pPrior == terms[cnt + 1];
      pLoop := pLoop.pPrior;
      cnt := cnt + 1;
    }
    tooMany := !p.multiValue && mxSelect > 0 && cnt > mxSelect;
  }
}
