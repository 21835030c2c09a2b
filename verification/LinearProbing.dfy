/** The hash table of a sparse bitmap: a fixed number of slots, open addressing with linear
    probing, zero for a free slot.  Everything here is about the table as a value; the
    in-place code is in module Bitvecs. */
module LinearProbing {

  // Number of slots: 496 bytes of 4-byte words.
  const NINT: nat := 124

  /** The slot a value is looked for first. */
  function Home(v: nat): (h: nat)
    requires v > 0
    ensures h < NINT
  {
    (v - 1) % NINT
  }

  /** The slot probed after slot h. */
  function Next(h: nat): nat
    requires h < NINT
  {
    if h + 1 >= NINT then 0 else h + 1
  }

  /** Slot k is one of those visited when probing from slot h up to, not including, slot j. */
  predicate Inside(h: nat, k: nat, j: nat) {
    if h <= j then h <= k < j else k >= h || k < j
  }

  /** Every stored value can be reached: no slot between its home and its place is free. */
  ghost predicate NoGap(t: seq<nat>)
    requires |t| == NINT
  {
    forall j, k | 0 <= j < NINT && 0 <= k < NINT && t[j] != 0 && Inside(Home(t[j]), k, j) :: t[k] != 0
  }

  ghost predicate Distinct(t: seq<nat>) {
    forall j, k | 0 <= j < k < |t| && t[j] != 0 :: t[j] != t[k]
  }

  /** Number of occupied slots. */
  function Used(t: seq<nat>): (n: nat)
    ensures n <= |t|
  {
    if t == [] then 0
    else Used(t[..|t| - 1]) + if t[|t| - 1] != 0 then 1 else 0
  }

  /** The invariant of a hash node's table: reachable, distinct, and with a slot to spare. */
  ghost predicate Probed(t: seq<nat>) {
    && |t| == NINT
    && NoGap(t)
    && Distinct(t)
    && Used(t) < NINT
  }

  lemma {:induction false} UsedUpdate(t: seq<nat>, h: nat, v: nat)
    requires h < |t| && t[h] == 0 && v != 0
    ensures Used(t[h := v]) == Used(t) + 1
  {
    var n := |t| - 1;
    if h == n {
      assert t[h := v][..n] == t[..n];
    } else {
      UsedUpdate(t[..n], h, v);
      assert t[h := v][..n] == t[..n][h := v];
    }
  }

  lemma {:induction false} UsedPrefix(t: seq<nat>, n: nat)
    requires n <= |t|
    ensures Used(t[..n]) <= Used(t)
    ensures n < |t| && t[n] != 0 ==> Used(t[..n]) < Used(t)
  {
    if n < |t| {
      var m := |t| - 1;
      if n < m {
        UsedPrefix(t[..m], n);
        assert t[..m][..n] == t[..n];
      }
    } else {
      assert t[..n] == t;
    }
  }

  /** A table that is not full has a free slot. */
  lemma {:induction false} FreeSlot(t: seq<nat>) returns (f: nat)
    requires Used(t) < |t|
    ensures f < |t| && t[f] == 0
  {
    var n := |t| - 1;
    if t[n] == 0 {
      f := n;
    } else {
      f := FreeSlot(t[..n]);
    }
  }

  lemma {:induction false} UsedZero(t: seq<nat>)
    requires forall k | 0 <= k < |t| :: t[k] == 0
    ensures Used(t) == 0
  {
    if t != [] {
      UsedZero(t[..|t| - 1]);
    }
  }

  /** Probing for v that stops at a free slot without meeting v proves v is not stored. */
  lemma ProbeMiss(t: seq<nat>, v: nat, h: nat)
    requires Probed(t) && v > 0
    requires h < NINT && t[h] == 0
    requires forall k | 0 <= k < NINT && Inside(Home(v), k, h) :: t[k] != v
    ensures v !in t
  {
  }

  /** Storing a new value in the first free slot keeps the table's invariant. */
  lemma StoreKeepsProbed(t: seq<nat>, v: nat, h: nat, t': seq<nat>)
    requires Probed(t) && v > 0 && v !in t
    requires Used(t) + 1 < NINT
    requires h < NINT && t[h] == 0 && t' == t[h := v]
    requires forall k | 0 <= k < NINT && Inside(Home(v), k, h) :: t[k] != 0
    ensures Probed(t') && Used(t') == Used(t) + 1
    ensures forall x :: x in t' ==> x in t || x == v
    ensures forall x :: x == v || (x in t && x != 0) ==> x in t'
  {
    UsedUpdate(t, h, v);
    assert t'[h] == v;
    forall x | x in t && x != 0
      ensures x in t'
    {
      var j :| 0 <= j < NINT && t[j] == x;
      assert t'[j] == x;
    }
    forall j, k | 0 <= j < NINT && 0 <= k < NINT && t'[j] != 0 && Inside(Home(t'[j]), k, j)
      ensures t'[k] != 0
    {
      if j != h {
        assert t[j] != 0;
      }
    }
  }

  lemma EmptyIsProbed(t: seq<nat>)
    requires |t| == NINT && forall k | 0 <= k < |t| :: t[k] == 0
    ensures Probed(t) && Used(t) == 0
  {
    UsedZero(t);
  }

  /** Cyclic distance from slot h to slot f: what a probe loop that stops at f has left to do. */
  function Distance(h: nat, f: nat): nat
    requires h < NINT && f < NINT
  {
    if h <= f then f - h else f - h + NINT
  }
}
