/** The sparse bitmap object.  One node is a flat bitmap, a hash table or an array of sub-bitmaps,
    and a hash node turns into an array of sub-bitmaps while in use.

    The nodes of one bitmap are owned by its root, whose ghost fields say what the bitmap means:
    Contents is the set of its members, Nodes are all its nodes, and Owner[x] is the one node that
    answers for member x (a leaf, or the node whose null sub-bitmap pointer x leads to). */
module Bitvecs {
  import opened LinearProbing

  // Layout of a node on a machine with 8-byte pointers: a union of 496 bytes.
  const NELEM: nat := 496
  const SZELEM: nat := 8
  const NBIT: nat := NELEM * SZELEM
  const MXHASH: nat := NINT / 2
  const NPTR: nat := 62

  const U32: nat := 0x1_0000_0000
  const SQLITE_OK: bv32 := 0

  // The largest size whose divisor computation does not wrap around.
  const MAX_SIZE: nat := U32 - NPTR

  /** The number of values one sub-bitmap handles, in 32-bit arithmetic. */
  function Divisor(size: nat): nat {
    (size + NPTR - 1) % U32 / NPTR
  }

  /** A u8 with only bit k set. */
  function Mask(k: nat): bv8
    requires k < 8
  {
    1 << k
  }

  predicate Bit(b: bv8, k: nat)
    requires k < 8
  {
    b & Mask(k) != 0
  }

  lemma BitSet(b: bv8, k: nat, j: nat)
    requires k < 8 && j < 8
    ensures Bit(b | Mask(k), j) <==> j == k || Bit(b, j)
  {
  }

  lemma BitCleared(b: bv8, k: nat, j: nat)
    requires k < 8 && j < 8
    ensures Bit(b & !Mask(k), j) <==> j != k && Bit(b, j)
  {
  }

  lemma DivisorBounds(size: nat)
    requires NBIT < size <= MAX_SIZE
    ensures 0 < Divisor(size) < size
    ensures Divisor(size) * NPTR >= size
  {
  }

  /** Exactly the sizes above MAX_SIZE lose their divisor to wrap-around.  A hash node that large
      would stay a hash node for ever, so its re-hashing could not make room. */
  lemma DivisorWraps(size: nat)
    requires NBIT < size < U32
    ensures Divisor(size) == 0 <==> size > MAX_SIZE
  {
    if size > MAX_SIZE {
      assert (size + NPTR - 1) % U32 == size + NPTR - 1 - U32;
    }
  }

  ghost function Upto(n: nat): (s: set<nat>)
    ensures forall x: nat :: x in s <==> x <= n
  {
    if n == 0 then {0} else Upto(n - 1) + {n}
  }

  lemma Multiples(a: int, b: int, d: nat)
    ensures a >= b ==> a * d >= b * d
  {
  }

  /** Where a value goes on the way down. */
  lemma DescendBounds(size: nat, d: nat, cap: nat, k: nat)
    requires NBIT < size <= MAX_SIZE && d == Divisor(size) && k < cap <= size
    ensures 0 < d < size
    ensures 0 <= k / d < NPTR && (k / d) * d <= k && 0 <= k % d == k - (k / d) * d < d
  {
    DivisorBounds(size);
    assert k == (k / d) * d + k % d;
    Multiples(k / d, NPTR, d);
  }

  /** The last local value before those of slot b: b * d. */
  function Start(b: nat, d: nat): nat {
    if b == 0 then 0 else Start(b - 1, d) + d
  }

  lemma {:induction false} StartIsProduct(b: nat, d: nat)
    ensures Start(b, d) == b * d
  {
    if b > 0 {
      StartIsProduct(b - 1, d);
    }
  }

  /** Slots do not overlap. */
  lemma {:induction false} StartOrder(b: nat, b': nat, d: nat)
    requires b < b'
    ensures Start(b, d) + d <= Start(b', d)
  {
    if b + 1 < b' {
      StartOrder(b, b' - 1, d);
    }
  }

  /** What the union of a node holds. */
  datatype Rep =
    | Flat(bits: seq<bv8>)
    | Hash(table: seq<nat>, n: nat)
    | Inner(d: nat, sub: seq<Bitvec?>)

  // ---------- the invariant, as a predicate on a snapshot of all nodes ----------

  /** Local value i of a flat bitmap. */
  ghost predicate BitAt(bits: seq<bv8>, i: nat)
    requires |bits| == NELEM && 0 < i <= NBIT
  {
    Bit(bits[(i - 1) / SZELEM], (i - 1) % SZELEM)
  }

  lemma BitsSet(bits: seq<bv8>, k: nat, i: nat)
    requires |bits| == NELEM && k < NBIT && 0 < i <= NBIT
    ensures var bits' := bits[k / SZELEM := bits[k / SZELEM] | Mask(k % SZELEM)];
            BitAt(bits', i) <==> i == k + 1 || BitAt(bits, i)
  {
    BitSet(bits[k / SZELEM], k % SZELEM, (i - 1) % SZELEM);
  }

  lemma BitsCleared(bits: seq<bv8>, k: nat, i: nat)
    requires |bits| == NELEM && k < NBIT && 0 < i <= NBIT
    ensures var bits' := bits[k / SZELEM := bits[k / SZELEM] & !Mask(k % SZELEM)];
            BitAt(bits', i) <==> i != k + 1 && BitAt(bits, i)
  {
    BitCleared(bits[k / SZELEM], k % SZELEM, (i - 1) % SZELEM);
  }

  ghost predicate Owns(owner: map<nat, Bitvec>, x: nat, n: Bitvec) {
    x in owner && owner[x] == n
  }

  /** Node p with contents rep is in order. */
  ghost predicate Fits(p: Bitvec, rep: Rep, nodes: set<Bitvec>, contents: set<nat>, owner: map<nat, Bitvec>) {
    && p.cap <= p.iSize <= MAX_SIZE
    && p.base + p.cap <= p.root.iSize
    && match rep
       case Flat(bits) =>
         && p.iSize <= NBIT && |bits| == NELEM
         && forall x: nat | p.Covers(x) :: Owns(owner, x, p) && (x in contents <==> BitAt(bits, x - p.base))
       case Hash(t, n) =>
         && p.iSize > NBIT && Probed(t) && n == Used(t)
         && (forall v | v in t :: v <= p.cap)
         && forall x: nat | p.Covers(x) :: Owns(owner, x, p) && (x in contents <==> x - p.base in t)
       case Inner(d, sub) =>
         && p.iSize > NBIT && d == Divisor(p.iSize) && d > 0 && |sub| == NPTR
         && forall b | 0 <= b < NPTR ::
              if sub[b] == null then
                forall x: nat | p.Covers(x) && Start(b, d) < x - p.base <= Start(b, d) + d ::
                  Owns(owner, x, p) && x !in contents
              else
                sub[b] in nodes && IsSub(p, d, b, sub[b])
  }

  /** c has the size and the place of the sub-bitmap in slot b of p. */
  ghost predicate IsSub(p: Bitvec, d: nat, b: nat, c: Bitvec) {
    && c.iSize == d && c.base == p.base + Start(b, d) && Start(b, d) < p.cap
    && c.cap == if p.cap - Start(b, d) < d then p.cap - Start(b, d) else d
  }

  ghost predicate WellFormed(root: Bitvec, reps: map<Bitvec, Rep>, contents: set<nat>, owner: map<nat, Bitvec>) {
    && root in reps && root.base == 0 && root.cap == root.iSize <= MAX_SIZE
    && (forall x | x in contents :: 0 < x <= root.iSize)
    && (forall p | p in reps :: p.root == root && Fits(p, reps[p], reps.Keys, contents, owner))
  }

  /** A node's part of the invariant only depends on what it owns. */
  lemma FitsFrame(p: Bitvec, rep: Rep, nodes: set<Bitvec>, contents: set<nat>, owner: map<nat, Bitvec>,
                  nodes': set<Bitvec>, contents': set<nat>, owner': map<nat, Bitvec>)
    requires Fits(p, rep, nodes, contents, owner)
    requires nodes <= nodes'
    requires forall x | Owns(owner, x, p) :: Owns(owner', x, p) && (x in contents <==> x in contents')
    ensures Fits(p, rep, nodes', contents', owner')
  {
  }

  lemma NodeFits(root: Bitvec, reps: map<Bitvec, Rep>, contents: set<nat>, owner: map<nat, Bitvec>, p: Bitvec)
    requires WellFormed(root, reps, contents, owner) && p in reps
    ensures p.root == root && Fits(p, reps[p], reps.Keys, contents, owner)
    ensures forall x | x in contents :: 0 < x <= root.iSize
  {
  }

  /** Nodes only ever get more, and inner nodes stay inner nodes. */
  ghost predicate Grown(reps: map<Bitvec, Rep>, reps': map<Bitvec, Rep>) {
    forall n | n in reps :: n in reps' && (reps[n].Inner? ==> reps'[n].Inner?)
  }

  lemma GrownSame(r: map<Bitvec, Rep>)
    ensures Grown(r, r)
  {
  }

  lemma GrownTwice(r0: map<Bitvec, Rep>, r1: map<Bitvec, Rep>, r2: map<Bitvec, Rep>)
    requires Grown(r0, r1) && Grown(r1, r2)
    ensures Grown(r0, r2)
  {
  }

  /** Changing one node, and the membership only of what that node owns. */
  lemma ChangeNode(root: Bitvec, reps: map<Bitvec, Rep>, contents: set<nat>, owner: map<nat, Bitvec>,
                   p: Bitvec, rep: Rep, contents': set<nat>)
    requires WellFormed(root, reps, contents, owner) && p in reps
    requires Fits(p, rep, reps.Keys, contents', owner)
    requires forall x | x in contents' :: 0 < x <= root.iSize
    requires forall x | x in owner && owner[x] != p :: x in contents <==> x in contents'
    ensures WellFormed(root, reps[p := rep], contents', owner)
  {
    var reps' := reps[p := rep];
    assert reps'.Keys == reps.Keys;
    forall n | n in reps'
      ensures Fits(n, reps'[n], reps'.Keys, contents', owner)
    {
      if n != p {
        FitsFrame(n, reps[n], reps.Keys, contents, owner, reps.Keys, contents', owner);
      }
    }
  }

  lemma SetFlat(root: Bitvec, reps: map<Bitvec, Rep>, contents: set<nat>, owner: map<nat, Bitvec>,
                p: Bitvec, k: nat, bits: seq<bv8>)
    requires WellFormed(root, reps, contents, owner) && p in reps && reps[p] == Flat(bits)
    requires k < p.cap
    ensures k < NBIT && |bits| == NELEM
    ensures WellFormed(root, reps[p := Flat(bits[k / SZELEM := bits[k / SZELEM] | Mask(k % SZELEM)])],
                       contents + {p.base + k + 1}, owner)
  {
    hide WellFormed;
    NodeFits(root, reps, contents, owner, p);
    var x0 := p.base + k + 1;
    assert p.Covers(x0);
    var bits' := bits[k / SZELEM := bits[k / SZELEM] | Mask(k % SZELEM)];
    forall x: nat | p.Covers(x)
      ensures x in contents + {x0} <==> BitAt(bits', x - p.base)
    {
      BitsSet(bits, k, x - p.base);
    }
    ChangeNode(root, reps, contents, owner, p, Flat(bits'), contents + {x0});
  }

  lemma ClearFlat(root: Bitvec, reps: map<Bitvec, Rep>, contents: set<nat>, owner: map<nat, Bitvec>,
                  p: Bitvec, k: nat, bits: seq<bv8>)
    requires WellFormed(root, reps, contents, owner) && p in reps && reps[p] == Flat(bits)
    requires k < p.cap
    ensures k < NBIT && |bits| == NELEM
    ensures WellFormed(root, reps[p := Flat(bits[k / SZELEM := bits[k / SZELEM] & !Mask(k % SZELEM)])],
                       contents - {p.base + k + 1}, owner)
  {
    hide WellFormed;
    NodeFits(root, reps, contents, owner, p);
    var x0 := p.base + k + 1;
    assert p.Covers(x0);
    var bits' := bits[k / SZELEM := bits[k / SZELEM] & !Mask(k % SZELEM)];
    forall x: nat | p.Covers(x)
      ensures x in contents - {x0} <==> BitAt(bits', x - p.base)
    {
      BitsCleared(bits, k, x - p.base);
    }
    ChangeNode(root, reps, contents, owner, p, Flat(bits'), contents - {x0});
  }

  /** Replacing a hash node's table by another one over the node's values. */
  lemma ChangeTable(root: Bitvec, reps: map<Bitvec, Rep>, contents: set<nat>, owner: map<nat, Bitvec>,
                    p: Bitvec, t: seq<nat>, contents': set<nat>)
    requires WellFormed(root, reps, contents, owner) && p in reps && reps[p].Hash?
    requires Probed(t) && forall v | v in t :: v <= p.cap
    requires forall x | x in contents' :: 0 < x <= root.iSize
    requires forall x: nat | p.Covers(x) :: x in contents' <==> x - p.base in t
    requires forall x: nat | !p.Covers(x) :: x in contents <==> x in contents'
    ensures WellFormed(root, reps[p := Hash(t, Used(t))], contents', owner)
  {
    hide WellFormed;
    NodeFits(root, reps, contents, owner, p);
    ChangeNode(root, reps, contents, owner, p, Hash(t, Used(t)), contents');
  }

  lemma InsertValue(root: Bitvec, reps: map<Bitvec, Rep>, contents: set<nat>, owner: map<nat, Bitvec>,
                    p: Bitvec, t: seq<nat>, n: nat, v: nat, h: nat)
    requires WellFormed(root, reps, contents, owner) && p in reps && reps[p] == Hash(t, n)
    requires 0 < v <= p.cap && v !in t && n < NINT - 1
    requires |t| == NINT && h < NINT && t[h] == 0
    requires forall s: nat | s < NINT && Inside(Home(v), s, h) :: t[s] != 0
    ensures WellFormed(root, reps[p := Hash(t[h := v], n + 1)], contents + {p.base + v}, owner)
  {
    hide WellFormed;
    NodeFits(root, reps, contents, owner, p);
    var t' := t[h := v];
    StoreKeepsProbed(t, v, h, t');
    assert p.Covers(p.base + v);
    ChangeTable(root, reps, contents, owner, p, t', contents + {p.base + v});
  }

  lemma RemoveValue(root: Bitvec, reps: map<Bitvec, Rep>, contents: set<nat>, owner: map<nat, Bitvec>,
                    p: Bitvec, v: nat, t: seq<nat>, t': seq<nat>)
    requires WellFormed(root, reps, contents, owner) && p in reps && reps[p].Hash? && reps[p].table == t
    requires 0 < v <= p.cap && Probed(t')
    requires forall x | x != 0 :: x in t' <==> x in t && x != v
    ensures WellFormed(root, reps[p := Hash(t', Used(t'))], contents - {p.base + v}, owner)
  {
    hide WellFormed;
    NodeFits(root, reps, contents, owner, p);
    assert p.Covers(p.base + v);
    ChangeTable(root, reps, contents, owner, p, t', contents - {p.base + v});
  }

  /** What is left of the members when p's own are taken out. */
  ghost function Without(contents: set<nat>, p: Bitvec): set<nat> {
    set x | x in contents && !p.Covers(x)
  }

  /** A hash node turned into an inner node without sub-bitmaps. */
  lemma Subdivided(root: Bitvec, reps: map<Bitvec, Rep>, contents: set<nat>, owner: map<nat, Bitvec>,
                   p: Bitvec, d: nat, sub: seq<Bitvec?>)
    requires WellFormed(root, reps, contents, owner) && p in reps && reps[p].Hash?
    requires d == Divisor(p.iSize) && |sub| == NPTR && forall b | 0 <= b < NPTR :: sub[b] == null
    ensures WellFormed(root, reps[p := Inner(d, sub)], Without(contents, p), owner)
  {
    hide WellFormed;
    NodeFits(root, reps, contents, owner, p);
    DivisorBounds(p.iSize);
    ChangeNode(root, reps, contents, owner, p, Inner(d, sub), Without(contents, p));
  }

  /** A new node: all zero. */
  ghost function EmptyRep(size: nat): Rep {
    if size <= NBIT then Flat(seq(NELEM, _ => 0)) else Hash(seq(NINT, _ => 0), 0)
  }

  lemma EmptyFits(c: Bitvec, nodes: set<Bitvec>, contents: set<nat>, owner: map<nat, Bitvec>)
    requires c.cap <= c.iSize <= MAX_SIZE && c.base + c.cap <= c.root.iSize
    requires forall x: nat | c.Covers(x) :: Owns(owner, x, c) && x !in contents
    ensures Fits(c, EmptyRep(c.iSize), nodes, contents, owner)
  {
    EmptyIsProbed(seq(NINT, _ => 0));
    if c.iSize <= NBIT {
      forall x: nat | c.Covers(x)
        ensures !BitAt(seq(NELEM, _ => 0), x - c.base)
      {
      }
    }
  }

  /** A null slot given an empty sub-bitmap. */
  lemma SubAdded(root: Bitvec, reps: map<Bitvec, Rep>, contents: set<nat>, owner: map<nat, Bitvec>,
                 p: Bitvec, d: nat, sub: seq<Bitvec?>, b: nat, c: Bitvec, rep: Rep, owner': map<nat, Bitvec>)
    requires WellFormed(root, reps, contents, owner) && p in reps && reps[p] == Inner(d, sub)
    requires b < |sub| && sub[b] == null
    requires c !in reps && c.root == root && IsSub(p, d, b, c)
    requires rep == EmptyRep(d)
    requires owner' == map x | x in owner :: if c.Covers(x) then c else owner[x]
    ensures WellFormed(root, reps[p := Inner(d, sub[b := c])][c := rep], contents, owner')
  {
    var reps' := reps[p := Inner(d, sub[b := c])][c := rep];
    assert Fits(p, reps[p], reps.Keys, contents, owner);
    DivisorBounds(p.iSize);
    forall x: nat | c.Covers(x)
      ensures Owns(owner', x, c) && x !in contents
    {
      assert p.Covers(x);
    }
    EmptyFits(c, reps'.Keys, contents, owner');
    assert Fits(p, reps'[p], reps'.Keys, contents, owner') by {
      forall b' | 0 <= b' < NPTR && b' != b
        ensures Start(b', d) + d <= Start(b, d) || Start(b, d) + d <= Start(b', d)
      {
        if b < b' { StartOrder(b, b', d); } else { StartOrder(b', b, d); }
      }
    }
    forall n | n in reps && n != p
      ensures Fits(n, reps[n], reps'.Keys, contents, owner')
    {
      FitsFrame(n, reps[n], reps.Keys, contents, owner, reps'.Keys, contents, owner');
    }
  }

  /** What a node's fields stand for. */
  ghost function View(iSize: nat, iDivisor: nat, nSet: nat,
                      aBitmap: seq<bv8>, aHash: seq<nat>, apSub: seq<Bitvec?>): Rep {
    if iDivisor > 0 then Inner(iDivisor, apSub)
    else if iSize <= NBIT then Flat(aBitmap)
    else Hash(aHash, nSet)
  }

  class Bitvec {
    const iSize: nat
    var nSet: nat
    var iDivisor: nat
    // The union.  Its buffers lie inside the node, so no two nodes can share one: each is a value
    // of the node, overwritten in place.  Which of the three is live, iSize and iDivisor say.
    var aBitmap: seq<bv8>
    var aHash: seq<nat>
    var apSub: seq<Bitvec?>

    // Where the node sits: local value i stands for member base + i, and only 1..cap are in use.
    ghost const root: Bitvec
    ghost const base: nat
    ghost const cap: nat

    // Used in the root only.
    ghost var Reps: map<Bitvec, Rep>
    ghost var Contents: set<nat>
    ghost var Owner: map<nat, Bitvec>

    /** The members this node and those below it answer for. */
    ghost predicate Covers(x: nat) {
      base < x <= base + cap
    }

    /** The snapshot of n is up to date. */
    static ghost predicate Recorded(reps: map<Bitvec, Rep>, n: Bitvec)
      requires n in reps
      reads n
    {
      reps[n] == View(n.iSize, n.iDivisor, n.nSet, n.aBitmap, n.aHash, n.apSub)
    }

    /** Bring the root's ghost fields up to date after a change to this node. */
    ghost method Record(rep: Rep, contents: set<nat>)
      requires rep == View(iSize, iDivisor, nSet, aBitmap, aHash, apSub)
      requires root.root == root && this in root.Reps && root in root.Reps
      requires forall n | n in root.Reps && n != this :: Recorded(root.Reps, n)
      requires WellFormed(root, root.Reps[this := rep], contents, root.Owner)
      modifies root`Reps, root`Contents
      ensures root.Valid() && root.Contents == contents && root.Reps == old(root.Reps)[this := rep]
    {
      hide WellFormed;
      root.Reps, root.Contents := root.Reps[this := rep], contents;
    }

    /** The same when the change is a new sub-bitmap c. */
    ghost method RecordSub(rep: Rep, c: Bitvec, owner: map<nat, Bitvec>)
      requires rep == View(iSize, iDivisor, nSet, aBitmap, aHash, apSub)
      requires EmptyRep(c.iSize) == View(c.iSize, c.iDivisor, c.nSet, c.aBitmap, c.aHash, c.apSub)
      requires root.root == root && this in root.Reps && root in root.Reps && c !in root.Reps
      requires forall n | n in root.Reps && n != this :: Recorded(root.Reps, n)
      requires WellFormed(root, root.Reps[this := rep][c := EmptyRep(c.iSize)], root.Contents, owner)
      modifies root`Reps, root`Owner
      ensures root.Valid() && root.Reps == old(root.Reps)[this := rep][c := EmptyRep(c.iSize)]
    {
      hide WellFormed;
      root.Reps := root.Reps[this := rep];
      root.Reps, root.Owner := root.Reps[c := EmptyRep(c.iSize)], owner;
    }

    /** The invariant of a whole bitmap, given by its root. */
    ghost predicate Valid()
      reads this, Reps.Keys
    {
      && root == this && this in Reps
      && (forall n | n in Reps :: Recorded(Reps, n))
      && WellFormed(this, Reps, Contents, Owner)
    }

    /** A root of its own, all bits clear. */
    constructor (size: nat)
      ensures iSize == size && root == this && base == 0 && cap == size
      ensures size <= MAX_SIZE ==> Valid()
      ensures Contents == {}
      ensures Reps.Keys == {this}
    {
      iSize, nSet, iDivisor := size, 0, 0;
      aBitmap, aHash, apSub := seq(NELEM, _ => 0), seq(NINT, _ => 0), seq(NPTR, _ => null);
      root, base, cap := this, 0, size;
      Contents := {};
      new;
      Reps := map[this := View(iSize, iDivisor, nSet, aBitmap, aHash, apSub)];
      Owner := map x | x in Upto(size) :: this;
      EmptyIsProbed(aHash);
    }

    /** A node for the members base + 1 .. base + cap of the bitmap that root stands for. */
    constructor Sub(size: nat, ghost root: Bitvec, ghost base: nat, ghost cap: nat)
      ensures iSize == size && this.root == root && this.base == base && this.cap == cap
      ensures View(iSize, iDivisor, nSet, aBitmap, aHash, apSub) == EmptyRep(size)
    {
      iSize, nSet, iDivisor := size, 0, 0;
      aBitmap, aHash, apSub := seq(NELEM, _ => 0), seq(NINT, _ => 0), seq(NPTR, _ => null);
      this.root, this.base, this.cap := root, base, cap;
    }

    /** One step down from an inner node, for its local value k + 1. */
    lemma Below(k: nat)
      requires root.Valid() && this in root.Reps && iDivisor > 0 && k < cap
      ensures |apSub| == NPTR && iDivisor == Divisor(iSize) && NBIT < iSize <= MAX_SIZE && cap <= iSize
      ensures 0 <= k / iDivisor < NPTR && 0 <= k % iDivisor
      ensures var c := apSub[k / iDivisor];
              if c == null then base + k + 1 !in root.Contents
              else c in root.Reps && c.root == root && c.iSize == iDivisor < iSize
                   && k % iDivisor < c.cap && c.base + k % iDivisor == base + k
    {
      assert Fits(this, root.Reps[this], root.Reps.Keys, root.Contents, root.Owner);
      assert Covers(base + k + 1);
      DescendBounds(iSize, iDivisor, cap, k);
      StartIsProduct(k / iDivisor, iDivisor);
    }

    /** What a leaf knows about its local value k + 1. */
    lemma AtLeaf(k: nat)
      requires root.Valid() && this in root.Reps && iDivisor == 0 && k < cap
      ensures k < cap <= iSize
      ensures if iSize <= NBIT then |aBitmap| == NELEM && (BitAt(aBitmap, k + 1) <==> base + k + 1 in root.Contents)
              else |aHash| == NINT && (k + 1 in aHash <==> base + k + 1 in root.Contents)
                   && Probed(aHash) && nSet == Used(aHash) && forall v | v in aHash :: v <= cap
    {
      assert Fits(this, root.Reps[this], root.Reps.Keys, root.Contents, root.Owner);
      assert Covers(base + k + 1);
    }

    lemma RootIsCovered()
      requires Valid()
      ensures this in Reps && root == this && base == 0 && cap == iSize
    {
    }

    lemma MembersInRange()
      requires Valid()
      ensures forall x | x in Contents :: 0 < x <= iSize
    {
    }

    lemma RootIsNode()
      requires root.Valid()
      ensures root in root.Reps && root.root == root
    {
    }

    /** A node small enough for a flat bitmap has no sub-bitmaps. */
    lemma DivisorOfLeaf()
      requires root.Valid() && this in root.Reps && iSize <= NBIT
      ensures iDivisor == 0
    {
    }

    /** A hash node's table lists its members. */
    lemma AllAtLeaf()
      requires root.Valid() && this in root.Reps && iDivisor == 0 && iSize > NBIT
      ensures Probed(aHash) && nSet == Used(aHash) && cap <= iSize <= MAX_SIZE
      ensures forall v | v in aHash :: v <= cap
      ensures forall x: nat | Covers(x) :: x in root.Contents <==> x - base in aHash
    {
      assert Fits(this, root.Reps[this], root.Reps.Keys, root.Contents, root.Owner);
    }

    /** Membership of i, for any 32-bit i. */
    static method TestNotNull(p: Bitvec, i: nat) returns (r: bool)
      requires p.Valid() && i < U32
      ensures r <==> i in p.Contents
    {
      var k: nat := if i == 0 then U32 - 1 else i - 1;
      if k >= p.iSize { return false; }
      var q, k' := p.FindLeaf(k);
      if q == null { return false; }
      q.AtLeaf(k');
      if q.iSize <= NBIT {
        r := q.aBitmap[k' / SZELEM] & Mask(k' % SZELEM) != 0;
      } else {
        r := q.Probe(k');
      }
    }

    /** The loop that Test and Clear go down by: the leaf for member k0 + 1, if there is one. */
    method FindLeaf(k0: nat) returns (p: Bitvec?, k: nat)
      requires Valid() && k0 < iSize
      ensures if p == null then k0 + 1 !in Contents
              else p in Reps && p.root == this && p.iDivisor == 0 && k < p.cap && p.base + k == k0
    {
      var q := this;
      k := k0;
      while q.iDivisor != 0
        invariant q in Reps && q.root == this && k < q.cap && q.base + k == k0
        decreases q.iSize
      {
        q.Below(k);
        var bin: nat := k / q.iDivisor;
        assert bin < NPTR;
        k := k % q.iDivisor;
        if q.apSub[bin] == null { return null, k; }
        q := q.apSub[bin];
      }
      p := q;
    }

    /** The probe loop of Test, for local value k + 1. */
    method Probe(k: nat) returns (r: bool)
      requires |aHash| == NINT && Probed(aHash)
      ensures r <==> k + 1 in aHash
    {
      ghost var t := aHash;
      ghost var f := FreeSlot(t);
      var h: nat := k % NINT;
      var v := k + 1;
      while aHash[h] != 0
        invariant 0 <= h < NINT
        invariant forall s: nat | s < NINT && Inside(Home(v), s, h) :: t[s] != 0 && t[s] != v
        decreases Distance(h, f)
      {
        if aHash[h] == v { return true; }
        h := (h + 1) % NINT;
      }
      ProbeMiss(t, v, h);
      r := false;
    }

    static method Test(p: Bitvec?, i: nat) returns (r: bool)
      requires p != null ==> p.Valid()
      requires i < U32
      ensures r <==> p != null && i in p.Contents
    {
      if p == null { return false; }
      r := TestNotNull(p, i);
    }

    /** Give the null slot bin of an inner node a sub-bitmap. */
    method NewSub(bin: nat, k: nat)
      requires root.Valid() && this in root.Reps && iDivisor > 0
      requires k < cap && bin == k / iDivisor
      requires bin < NPTR == |apSub| && apSub[bin] == null
      modifies this`apSub, root`Reps, root`Owner
      ensures root.Valid() && this in root.Reps && Grown(old(root.Reps), root.Reps)
      ensures fresh(root.Reps.Keys - old(root.Reps.Keys))
      ensures apSub[bin] != null
    {
      hide WellFormed, Fits;
      Below(k);
      DescendBounds(iSize, iDivisor, cap, k);
      StartIsProduct(bin, iDivisor);
      ghost var rest: nat := cap - Start(bin, iDivisor);
      var c := new Bitvec.Sub(iDivisor, root, base + Start(bin, iDivisor), if rest < iDivisor then rest else iDivisor);
      ghost var owner := map x | x in root.Owner :: if c.Covers(x) then c else root.Owner[x];
      SubAdded(root, root.Reps, root.Contents, root.Owner, this, iDivisor, apSub, bin, c, EmptyRep(iDivisor), owner);
      apSub := apSub[bin := c];
      RecordSub(Inner(iDivisor, apSub), c, owner);
    }

    /** Set local value k + 1 of a flat bitmap. */
    method SetInBitmap(k: nat)
      requires root.Valid() && this in root.Reps && iDivisor == 0 && iSize <= NBIT && k < cap
      modifies this`aBitmap, root`Reps, root`Contents
      ensures root.Valid() && root.Contents == old(root.Contents) + {base + k + 1}
      ensures root.Reps.Keys == old(root.Reps).Keys && Grown(old(root.Reps), root.Reps)
    {
      hide WellFormed, Fits, BitAt, Bit, Mask;
      ghost var bits := aBitmap;
      SetFlat(root, root.Reps, root.Contents, root.Owner, this, k, bits);
      aBitmap := aBitmap[k / SZELEM := aBitmap[k / SZELEM] | Mask(k % SZELEM)];
      Record(Flat(aBitmap), root.Contents + {base + k + 1});
    }

    /** Store v, which is not in the table, in the free slot h that probing for it ends at. */
    method StoreInHash(v: nat, h: nat)
      requires root.Valid() && this in root.Reps && iDivisor == 0 && iSize > NBIT && 0 < v <= cap
      requires |aHash| == NINT && nSet < NINT - 1
      requires h < NINT && aHash[h] == 0 && v !in aHash
      requires forall s: nat | s < NINT && Inside(Home(v), s, h) :: aHash[s] != 0
      modifies this`aHash, this`nSet, root`Reps, root`Contents
      ensures root.Valid() && root.Contents == old(root.Contents) + {base + v}
      ensures root.Reps.Keys == old(root.Reps).Keys && Grown(old(root.Reps), root.Reps)
    {
      hide WellFormed, Fits;
      ghost var t := aHash;
      InsertValue(root, root.Reps, root.Contents, root.Owner, this, t, nSet, v, h);
      nSet := nSet + 1;
      aHash := aHash[h := v];
      Record(Hash(aHash, nSet), root.Contents + {base + v});
    }

    /** Turn a hash node into an inner node without sub-bitmaps: its members are gone. */
    method Subdivide()
      requires root.Valid() && this in root.Reps && iDivisor == 0 && iSize > NBIT && iSize <= MAX_SIZE
      modifies this`apSub, this`iDivisor, root`Reps, root`Contents
      ensures root.Valid() && root.Contents == Without(old(root.Contents), this)
      ensures root.Reps.Keys == old(root.Reps).Keys && Grown(old(root.Reps), root.Reps)
      ensures iDivisor != 0 && root.Reps[this].Inner?
    {
      hide WellFormed, Fits;
      apSub := seq(NPTR, _ => null);
      iDivisor := (iSize + NPTR - 1) % U32 / NPTR;
      DivisorBounds(iSize);
      Subdivided(root, root.Reps, root.Contents, root.Owner, this, iDivisor, apSub);
      Record(Inner(iDivisor, apSub), Without(root.Contents, this));
    }

    /** One round of the loop in Set. */
    method Step(k: nat) returns (p: Bitvec, k': nat)
      requires root.Valid() && this in root.Reps && k < cap && iDivisor != 0
      modifies this`apSub, root`Reps, root`Owner
      ensures root.Valid() && Grown(old(root.Reps), root.Reps) && fresh(root.Reps.Keys - old(root.Reps.Keys))
      ensures p in root.Reps && p.root == root && k' < p.cap && p.base + k' == base + k && p.iSize < iSize
    {
      hide *;
      Below(k);
      var bin: nat := k / iDivisor;
      assert bin < NPTR;
      if apSub[bin] == null {
        NewSub(bin, k);
        Below(k);
      } else {
        GrownSame(root.Reps);
      }
      k' := k % iDivisor;
      p := apSub[bin];
    }

    /** The way down in Set: to the leaf for local value k0 + 1, making sub-bitmaps where there are none. */
    method Descend(k0: nat) returns (p: Bitvec, k: nat)
      requires root.Valid() && this in root.Reps && k0 < cap
      modifies root.Reps.Keys
      ensures root.Valid() && root.Contents == old(root.Contents)
      ensures Grown(old(root.Reps), root.Reps) && fresh(root.Reps.Keys - old(root.Reps.Keys))
      ensures p in root.Reps && p.root == root && p.iDivisor == 0 && k < p.cap && p.base + k == base + k0
      ensures if old(iDivisor) == 0 then p == this else p.iSize < iSize
    {
      RootIsNode();
      GrownSame(root.Reps);
      hide *;
      p, k := this, k0;
      while p.iSize > NBIT && p.iDivisor != 0
        invariant root.Valid() && root.Contents == old(root.Contents)
        invariant p in root.Reps && p.root == root && k < p.cap && p.base + k == base + k0
        invariant Grown(old(root.Reps), root.Reps) && fresh(root.Reps.Keys - old(root.Reps.Keys))
        invariant if p == this then iDivisor == old(iDivisor) else old(iDivisor) != 0 && p.iSize < iSize
        decreases p.iSize
      {
        ghost var reps := root.Reps;
        p, k := p.Step(k);
        GrownTwice(old(root.Reps), reps, root.Reps);
      }
      if p.iSize <= NBIT { p.DivisorOfLeaf(); }
    }

    /** Set local value i of this node. */
    method Set(i: nat) returns (rc: bv32)
      requires root.Valid() && this in root.Reps && 0 < i <= cap
      modifies root.Reps.Keys
      ensures root.Valid() && root.Contents == old(root.Contents) + {base + i}
      ensures Grown(old(root.Reps), root.Reps) && fresh(root.Reps.Keys - old(root.Reps.Keys))
      ensures rc == SQLITE_OK
      decreases iSize, if iDivisor == 0 then 2 else 0
    {
      hide *;
      var p, k := Descend(i - 1);
      ghost var reps := root.Reps;
      p.RootIsNode();
      if p.iSize <= NBIT {
        p.SetInBitmap(k);
        rc := SQLITE_OK;
      } else {
        rc := p.SetInHash(k);
      }
      GrownTwice(old(root.Reps), reps, root.Reps);
    }

    /** The second half of Set: store local value k + 1 of a hash node. */
    method SetInHash(k: nat) returns (rc: bv32)
      requires root.Valid() && this in root.Reps && k < cap && iDivisor == 0 && iSize > NBIT
      modifies root.Reps.Keys
      ensures root.Valid() && root.Contents == old(root.Contents) + {base + k + 1}
      ensures Grown(old(root.Reps), root.Reps) && fresh(root.Reps.Keys - old(root.Reps.Keys))
      ensures rc == SQLITE_OK
      decreases iSize, 1
    {
      hide WellFormed, Fits;
      AtLeaf(k);
      var h: nat, v := k % NINT, k + 1;
      var collided := aHash[h] != 0;
      ghost var t := aHash;
      ghost var f := FreeSlot(t);
      while aHash[h] != 0
        invariant 0 <= h < NINT && aHash == t
        invariant forall s: nat | s < NINT && Inside(Home(v), s, h) :: t[s] != 0 && t[s] != v
        decreases Distance(h, f)
      {
        if aHash[h] == v {
          assert root.Contents == root.Contents + {base + v};
          return SQLITE_OK;
        }
        h := h + 1;
        if h >= NINT { h := 0; }
      }
      ProbeMiss(t, v, h);
      if (collided || nSet >= NINT - 1) && nSet >= MXHASH {
        rc := Rehash(v);
        return;
      }
      StoreInHash(v, h);
      rc := SQLITE_OK;
    }

    /** The bitmap while Rehash is at work: this node is an inner node, and i and the values vals
        have been put back. */
    ghost predicate Restored(now: set<nat>, before: set<nat>, i: nat, vals: seq<nat>,
                             reps: map<Bitvec, Rep>, reps': map<Bitvec, Rep>) {
      && (forall x: nat :: x in now <==>
            (x in before && !Covers(x)) || x == base + i || (Covers(x) && x - base in vals))
      && Grown(reps, reps') && this in reps' && reps'[this].Inner?
    }

    lemma RestoreStart(now: set<nat>, before: set<nat>, i: nat, vals: seq<nat>,
                       r0: map<Bitvec, Rep>, r1: map<Bitvec, Rep>, r2: map<Bitvec, Rep>)
      requires vals == [] && now == Without(before, this) + {base + i}
      requires Grown(r0, r1) && Grown(r1, r2) && this in r1 && r1[this].Inner?
      ensures Restored(now, before, i, vals, r0, r2)
    {
    }

    lemma RestoreEnd(now: set<nat>, before: set<nat>, i: nat, vals: seq<nat>,
                     reps: map<Bitvec, Rep>, reps': map<Bitvec, Rep>)
      requires Restored(now, before, i, vals, reps, reps')
      requires forall x: nat | Covers(x) :: x in before <==> x - base in vals
      ensures now == before + {base + i} && Grown(reps, reps')
    {
    }

    lemma RestoreOne(now: set<nat>, now': set<nat>, before: set<nat>, i: nat, vals: seq<nat>, v: nat,
                     r0: map<Bitvec, Rep>, r1: map<Bitvec, Rep>, r2: map<Bitvec, Rep>)
      requires Restored(now, before, i, vals, r0, r1) && v <= cap && Grown(r1, r2)
      requires now' == if v == 0 then now else now + {base + v}
      ensures Restored(now', before, i, vals + [v], r0, r2)
    {
    }

    /** Turn a hash node into an inner node and put back what it held, and value i. */
    method Rehash(i: nat) returns (rc: bv32)
      requires root.Valid() && this in root.Reps && 0 < i <= cap && iDivisor == 0 && iSize > NBIT
      modifies root.Reps.Keys
      ensures root.Valid() && root.Contents == old(root.Contents) + {base + i}
      ensures Grown(old(root.Reps), root.Reps) && fresh(root.Reps.Keys - old(root.Reps.Keys))
      ensures rc == SQLITE_OK
      decreases iSize, 1, 2
    {
      RootIsNode();
      hide *;
      var aiValues := aHash;
      AllAtLeaf();
      rc := StartOver(i, aiValues[..0]);
      var rc' := PutAllBack(aiValues, old(root.Contents), i, old(root.Reps));
      rc := rc | rc';
      RestoreEnd(root.Contents, old(root.Contents), i, aiValues, old(root.Reps), root.Reps);
    }

    /** The loop in Rehash. */
    method PutAllBack(aiValues: seq<nat>, ghost before: set<nat>, ghost i: nat, ghost reps: map<Bitvec, Rep>)
        returns (rc: bv32)
      requires root.Valid() && |aiValues| == NINT && forall v | v in aiValues :: v <= cap
      requires Restored(root.Contents, before, i, aiValues[..0], reps, root.Reps)
      modifies root.Reps.Keys
      ensures root.Valid() && Restored(root.Contents, before, i, aiValues, reps, root.Reps)
      ensures fresh(root.Reps.Keys - old(root.Reps.Keys))
      ensures rc == SQLITE_OK
      decreases iSize, 1, 1
    {
      hide *;
      rc := SQLITE_OK;
      for j := 0 to NINT
        invariant root.Valid() && rc == SQLITE_OK
        invariant Restored(root.Contents, before, i, aiValues[..j], reps, root.Reps)
        invariant fresh(root.Reps.Keys - old(root.Reps.Keys))
      {
        assert aiValues[j] in aiValues && aiValues[..j + 1] == aiValues[..j] + [aiValues[j]];
        var rc' := PutBack(aiValues[j], before, i, aiValues[..j], reps);
        rc := rc | rc';
      }
      assert aiValues[..NINT] == aiValues;
    }

    /** Rehash up to its loop. */
    method StartOver(i: nat, ghost none: seq<nat>) returns (rc: bv32)
      requires root.Valid() && this in root.Reps && 0 < i <= cap && iDivisor == 0 && NBIT < iSize <= MAX_SIZE
      requires none == []
      modifies root.Reps.Keys
      ensures root.Valid() && Restored(root.Contents, old(root.Contents), i, none, old(root.Reps), root.Reps)
      ensures fresh(root.Reps.Keys - old(root.Reps.Keys))
      ensures rc == SQLITE_OK
      decreases iSize, 1, 0
    {
      RootIsNode();
      hide *;
      Subdivide();
      ghost var reps := root.Reps;
      rc := Set(i);
      RestoreStart(root.Contents, old(root.Contents), i, none, old(root.Reps), reps, root.Reps);
    }

    /** One round of the loop in Rehash: slot contents v. */
    method PutBack(v: nat, ghost before: set<nat>, ghost i: nat, ghost vals: seq<nat>, ghost reps: map<Bitvec, Rep>)
        returns (rc: bv32)
      requires root.Valid() && v <= cap
      requires Restored(root.Contents, before, i, vals, reps, root.Reps)
      modifies root.Reps.Keys
      ensures root.Valid() && Restored(root.Contents, before, i, vals + [v], reps, root.Reps)
      ensures fresh(root.Reps.Keys - old(root.Reps.Keys))
      ensures rc == SQLITE_OK
      decreases iSize, 1, 0
    {
      rc := SQLITE_OK;
      if v != 0 {
        rc := Set(v);
      }
      RestoreOne(old(root.Contents), root.Contents, before, i, vals, v, reps, old(root.Reps), root.Reps);
    }

    /** Set member i of the bitmap p, or do nothing if there is no bitmap. */
    static method BitvecSet(p: Bitvec?, i: nat) returns (rc: bv32)
      requires p != null ==> p.Valid() && 0 < i <= p.iSize
      modifies if p != null then p.Reps.Keys else {}
      ensures p != null ==> p.Valid() && p.Contents == old(p.Contents) + {i}
      ensures p != null ==> fresh(p.Reps.Keys - old(p.Reps.Keys))
      ensures rc == SQLITE_OK
    {
      if p == null { return SQLITE_OK; }
      rc := p.Set(i);
    }

    /** Clear member i of the bitmap p, or do nothing if there is no bitmap. */
    static method BitvecClear(p: Bitvec?, i: nat)
      requires p != null ==> p.Valid() && 0 < i <= p.iSize
      modifies if p != null then p.Reps.Keys else {}
      ensures p != null ==> p.Valid() && p.Contents == old(p.Contents) - {i}
      ensures p != null ==> p.Reps.Keys == old(p.Reps).Keys
    {
      if p == null { return; }
      p.Clear(i);
    }

    method Clear(i: nat)
      requires Valid() && 0 < i <= iSize
      modifies Reps.Keys
      ensures Valid() && Contents == old(Contents) - {i}
      ensures Reps.Keys == old(Reps).Keys
    {
      hide *;
      RootIsCovered();
      var q, k := FindLeaf(i - 1);
      if q == null {
        assert Contents == Contents - {i};
        return;
      }
      assert q.base + k + 1 == i && q.root == this;
      q.ClearInLeaf(k);
    }

    /** The part of Clear behind the descent. */
    method ClearInLeaf(k: nat)
      requires root.Valid() && this in root.Reps && iDivisor == 0 && k < cap
      modifies this`aBitmap, this`aHash, this`nSet, root`Reps, root`Contents
      ensures root.Valid() && root.Contents == old(root.Contents) - {base + k + 1}
      ensures root.Reps.Keys == old(root.Reps).Keys
    {
      hide *;
      if iSize <= NBIT {
        ClearInBitmap(k);
      } else {
        ClearInHash(k);
      }
    }

    /** Clear local value k + 1 of a flat bitmap. */
    method ClearInBitmap(k: nat)
      requires root.Valid() && this in root.Reps && iDivisor == 0 && iSize <= NBIT && k < cap
      modifies this`aBitmap, root`Reps, root`Contents
      ensures root.Valid() && root.Contents == old(root.Contents) - {base + k + 1}
      ensures root.Reps.Keys == old(root.Reps).Keys
    {
      hide WellFormed, Fits, BitAt, Bit, Mask;
      ghost var bits := aBitmap;
      ClearFlat(root, root.Reps, root.Contents, root.Owner, this, k, bits);
      aBitmap := aBitmap[k / SZELEM := aBitmap[k / SZELEM] & !Mask(k % SZELEM)];
      Record(Flat(aBitmap), root.Contents - {base + k + 1});
    }

    /** Clear local value k + 1 of a hash node: build the table anew from all other values. */
    method ClearInHash(k: nat)
      requires root.Valid() && this in root.Reps && iDivisor == 0 && iSize > NBIT && k < cap
      modifies this`aHash, this`nSet, root`Reps, root`Contents
      ensures root.Valid() && root.Contents == old(root.Contents) - {base + k + 1}
      ensures root.Reps.Keys == old(root.Reps).Keys
    {
      hide *;
      AllAtLeaf();
      HashNode();
      var aiValues := aHash;
      RebuildHash(aiValues, k + 1);
      RemoveValue(root, root.Reps, root.Contents, root.Owner, this, k + 1, aiValues, aHash);
      HashView();
      Record(Hash(aHash, nSet), root.Contents - {base + k + 1});
    }

    lemma HashNode()
      requires root.Valid() && this in root.Reps && iDivisor == 0 && iSize > NBIT
      ensures WellFormed(root, root.Reps, root.Contents, root.Owner) && root.Reps[this] == Hash(aHash, nSet)
      ensures root.root == root && root in root.Reps
      ensures forall n | n in root.Reps :: Recorded(root.Reps, n)
    {
    }

    lemma HashView()
      requires iDivisor == 0 && iSize > NBIT
      ensures View(iSize, iDivisor, nSet, aBitmap, aHash, apSub) == Hash(aHash, nSet)
    {
    }

    /** The loop in Clear. */
    method RebuildHash(aiValues: seq<nat>, v: nat)
      requires Probed(aiValues)
      modifies this`aHash, this`nSet
      ensures Probed(aHash) && nSet == Used(aHash)
      ensures forall x | x != 0 :: x in aHash <==> x in aiValues && x != v
    {
      aHash := seq(NINT, _ => 0);
      nSet := 0;
      EmptyIsProbed(aHash);
      for j := 0 to NINT
        invariant Probed(aHash) && nSet == Used(aHash) <= Used(aiValues[..j])
        invariant forall x | x != 0 :: x in aHash <==> x in aiValues[..j] && x != v
      {
        UsedPrefix(aiValues, j);
        assert aiValues[..j + 1] == aiValues[..j] + [aiValues[j]];
        if aiValues[j] != 0 && aiValues[j] != v {
          var h: nat := (aiValues[j] - 1) % NINT;
          nSet := nSet + 1;
          ghost var f := FreeSlot(aHash);
          while aHash[h] != 0
            invariant 0 <= h < NINT
            invariant forall s: nat | s < NINT && Inside(Home(aiValues[j]), s, h) :: aHash[s] != 0
            decreases Distance(h, f)
          {
            h := h + 1;
            if h >= NINT { h := 0; }
          }
          StoreKeepsProbed(aHash, aiValues[j], h, aHash[h := aiValues[j]]);
          aHash := aHash[h := aiValues[j]];
        }
      }
      assert aiValues[..NINT] == aiValues;
    }
  }
}
