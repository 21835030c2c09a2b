/** The self-test interpreter of the sparse bitmap: it runs a program of set and clear operations
    on a bitmap and on a linear array of bits, and compares the two. */
module BitvecSelfTest {
  import opened Bitvecs

  /** Number of words of an instruction. */
  function Width(op: int): (n: nat)
    ensures 2 <= n <= 4
  {
    if op == 1 || op == 2 || op == 5 then 4 else 2
  }

  /** From pc on, ops is a sequence of whole instructions that ends with the halt opcode 0. */
  ghost predicate Program(ops: seq<int>, pc: nat)
    decreases |ops| - pc
  {
    pc < |ops| && (ops[pc] == 0 || (pc + Width(ops[pc]) <= |ops| && Program(ops, pc + Width(ops[pc]))))
  }

  /** From pc on, no instruction has opcode 5, the one that touches the linear array only. */
  ghost predicate NoFault(ops: seq<int>, pc: nat)
    decreases |ops| - pc
  {
    pc < |ops| && ops[pc] != 0 ==>
      ops[pc] != 5 && (pc + Width(ops[pc]) <= |ops| ==> NoFault(ops, pc + Width(ops[pc])))
  }

  /** The interpreter may overwrite operands it is done with. */
  lemma {:induction false} ProgramFrame(ops: seq<int>, ops': seq<int>, pc: nat)
    requires |ops| == |ops'| && forall j | pc <= j < |ops| :: ops[j] == ops'[j]
    ensures Program(ops, pc) == Program(ops', pc) && NoFault(ops, pc) == NoFault(ops', pc)
    decreases |ops| - pc
  {
    if pc < |ops| && ops[pc] != 0 && pc + Width(ops[pc]) <= |ops| {
      ProgramFrame(ops, ops', pc + Width(ops[pc]));
    }
  }

  /** What one round of the interpreter does to its program. */
  lemma ProgramStep(ops: seq<int>, ops': seq<int>, pc: nat)
    requires Program(ops, pc) && ops[pc] != 0
    requires |ops| == |ops'| && ops[pc] == ops'[pc]
    requires forall j | pc + Width(ops[pc]) <= j < |ops| :: ops[j] == ops'[j]
    ensures pc + Width(ops[pc]) < |ops|
    ensures Program(ops', pc) && Program(ops', pc + Width(ops[pc]))
    ensures NoFault(ops, pc) ==> ops[pc] != 5 && NoFault(ops', pc) && NoFault(ops', pc + Width(ops[pc]))
  {
    ProgramFrame(ops, ops', pc + Width(ops[pc]));
  }

  lemma ProgramFits(ops: seq<int>, pc: nat)
    requires Program(ops, pc)
    ensures pc < |ops|
    ensures ops[pc] != 0 ==> pc + Width(ops[pc]) < |ops|
  {
  }

  // ---------- runs of the interpreter ----------

  /** One round: the opcode, and the member it is applied to. */
  datatype Op = Op(code: int, i: nat)

  /** The program after the round at pc: the repeat count goes down, and the operand moves on. */
  function Fetched(ops: seq<int>, pc: nat): (r: seq<int>)
    requires pc < |ops| && pc + Width(ops[pc]) <= |ops|
    ensures |r| == |ops|
  {
    var moved := if Width(ops[pc]) == 4 then ops[pc + 2 := ops[pc + 2] + ops[pc + 3]] else ops;
    moved[pc + 1 := ops[pc + 1] - 1]
  }

  /** The member an operand stands for. */
  function Member(i: int, sz: nat): nat
    requires sz > 0
  {
    i % 0x8000_0000 % sz + 1
  }

  /** From pc on, the program can go through these rounds and halt: where an instruction has operands
      they say the member, elsewhere it is random. */
  ghost predicate Executes(ops: seq<int>, pc: nat, sz: nat, trace: seq<Op>)
    requires sz > 0
    decreases |trace|
  {
    Program(ops, pc) &&
    if trace == [] then ops[pc] == 0
    else
      && ops[pc] != 0 && trace[0].code == ops[pc] && 0 < trace[0].i <= sz
      && (Width(ops[pc]) == 4 ==> trace[0].i == Member(ops[pc + 2] - 1, sz))
      && var ops' := Fetched(ops, pc);
         Executes(ops', if ops'[pc + 1] > 0 then pc else pc + Width(ops[pc]), sz, trace[1..])
  }

  /** The set the linear array stands for after these rounds. */
  function ArrayAfter(trace: seq<Op>): set<nat> {
    if trace == [] then {}
    else
      var o, s := trace[|trace| - 1], ArrayAfter(trace[..|trace| - 1]);
      if o.code % 2 == 1 then s + {o.i} else s - {o.i}
  }

  /** The members of the bitmap after them: opcode 5 passes it by. */
  function BitvecAfter(trace: seq<Op>): set<nat> {
    if trace == [] then {}
    else
      var o, s := trace[|trace| - 1], BitvecAfter(trace[..|trace| - 1]);
      if o.code == 5 then s else if o.code % 2 == 1 then s + {o.i} else s - {o.i}
  }

  /** Round k sets x in the linear array only, x was not in the bitmap, and no later round touches x. */
  predicate LastFault(trace: seq<Op>, k: nat, x: nat) {
    && k < |trace| && trace[k] == Op(5, x) && x !in BitvecAfter(trace[..k])
    && forall j | k < j < |trace| :: trace[j].i != x
  }

  /** The two disagree about x exactly when a fault has been injected at x, was one, and has not been
      overwritten. */
  lemma {:induction false} FaultShows(trace: seq<Op>, x: nat)
    ensures (x in ArrayAfter(trace) <==> x !in BitvecAfter(trace)) <==> exists k :: LastFault(trace, k, x)
  {
    if trace != [] {
      var n := |trace| - 1;
      var o, before := trace[n], trace[..n];
      FaultShows(before, x);
      if o.i != x {
        forall k: nat | k < n ensures LastFault(before, k, x) <==> LastFault(trace, k, x) {
          assert before[..k] == trace[..k];
        }
      } else {
        assert LastFault(trace, n, x) <==> o.code == 5 && x !in BitvecAfter(before);
      }
    }
  }

  /** Without opcode 5 the two agree. */
  lemma {:induction false} NoFaultNoDifference(trace: seq<Op>)
    requires forall o | o in trace :: o.code != 5
    ensures ArrayAfter(trace) == BitvecAfter(trace)
  {
    if trace != [] {
      NoFaultNoDifference(trace[..|trace| - 1]);
    }
  }

  lemma {:induction false} NoFaultInTrace(ops: seq<int>, pc: nat, sz: nat, trace: seq<Op>)
    requires sz > 0 && Executes(ops, pc, sz, trace) && NoFault(ops, pc)
    ensures forall o | o in trace :: o.code != 5
    decreases |trace|
  {
    if trace != [] {
      var ops' := Fetched(ops, pc);
      ProgramStep(ops, ops', pc);
      NoFaultInTrace(ops', if ops'[pc + 1] > 0 then pc else pc + Width(ops[pc]), sz, trace[1..]);
      assert trace == [trace[0]] + trace[1..];
    }
  }

  /** Whatever the program at pc can still do, comes after these rounds of the program at the start. */
  ghost predicate Continues(start: seq<int>, sz: nat, done: seq<Op>, ops: seq<int>, pc: nat)
    requires sz > 0
  {
    forall rest :: Executes(ops, pc, sz, rest) ==> Executes(start, 0, sz, done + rest)
  }

  lemma ContinuesStart(start: seq<int>, sz: nat)
    requires sz > 0
    ensures Continues(start, sz, [], start, 0)
  {
    forall rest | Executes(start, 0, sz, rest) ensures Executes(start, 0, sz, [] + rest) {
      assert [] + rest == rest;
    }
  }

  lemma ContinuesStep(start: seq<int>, sz: nat, done: seq<Op>, ops: seq<int>, pc: nat, o: Op)
    requires sz > 0 && Program(ops, pc) && ops[pc] != 0 && o.code == ops[pc] && 0 < o.i <= sz
    requires Width(ops[pc]) == 4 ==> o.i == Member(ops[pc + 2] - 1, sz)
    requires Continues(start, sz, done, ops, pc)
    ensures var ops' := Fetched(ops, pc);
            Continues(start, sz, done + [o], ops', if ops'[pc + 1] > 0 then pc else pc + Width(ops[pc]))
  {
    var ops' := Fetched(ops, pc);
    var pc' := if ops'[pc + 1] > 0 then pc else pc + Width(ops[pc]);
    forall rest | Executes(ops', pc', sz, rest) ensures Executes(start, 0, sz, done + [o] + rest) {
      assert ([o] + rest)[1..] == rest;
      assert Executes(ops, pc, sz, [o] + rest);
      assert done + [o] + rest == done + ([o] + rest);
    }
  }

  lemma ContinuesEnd(start: seq<int>, sz: nat, done: seq<Op>, ops: seq<int>, pc: nat)
    requires sz > 0 && Program(ops, pc) && ops[pc] == 0 && Continues(start, sz, done, ops, pc)
    ensures Executes(start, 0, sz, done)
  {
    assert Executes(ops, pc, sz, []);
    assert done + [] == done;
  }

  // ---------- what the instructions are for ----------

  /** n members, beginning with i and going up by x, are in range. */
  predicate InRange(i: int, x: int, n: nat, sz: nat)
    decreases n
  {
    n == 0 || (0 < i <= sz && InRange(i + x, x, n - 1, sz))
  }

  /** The rounds that apply an opcode to these members. */
  function Rounds(code: int, i: int, x: int, n: nat, sz: nat): (r: seq<Op>)
    requires InRange(i, x, n, sz)
    ensures |r| == n
    decreases n
  {
    if n == 0 then [] else [Op(code, i)] + Rounds(code, i + x, x, n - 1, sz)
  }

  /** The programs differ in the operands of the instruction at pc only. */
  predicate SameElse(ops: seq<int>, pc: nat, ops': seq<int>) {
    |ops'| == |ops| && forall j | 0 <= j < |ops| && !(pc < j < pc + 4) :: ops'[j] == ops[j]
  }

  /** An operand in range stands for itself. */
  lemma FirstRound(ops: seq<int>, pc: nat, sz: nat, trace: seq<Op>)
    requires 0 < sz < 0x8000_0000 && Executes(ops, pc, sz, trace) && pc + 4 <= |ops|
    requires (ops[pc] == 1 || ops[pc] == 2 || ops[pc] == 5) && 0 < ops[pc + 2] <= sz
    ensures trace != [] && trace[0] == Op(ops[pc], ops[pc + 2])
    ensures var ops' := Fetched(ops, pc);
            && SameElse(ops, pc, ops') && ops'[pc + 1] == ops[pc + 1] - 1
            && ops'[pc + 2] == ops[pc + 2] + ops[pc + 3] && ops'[pc + 3] == ops[pc + 3]
            && Executes(ops', if ops[pc + 1] > 1 then pc else pc + 4, sz, trace[1..])
  {
    MemberIs(ops[pc + 2], sz);
    FetchedIs(ops, pc);
    hide Fetched, Member;
  }

  lemma MemberIs(i: nat, sz: nat)
    requires 0 < i <= sz < 0x8000_0000
    ensures Member(i - 1, sz) == i
  {
    assert (i - 1) % 0x8000_0000 == i - 1;
    SmallMod(i - 1, sz);
  }

  lemma SmallMod(a: nat, n: nat)
    requires a < n
    ensures a % n == a
  {
  }

  lemma FetchedIs(ops: seq<int>, pc: nat)
    requires pc + 4 <= |ops| && (ops[pc] == 1 || ops[pc] == 2 || ops[pc] == 5)
    ensures var ops' := Fetched(ops, pc);
            && SameElse(ops, pc, ops') && ops'[pc + 1] == ops[pc + 1] - 1
            && ops'[pc + 2] == ops[pc + 2] + ops[pc + 3] && ops'[pc + 3] == ops[pc + 3]
  {
  }

  /** An instruction with the operands n, i and x is applied to n members, beginning with i and going up by
      x, or once if n is not positive, and then the program goes on behind it. */
  lemma {:induction false} InstructionIs(ops: seq<int>, pc: nat, sz: nat, trace: seq<Op>, n: nat)
      returns (rest: seq<Op>, ops': seq<int>)
    requires 0 < sz < 0x8000_0000 && Executes(ops, pc, sz, trace) && pc + 4 <= |ops|
    requires (ops[pc] == 1 || ops[pc] == 2 || ops[pc] == 5) && n == (if ops[pc + 1] > 1 then ops[pc + 1] else 1)
    requires InRange(ops[pc + 2], ops[pc + 3], n, sz)
    ensures trace == Rounds(ops[pc], ops[pc + 2], ops[pc + 3], n, sz) + rest
    ensures SameElse(ops, pc, ops') && Executes(ops', pc + 4, sz, rest)
    decreases n
  {
    hide *;
    NextRounds(ops[pc], ops[pc + 2], ops[pc + 3], n, sz);
    FirstRound(ops, pc, sz, trace);
    var o, r, more := Fetched(ops, pc), trace[1..], Rounds(ops[pc], ops[pc + 2] + ops[pc + 3], ops[pc + 3], n - 1, sz);
    SameAt(ops, pc, o);
    assert trace == [trace[0]] + r;
    if n > 1 {
      rest, ops' := InstructionIs(o, pc, sz, r, n - 1);
      assert [trace[0]] + (more + rest) == [trace[0]] + more + rest;
      SameTwice(ops, pc, o, ops');
    } else {
      ops', rest := o, r;
      assert [trace[0]] + more == [trace[0]];
    }
  }

  lemma NextRounds(code: int, i: int, x: int, n: nat, sz: nat)
    requires InRange(i, x, n, sz) && n > 0
    ensures 0 < i <= sz && InRange(i + x, x, n - 1, sz)
    ensures Rounds(code, i, x, n, sz) == [Op(code, i)] + Rounds(code, i + x, x, n - 1, sz)
  {
  }

  lemma SameAt(ops: seq<int>, pc: nat, ops': seq<int>)
    requires SameElse(ops, pc, ops') && pc < |ops|
    ensures |ops'| == |ops| && ops'[pc] == ops[pc]
  {
  }

  lemma SameTwice(a: seq<int>, pc: nat, b: seq<int>, c: seq<int>)
    requires SameElse(a, pc, b) && SameElse(b, pc, c)
    ensures SameElse(a, pc, c)
  {
  }

  /** Opcodes 1 and 3 set a member on both sides, 2 and 4 clear it, and 5 sets it in the linear array only. */
  lemma OpcodesAre(trace: seq<Op>, code: int, i: nat)
    ensures var more := trace + [Op(code, i)];
            && (code == 1 || code == 3 ==>
                  ArrayAfter(more) == ArrayAfter(trace) + {i} && BitvecAfter(more) == BitvecAfter(trace) + {i})
            && (code == 2 || code == 4 ==>
                  ArrayAfter(more) == ArrayAfter(trace) - {i} && BitvecAfter(more) == BitvecAfter(trace) - {i})
            && (code == 5 ==> ArrayAfter(more) == ArrayAfter(trace) + {i} && BitvecAfter(more) == BitvecAfter(trace))
  {
    AfterOne(trace, Op(code, i));
  }

  // ---------- the linear array ----------

  /** The linear array holds exactly the members of s, among 1..n. */
  ghost predicate Mirrors(v: seq<bv8>, s: set<nat>, n: nat)
    requires n / 8 < |v|
  {
    forall x: nat | 0 < x <= n :: x in s <==> Bit(v[x / 8], x % 8)
  }

  lemma MirrorSet(v: seq<bv8>, s: set<nat>, n: nat, i: nat)
    requires n / 8 < |v| && Mirrors(v, s, n) && 0 < i <= n
    ensures Mirrors(v[i / 8 := v[i / 8] | Mask(i % 8)], s + {i}, n)
  {
    var v' := v[i / 8 := v[i / 8] | Mask(i % 8)];
    forall x: nat | 0 < x <= n
      ensures x in s + {i} <==> Bit(v'[x / 8], x % 8)
    {
      BitSet(v[i / 8], i % 8, x % 8);
    }
  }

  lemma MirrorClear(v: seq<bv8>, s: set<nat>, n: nat, i: nat)
    requires n / 8 < |v| && Mirrors(v, s, n) && 0 < i <= n
    ensures Mirrors(v[i / 8 := v[i / 8] & !Mask(i % 8)], s - {i}, n)
  {
    var v' := v[i / 8 := v[i / 8] & !Mask(i % 8)];
    forall x: nat | 0 < x <= n
      ensures x in s - {i} <==> Bit(v'[x / 8], x % 8)
    {
      BitCleared(v[i / 8], i % 8, x % 8);
    }
  }

  /** SETBIT and CLEARBIT on the linear array. */
  method Mark(v: array<bv8>, n: nat, i: nat, set': bool, ghost s: set<nat>) returns (ghost s': set<nat>)
    requires 0 < i <= n && n / 8 < v.Length && Mirrors(v[..], s, n)
    modifies v
    ensures Mirrors(v[..], s', n) && s' == if set' then s + {i} else s - {i}
  {
    hide Mirrors;
    ghost var old' := v[..];
    MirrorSet(old', s, n, i);
    MirrorClear(old', s, n, i);
    if set' {
      v[i / 8] := v[i / 8] | Mask(i % 8);
      assert v[..] == old'[i / 8 := old'[i / 8] | Mask(i % 8)];
      s' := s + {i};
    } else {
      v[i / 8] := v[i / 8] & !Mask(i % 8);
      assert v[..] == old'[i / 8 := old'[i / 8] & !Mask(i % 8)];
      s' := s - {i};
    }
  }

  /** One operation on both: set or clear member i, in the linear array only for opcode 5. */
  method Apply(p: Bitvec, v: array<bv8>, op: int, i: nat, ghost trace: seq<Op>)
    requires p.Valid() && 0 < i <= p.iSize && p.iSize / 8 < v.Length
    requires Mirrors(v[..], ArrayAfter(trace), p.iSize) && p.Contents == BitvecAfter(trace)
    modifies p.Reps.Keys, v
    ensures p.Valid() && fresh(p.Reps.Keys - old(p.Reps.Keys))
    ensures Mirrors(v[..], ArrayAfter(trace + [Op(op, i)]), p.iSize)
    ensures p.Contents == BitvecAfter(trace + [Op(op, i)])
  {
    AfterOne(trace, Op(op, i));
    hide *;
    ghost var s := Mark(v, p.iSize, i, op % 2 == 1, ArrayAfter(trace));
    if op % 2 == 1 {
      if op != 5 {
        var rc := Bitvec.BitvecSet(p, i);
      }
    } else {
      Bitvec.BitvecClear(p, i);
    }
  }

  lemma AfterOne(trace: seq<Op>, o: Op)
    ensures ArrayAfter(trace + [o]) == if o.code % 2 == 1 then ArrayAfter(trace) + {o.i} else ArrayAfter(trace) - {o.i}
    ensures BitvecAfter(trace + [o]) ==
            if o.code == 5 then BitvecAfter(trace)
            else if o.code % 2 == 1 then BitvecAfter(trace) + {o.i} else BitvecAfter(trace) - {o.i}
  {
    assert (trace + [o])[..|trace|] == trace;
  }

  /** The comparison at the end: 0, or the first member on which the two disagree. */
  method Compare(p: Bitvec, v: array<bv8>, ghost s: set<nat>) returns (rc: int)
    requires p.Valid() && 0 < p.iSize < 0x8000_0000 && p.iSize / 8 < v.Length && Mirrors(v[..], s, p.iSize)
    ensures rc == 0 <==> forall x: nat | 0 < x <= p.iSize :: x in s <==> x in p.Contents
    ensures rc != 0 ==> 0 < rc <= p.iSize && (rc in s <==> rc !in p.Contents)
  {
    var t0 := Bitvec.Test(null, 0);
    var t1 := Bitvec.Test(p, p.iSize + 1);
    var t2 := Bitvec.Test(p, 0);
    p.MembersInRange();
    rc := (if t0 then 1 else 0) + (if t1 then 1 else 0) + (if t2 then 1 else 0);
    var i := 1;
    while i <= p.iSize
      invariant 1 <= i <= p.iSize + 1 && rc == 0
      invariant forall x: nat | 0 < x < i :: x in s <==> x in p.Contents
    {
      var b := Bitvec.Test(p, i);
      if (v[i / 8] & Mask(i % 8) != 0) != b {
        return i;
      }
      i := i + 1;
    }
  }

  /** The self-test.  It halts after some rounds its program can go through, whatever the random
      numbers, and gives 0 exactly if these leave bitmap and linear array with the same members; a
      program that never uses opcode 5 ends with 0. */
  method BuiltinTest(sz: int, aOp: array<int>) returns (rc: int, ghost trace: seq<Op>)
    requires 0 < sz < 0x8000_0000 && Program(aOp[..], 0)
    modifies aOp
    ensures Executes(old(aOp[..]), 0, sz, trace)
    ensures rc == 0 <==> forall x: nat | 0 < x <= sz :: x in ArrayAfter(trace) <==> x in BitvecAfter(trace)
    ensures NoFault(old(aOp[..]), 0) ==> rc == 0
  {
    var p := new Bitvec(sz);
    var v := new bv8[(sz + 7) / 8 + 1](_ => 0);
    assert Mirrors(v[..], {}, sz);
    var rc0 := Bitvec.BitvecSet(null, 1);
    Bitvec.BitvecClear(null, 1);
    hide *;
    trace := Run(p, v, aOp);
    rc := Compare(p, v, ArrayAfter(trace));
    if NoFault(old(aOp[..]), 0) {
      NoFaultInTrace(old(aOp[..]), 0, sz, trace);
      NoFaultNoDifference(trace);
    }
  }

  /** The interpreter loop. */
  method Run(p: Bitvec, v: array<bv8>, aOp: array<int>) returns (ghost trace: seq<Op>)
    requires p.Valid() && p.Contents == {} && 0 < p.iSize && p.iSize / 8 < v.Length
    requires Program(aOp[..], 0) && Mirrors(v[..], {}, p.iSize)
    requires v as object != aOp as object
    modifies p.Reps.Keys, v, aOp
    ensures p.Valid() && Executes(old(aOp[..]), 0, p.iSize, trace)
    ensures Mirrors(v[..], ArrayAfter(trace), p.iSize) && p.Contents == BitvecAfter(trace)
  {
    trace := [];
    assert ArrayAfter([]) == {} == BitvecAfter([]);
    hide *;
    var pc := 0;
    ProgramFits(aOp[..], 0);
    ContinuesStart(aOp[..], p.iSize);
    while aOp[pc] != 0
      invariant pc < aOp.Length && Program(aOp[..], pc)
      invariant p.Valid() && fresh(p.Reps.Keys - old(p.Reps.Keys))
      invariant Mirrors(v[..], ArrayAfter(trace), p.iSize) && p.Contents == BitvecAfter(trace)
      invariant Continues(old(aOp[..]), p.iSize, trace, aOp[..], pc)
      decreases aOp.Length - pc, if pc + 1 < aOp.Length then aOp[pc + 1] else 0
    {
      pc, trace := Round(p, v, aOp, pc, old(aOp[..]), trace);
    }
    ContinuesEnd(old(aOp[..]), p.iSize, trace, aOp[..], pc);
  }

  /** One round. */
  method Round(p: Bitvec, v: array<bv8>, aOp: array<int>, pc: nat, ghost start: seq<int>, ghost trace: seq<Op>)
      returns (pc': nat, ghost trace': seq<Op>)
    requires Program(aOp[..], pc) && pc < aOp.Length && aOp[pc] != 0
    requires p.Valid() && 0 < p.iSize && p.iSize / 8 < v.Length
    requires v as object != aOp as object
    requires Mirrors(v[..], ArrayAfter(trace), p.iSize) && p.Contents == BitvecAfter(trace)
    requires Continues(start, p.iSize, trace, aOp[..], pc)
    modifies p.Reps.Keys, v, aOp
    ensures pc' < aOp.Length && Program(aOp[..], pc') && p.Valid() && fresh(p.Reps.Keys - old(p.Reps.Keys))
    ensures Mirrors(v[..], ArrayAfter(trace'), p.iSize) && p.Contents == BitvecAfter(trace')
    ensures Continues(start, p.iSize, trace', aOp[..], pc')
    ensures pc < pc' || (pc == pc' && aOp[pc + 1] < old(aOp[pc + 1]) && old(aOp[pc + 1]) > 0)
  {
    hide *;
    ghost var ops := aOp[..];
    var op, nx := aOp[pc], Width(aOp[pc]);
    var i := Fetch(aOp, pc);
    i := MemberOf(i, p.iSize);
    ContinuesStep(start, p.iSize, trace, ops, pc, Op(op, i));
    if aOp[pc + 1] > 0 { nx := 0; }
    pc' := pc + nx;
    Apply(p, v, op, i, trace);
    trace' := trace + [Op(op, i)];
  }

  /** An operand becomes a member: the sign bit is masked off, and the rest taken modulo the size. */
  method MemberOf(i: int, sz: nat) returns (m: nat)
    requires sz > 0
    ensures m == Member(i, sz) && 0 < m <= sz
  {
    m := i % 0x8000_0000 % sz + 1;
  }

  /** The operands of the instruction at pc, and what becomes of them. */
  method Fetch(aOp: array<int>, pc: nat) returns (i: int)
    requires Program(aOp[..], pc) && aOp[pc] != 0
    modifies aOp
    ensures pc + Width(aOp[pc]) < aOp.Length && aOp[pc] == old(aOp[pc])
    ensures aOp[pc + 1] == old(aOp[pc + 1]) - 1 && aOp[..] == Fetched(old(aOp[..]), pc)
    ensures Width(aOp[pc]) == 4 ==> i == old(aOp[pc + 2]) - 1
    ensures Program(aOp[..], pc) && Program(aOp[..], pc + Width(aOp[pc]))
  {
    ghost var ops, op := aOp[..], aOp[pc];
    ProgramFits(ops, pc);
    if aOp[pc] == 1 || aOp[pc] == 2 || aOp[pc] == 5 {
      i := aOp[pc + 2] - 1;
      aOp[pc + 2] := aOp[pc + 2] + aOp[pc + 3];
    } else {
      i := *;
    }
    aOp[pc + 1] := aOp[pc + 1] - 1;
    ProgramStep(ops, aOp[..], pc);
  }
}
