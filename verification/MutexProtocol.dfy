/** The locking protocol for shared B-trees as a transition system: any number of connections,
    each with its own list of B-tree handles in ascending order of the shared B-tree's address,
    taking and releasing the shared, non-recursive mutexes in any interleaving.

    One step of a connection is what it does between two points where another thread can act. */
module MutexProtocol {

  /** Where a connection is inside the lock routine for its handle k. */
  datatype PC =
    | Idle                        // outside
    | Trying(k: nat)              // about to try the mutex without blocking
    | Releasing(k: nat, j: nat)   // giving up the later locks; handle j is next
    | Blocking(k: nat)            // about to take the mutex, waiting if need be
    | Relocking(k: nat, j: nat)   // taking the later locks back; handle j is next

  /** A connection: for each of its sharable handles, in pNext order, the address of the shared
      B-tree (and of its mutex), the nesting count wantToLock and the flag locked. */
  datatype Conn = Conn(list: seq<nat>, want: seq<nat>, locked: seq<bool>, pc: PC)

  /** holder: the mutexes that are held, and by whom.  db: the connection each shared B-tree names. */
  datatype State = State(conns: seq<Conn>, holder: map<nat, nat>, db: map<nat, nat>)

  datatype Action = CallEnter(k: nat) | CallLeave(k: nat) | TryFails | Go

  // ---------- the steps ----------

  predicate Shaped(me: Conn) {
    && |me.want| == |me.list| && |me.locked| == |me.list|
    && match me.pc
       case Idle => true
       case Trying(k) => k < |me.list|
       case Releasing(k, j) => k < j <= |me.list|
       case Blocking(k) => k < |me.list|
       case Relocking(k, j) => k < j <= |me.list|
  }

  /** The handle whose mutex the connection takes in its next step, blocking if it is not free. */
  predicate NextLock(me: Conn, k: nat)
    requires Shaped(me)
  {
    match me.pc
    case Blocking(k') => k == k'
    case Relocking(_, j) => k == j < |me.list| && me.want[j] > 0
    case _ => false
  }

  /** What the connection itself may do next. */
  predicate Possible(me: Conn, a: Action)
    requires Shaped(me)
  {
    match a
    case CallEnter(k) => me.pc.Idle? && k < |me.list|
    case CallLeave(k) => me.pc.Idle? && k < |me.list| && me.want[k] > 0
    case TryFails => me.pc.Trying?
    case Go => !me.pc.Idle?
  }

  /** What a step does to the connection that takes it. */
  function Local(me: Conn, a: Action): Conn
    requires Shaped(me) && Possible(me, a)
  {
    match a
    case CallEnter(k) =>
      me.(want := me.want[k := me.want[k] + 1], pc := if me.locked[k] then Idle else Trying(k))
    case CallLeave(k) =>
      var left := me.want[k] - 1;
      me.(want := me.want[k := left], locked := if left == 0 then me.locked[k := false] else me.locked)
    case TryFails => me.(pc := Releasing(me.pc.k, me.pc.k + 1))
    case Go =>
      match me.pc
      case Trying(k) => me.(locked := me.locked[k := true], pc := Idle)
      case Releasing(k, j) =>
        if j == |me.list| then me.(pc := Blocking(k))
        else me.(locked := me.locked[j := false], pc := Releasing(k, j + 1))
      case Blocking(k) => me.(locked := me.locked[k := true], pc := Relocking(k, k + 1))
      case Relocking(k, j) =>
        if j == |me.list| then me.(pc := Idle)
        else if me.want[j] > 0 then me.(locked := me.locked[j := true], pc := Relocking(k, j + 1))
        else me.(pc := Relocking(k, j + 1))
  }

  /** What a step does to the mutexes. */
  datatype Effect = Nothing | Take(k: nat) | Drop(k: nat)

  function EffectOf(me: Conn, a: Action): Effect
    requires Shaped(me) && Possible(me, a)
  {
    match a
    case CallEnter(_) => Nothing
    case CallLeave(k) => if me.want[k] == 1 then Drop(k) else Nothing
    case TryFails => Nothing
    case Go =>
      match me.pc
      case Trying(k) => Take(k)
      case Releasing(_, j) => if j < |me.list| && me.locked[j] then Drop(j) else Nothing
      case Blocking(k) => Take(k)
      case Relocking(_, j) => if j < |me.list| && me.want[j] > 0 then Take(j) else Nothing
  }

  predicate Enabled(s: State, c: nat, a: Action) {
    && c < |s.conns| && Shaped(s.conns[c]) && Possible(s.conns[c], a)
    && var effect := EffectOf(s.conns[c], a);
       effect.Take? ==> effect.k < |s.conns[c].list| && s.conns[c].list[effect.k] !in s.holder
  }

  function Do(s: State, c: nat, a: Action): State
    requires Enabled(s, c, a)
  {
    var me := s.conns[c];
    var conns := s.conns[c := Local(me, a)];
    match EffectOf(me, a)
    case Nothing => State(conns, s.holder, s.db)
    case Take(k) => State(conns, s.holder[me.list[k] := c], s.db[me.list[k] := c])
    case Drop(k) => State(conns, s.holder - {me.list[k]}, s.db)
  }

  // ---------- the invariant ----------

  predicate Ascending(list: seq<nat>) {
    forall i, j | 0 <= i < j < |list| :: list[i] < list[j]
  }

  predicate Settled(me: Conn, i: nat)
    requires i < |me.want| && i < |me.locked|
  {
    me.locked[i] <==> me.want[i] > 0
  }

  /** Which handles are locked at each point of the lock routine. */
  predicate Phase(me: Conn)
    requires Shaped(me)
  {
    match me.pc
    case Idle => forall i | 0 <= i < |me.list| :: Settled(me, i)
    case Trying(k) =>
      && !me.locked[k] && me.want[k] > 0
      && forall i | 0 <= i < |me.list| && i != k :: Settled(me, i)
    case Releasing(k, j) =>
      && !me.locked[k] && me.want[k] > 0
      && (forall i | 0 <= i < |me.list| && (i < k || j <= i) :: Settled(me, i))
      && forall i | k < i < j :: !me.locked[i]
    case Blocking(k) =>
      && me.want[k] > 0
      && (forall i | 0 <= i < k :: Settled(me, i))
      && forall i | k <= i < |me.list| :: !me.locked[i]
    case Relocking(k, j) =>
      && (forall i | 0 <= i < j :: Settled(me, i))
      && forall i | j <= i < |me.list| :: !me.locked[i]
  }

  predicate ConnOk(me: Conn) {
    Shaped(me) && Ascending(me.list) && Phase(me)
  }

  /** A locked handle means the mutex is held by its connection, and names it. */
  predicate Covered(s: State, c: nat, k: nat)
    requires c < |s.conns| && k < |s.conns[c].list|
  {
    var m := s.conns[c].list[k];
    m in s.holder && s.holder[m] == c && m in s.db && s.db[m] == c
  }

  ghost predicate Holds(me: Conn, m: nat)
    requires Shaped(me)
  {
    exists k | 0 <= k < |me.list| :: me.list[k] == m && me.locked[k]
  }

  ghost predicate Inv(s: State) {
    && (forall c | 0 <= c < |s.conns| :: ConnOk(s.conns[c]))
    && (forall c, k | 0 <= c < |s.conns| && 0 <= k < |s.conns[c].list| && s.conns[c].locked[k] :: Covered(s, c, k))
    && (forall m | m in s.holder :: s.holder[m] < |s.conns| && Holds(s.conns[s.holder[m]], m))
  }

  /** No lock is held and nobody is in the lock routine; the lists are sorted. */
  ghost predicate Initial(s: State) {
    && s.holder == map[]
    && forall c | 0 <= c < |s.conns| ::
         var me := s.conns[c];
         && Shaped(me) && Ascending(me.list) && me.pc == Idle
         && forall k | 0 <= k < |me.list| :: me.want[k] == 0 && !me.locked[k]
  }

  lemma TakeKeepsInv(s: State, c: nat, k: nat, me': Conn, s': State)
    requires Inv(s) && c < |s.conns| && k < |s.conns[c].list|
    requires s.conns[c].list[k] !in s.holder
    requires ConnOk(me') && me'.list == s.conns[c].list && me'.locked == s.conns[c].locked[k := true]
    requires s' == State(s.conns[c := me'], s.holder[me'.list[k] := c], s.db[me'.list[k] := c])
    ensures Inv(s')
  {
    hide Phase, Ascending, Settled;
    var m := me'.list[k];
    assert s'.conns[c].list[k] == m && s'.conns[c].locked[k];
    forall d, i | 0 <= d < |s'.conns| && 0 <= i < |s'.conns[d].list| && s'.conns[d].locked[i]
      ensures Covered(s', d, i)
    {
      if !(d == c && i == k) {
        assert Covered(s, d, i);
      }
    }
    forall m' | m' in s'.holder
      ensures s'.holder[m'] < |s'.conns| && Holds(s'.conns[s'.holder[m']], m')
    {
      if m' != m {
        var d := s.holder[m'];
        var i :| 0 <= i < |s.conns[d].list| && s.conns[d].list[i] == m' && s.conns[d].locked[i];
        assert s'.conns[d].list[i] == m' && s'.conns[d].locked[i];
      }
    }
  }

  lemma DropKeepsInv(s: State, c: nat, k: nat, me': Conn, s': State)
    requires Inv(s) && c < |s.conns| && k < |s.conns[c].list| && s.conns[c].locked[k]
    requires ConnOk(me') && me'.list == s.conns[c].list && me'.locked == s.conns[c].locked[k := false]
    requires s' == State(s.conns[c := me'], s.holder - {me'.list[k]}, s.db)
    ensures Inv(s')
  {
    assert Covered(s, c, k);
    forall d, i | 0 <= d < |s'.conns| && 0 <= i < |s'.conns[d].list| && s'.conns[d].locked[i]
      ensures Covered(s', d, i)
    {
      assert Covered(s, d, i);
    }
    forall m' | m' in s'.holder
      ensures s'.holder[m'] < |s'.conns| && Holds(s'.conns[s'.holder[m']], m')
    {
      var d := s.holder[m'];
      var i :| 0 <= i < |s.conns[d].list| && s.conns[d].list[i] == m' && s.conns[d].locked[i];
      assert s'.conns[d].list[i] == m' && s'.conns[d].locked[i];
    }
  }

  /** A step that touches no lock. */
  lemma MoveKeepsInv(s: State, c: nat, me': Conn, s': State)
    requires Inv(s) && c < |s.conns| && ConnOk(me')
    requires me'.list == s.conns[c].list && me'.locked == s.conns[c].locked
    requires s' == State(s.conns[c := me'], s.holder, s.db)
    ensures Inv(s')
  {
    forall d, i | 0 <= d < |s'.conns| && 0 <= i < |s'.conns[d].list| && s'.conns[d].locked[i]
      ensures Covered(s', d, i)
    {
      assert Covered(s, d, i);
    }
    forall m' | m' in s'.holder
      ensures s'.holder[m'] < |s'.conns| && Holds(s'.conns[s'.holder[m']], m')
    {
      var d := s.holder[m'];
      var i :| 0 <= i < |s.conns[d].list| && s.conns[d].list[i] == m' && s.conns[d].locked[i];
      assert s'.conns[d].list[i] == m' && s'.conns[d].locked[i];
    }
  }

  /** The step of one connection, seen from itself. */
  lemma LocalKeepsPhase(me: Conn, a: Action)
    requires ConnOk(me) && Possible(me, a)
    ensures ConnOk(Local(me, a)) && Local(me, a).list == me.list
    ensures match EffectOf(me, a)
            case Nothing => Local(me, a).locked == me.locked
            case Take(k) => k < |me.list| && !me.locked[k] && Local(me, a).locked == me.locked[k := true]
            case Drop(k) => k < |me.list| && me.locked[k] && Local(me, a).locked == me.locked[k := false]
  {
    var me' := Local(me, a);
    assert a.CallLeave? ==> Settled(me, a.k);
    forall i | 0 <= i < |me.list| && me'.want[i] == me.want[i] && me'.locked[i] == me.locked[i]
      ensures Settled(me', i) == Settled(me, i)
    {
    }
  }

  /** Every step of every connection keeps the invariant. */
  lemma StepKeepsInv(s: State, c: nat, a: Action)
    requires Inv(s) && Enabled(s, c, a)
    ensures Inv(Do(s, c, a))
  {
    var me, s' := s.conns[c], Do(s, c, a);
    assert ConnOk(me);
    LocalKeepsPhase(me, a);
    hide Inv, ConnOk, Local, EffectOf;
    match EffectOf(me, a) {
      case Nothing => MoveKeepsInv(s, c, Local(me, a), s');
      case Take(k) => TakeKeepsInv(s, c, k, Local(me, a), s');
      case Drop(k) => DropKeepsInv(s, c, k, Local(me, a), s');
    }
  }

  // ---------- the assertions in the code ----------

  /** What the code asserts before each step: on entry that a locked handle is wanted and that a
      locked handle's shared B-tree names its connection; before a blocking lock that the connection
      does not already hold that mutex; before an unlock that it does, and that the shared B-tree
      still names it. */
  predicate AssertsHold(s: State, c: nat, a: Action)
    requires Enabled(s, c, a)
  {
    var me := s.conns[c];
    && (a.CallEnter? ==> (me.locked[a.k] ==> me.want[a.k] > 0 && Covered(s, c, a.k)))
    && match EffectOf(me, a)
       case Nothing => true
       case Take(k) => k < |me.list| && !me.locked[k] && !(me.list[k] in s.holder && s.holder[me.list[k]] == c)
       case Drop(k) => k < |me.list| && me.locked[k] && Covered(s, c, k)
  }

  lemma AssertionsNeverFail(s: State, c: nat, a: Action)
    requires Inv(s) && Enabled(s, c, a)
    ensures AssertsHold(s, c, a)
  {
    var me := s.conns[c];
    assert ConnOk(me);
    LocalKeepsPhase(me, a);
    if a.CallEnter? {
      assert Settled(me, a.k);
      assert me.locked[a.k] ==> Covered(s, c, a.k);
    }
    if EffectOf(me, a).Drop? {
      assert Covered(s, c, EffectOf(me, a).k);
    }
  }

  // ---------- waiting ----------

  /** Connection c is stuck: the mutex its next step needs, m, is held by somebody. */
  ghost predicate WaitsFor(s: State, c: nat, m: nat) {
    && c < |s.conns| && Shaped(s.conns[c]) && m in s.holder
    && exists k | 0 <= k < |s.conns[c].list| :: NextLock(s.conns[c], k) && s.conns[c].list[k] == m
  }

  /** A waiting connection only holds mutexes with a smaller address than the one it waits for. */
  lemma HeldAreSmaller(s: State, c: nat, m: nat, held: nat)
    requires Inv(s) && WaitsFor(s, c, m)
    requires held in s.holder && s.holder[held] == c
    ensures held < m
  {
    var me := s.conns[c];
    assert ConnOk(me) && Holds(me, held);
    var k :| 0 <= k < |me.list| && NextLock(me, k) && me.list[k] == m;
    var i :| 0 <= i < |me.list| && me.list[i] == held && me.locked[i];
    assert i < k;
  }

  /** Each connection waits for a mutex that the next one holds. */
  ghost predicate WaitChain(s: State, cs: seq<nat>, ms: seq<nat>) {
    && |cs| == |ms|
    && (forall i | 0 <= i < |cs| :: WaitsFor(s, cs[i], ms[i]))
    && forall i, j | 0 <= i && j == i + 1 < |cs| :: s.holder[ms[i]] == cs[j]
  }

  lemma {:induction false} ChainAscends(s: State, cs: seq<nat>, ms: seq<nat>)
    requires Inv(s) && WaitChain(s, cs, ms) && |cs| > 0
    ensures ms[0] <= ms[|ms| - 1]
  {
    var n := |cs| - 1;
    if n > 0 {
      assert WaitChain(s, cs[..n], ms[..n]);
      ChainAscends(s, cs[..n], ms[..n]);
      var j := n - 1;
      assert WaitsFor(s, cs[j], ms[j]) && s.holder[ms[j]] == cs[j + 1] && WaitsFor(s, cs[n], ms[n]);
      HeldAreSmaller(s, cs[n], ms[n], ms[j]);
    }
  }

  /** No set of connections wait for one another in a circle. */
  lemma NoCyclicWait(s: State, cs: seq<nat>, ms: seq<nat>)
    requires Inv(s) && WaitChain(s, cs, ms) && |cs| > 0
    ensures s.holder[ms[|ms| - 1]] != cs[0]
  {
    ChainAscends(s, cs, ms);
    var n := |cs| - 1;
    assert WaitsFor(s, cs[n], ms[n]) && WaitsFor(s, cs[0], ms[0]);
    if s.holder[ms[n]] == cs[0] {
      HeldAreSmaller(s, cs[0], ms[0], ms[n]);
    }
  }

  /** Whoever waits, some connection that holds an awaited mutex does not wait itself. */
  lemma {:induction false} SomeHolderRuns(s: State, c: nat, m: nat, waiting: set<nat>) returns (d: nat, m': nat)
    requires Inv(s) && WaitsFor(s, c, m)
    requires forall x | x in s.holder && x !in waiting :: x < m
    requires m in waiting
    ensures m' in s.holder && s.holder[m'] == d < |s.conns|
    ensures exists c' :: WaitsFor(s, c', m')
    ensures forall x :: !WaitsFor(s, d, x)
    decreases waiting
  {
    d, m' := s.holder[m], m;
    if x :| WaitsFor(s, d, x) {
      HeldAreSmaller(s, d, x, m);
      d, m' := SomeHolderRuns(s, d, x, waiting - {m});
    }
  }

  /** Deadlock freedom: as long as some connection is stuck in the lock routine, a connection that
      holds a mutex somebody is waiting for can take its next step there, or is outside and free to
      call Leave on that handle. */
  lemma NeverStuck(s: State, c: nat, m: nat)
    requires Inv(s) && WaitsFor(s, c, m)
    ensures exists c': nat, d: nat, k: nat, m': nat ::
              && WaitsFor(s, c', m') && d < |s.conns| && s.holder[m'] == d
              && k < |s.conns[d].list| && s.conns[d].list[k] == m' && s.conns[d].locked[k]
              && (Enabled(s, d, Go) || Enabled(s, d, TryFails) || Enabled(s, d, CallLeave(k)))
  {
    var d, m' := SomeHolderRuns(s, c, m, s.holder.Keys);
    var me := s.conns[d];
    assert ConnOk(me) && Holds(me, m');
    var c' :| WaitsFor(s, c', m');
    var k :| 0 <= k < |me.list| && me.list[k] == m' && me.locked[k];
    if me.pc.Idle? {
      assert Settled(me, k);
      assert Enabled(s, d, CallLeave(k));
    } else if me.pc.Trying? {
      assert Enabled(s, d, TryFails);
    } else {
      var effect := EffectOf(me, Go);
      if effect.Take? {
        assert NextLock(me, effect.k);
        assert me.list[effect.k] in s.holder ==> WaitsFor(s, d, me.list[effect.k]);
      }
      assert Enabled(s, d, Go);
    }
  }

  // ---------- progress of one connection ----------

  /** Upper bound on the steps a connection still has to take inside the lock routine. */
  function Rank(me: Conn): nat
    requires Shaped(me)
  {
    var n := |me.list|;
    match me.pc
    case Idle => 0
    case Trying(_) => 2 * n + 4
    case Releasing(_, j) => n + 3 + (n - j)
    case Blocking(_) => n + 2
    case Relocking(_, j) => 1 + (n - j)
  }

  /** The back-off cannot go round in circles: every step inside the routine counts down. */
  lemma EveryStepCounts(me: Conn, a: Action)
    requires ConnOk(me) && Possible(me, a) && (a == Go || a == TryFails)
    ensures ConnOk(Local(me, a)) && Rank(Local(me, a)) < Rank(me)
  {
    LocalKeepsPhase(me, a);
  }

  /** A call of Enter and the steps up to its return change no nesting count but one. */
  lemma OnlyCallsCount(me: Conn, a: Action)
    requires ConnOk(me) && Possible(me, a)
    ensures match a
            case CallEnter(k) => Local(me, a).want == me.want[k := me.want[k] + 1]
            case CallLeave(k) => Local(me, a).want == me.want[k := me.want[k] - 1]
            case _ => Local(me, a).want == me.want
    ensures Local(me, a).pc.Idle? ==>
              forall i | 0 <= i < |me.list| :: Local(me, a).locked[i] <==> Local(me, a).want[i] > 0
  {
    LocalKeepsPhase(me, a);
    var me' := Local(me, a);
    forall i | 0 <= i < |me.list| && me'.pc.Idle?
      ensures me'.locked[i] <==> me'.want[i] > 0
    {
      assert Settled(me', i);
    }
  }

  // ---------- whole runs ----------

  ghost predicate Run(states: seq<State>) {
    && |states| > 0 && Initial(states[0])
    && forall i, j | 0 <= i && j == i + 1 < |states| :: Step(states[i], states[j])
  }

  ghost predicate Step(s: State, s': State) {
    exists c, a :: Enabled(s, c, a) && s' == Do(s, c, a)
  }

  lemma InitialInv(s: State)
    requires Initial(s)
    ensures Inv(s)
  {
    forall c | 0 <= c < |s.conns|
      ensures ConnOk(s.conns[c])
    {
      var me := s.conns[c];
      assert Shaped(me) && Ascending(me.list) && me.pc == Idle;
      assert forall k | 0 <= k < |me.list| :: Settled(me, k);
    }
  }

  lemma {:induction false} RunKeepsInv(states: seq<State>)
    requires Run(states)
    ensures Inv(states[|states| - 1])
  {
    var n := |states| - 1;
    if n == 0 {
      InitialInv(states[0]);
    } else {
      RunKeepsInv(states[..n]);
      var j := n - 1;
      assert Step(states[j], states[j + 1]);
      var c, a :| Enabled(states[j], c, a) && states[n] == Do(states[j], c, a);
      StepKeepsInv(states[j], c, a);
    }
  }

  /** In no reachable state do connections wait for one another in a circle, and in every reachable
      state every assertion in the code about the next step of any connection holds. */
  lemma Safety(states: seq<State>)
    requires Run(states)
    ensures var s := states[|states| - 1];
            && (forall cs, ms | WaitChain(s, cs, ms) && |cs| > 0 :: s.holder[ms[|ms| - 1]] != cs[0])
            && (forall c, a | Enabled(s, c, a) :: AssertsHold(s, c, a))
  {
    RunKeepsInv(states);
    var s := states[|states| - 1];
    forall cs, ms | WaitChain(s, cs, ms) && |cs| > 0
      ensures s.holder[ms[|ms| - 1]] != cs[0]
    {
      NoCyclicWait(s, cs, ms);
    }
    forall c, a | Enabled(s, c, a)
      ensures AssertsHold(s, c, a)
    {
      AssertionsNeverFail(s, c, a);
    }
  }
}
