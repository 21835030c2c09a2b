/** The recursive lock on shared B-trees, as methods on the handles of one connection.  The mutexes
    are shared with other connections; what those do to mutexes this connection does not hold is of
    no concern here (module MutexProtocol has all interleavings), so holder is only ever compared
    with this connection. */
module BtreeMutex {

  /** The part of a B-tree that connections share. */
  class BtShared {
    const address: nat
    var holder: Connection?   // who holds the mutex
    var db: Connection?       // the connection using it

    constructor (address: nat)
      ensures this.address == address && holder == null && db == null
    {
      this.address, holder, db := address, null, null;
    }

    /** Take the mutex if it is free.  It may be refused all the same. */
    method TryMutex(me: Connection) returns (ok: bool)
      requires holder != me
      modifies this`holder
      ensures if ok then holder == me else holder == old(holder)
    {
      ok := *;
      ok := ok && holder == null;
      if ok { holder := me; }
    }

    /** Wait until the mutex is free and take it.  It is not recursive. */
    method EnterMutex(me: Connection)
      requires holder != me
      modifies this`holder
      ensures holder == me
    {
      holder := me;
    }

    method LeaveMutex(me: Connection)
      requires holder == me
      modifies this`holder
      ensures holder == null
    {
      holder := null;
    }
  }

  /** One connection's handle on a B-tree. */
  class Btree {
    const db: Connection
    const pBt: BtShared
    const sharable: bool
    var wantToLock: nat
    var locked: bool
    var pNext: Btree?
    var pPrev: Btree?

    constructor (db: Connection, pBt: BtShared, sharable: bool)
      ensures this.db == db && this.pBt == pBt && this.sharable == sharable
      ensures wantToLock == 0 && !locked && pNext == null && pPrev == null
    {
      this.db, this.pBt, this.sharable := db, pBt, sharable;
      wantToLock, locked, pNext, pPrev := 0, false, null, null;
    }

    /** The flag locked tells the truth about the mutex. */
    ghost predicate Truthful()
      reads this`locked, pBt
    {
      if locked then pBt.holder == db && pBt.db == db else pBt.holder != db
    }

    ghost predicate Settled()
      reads this`locked, this`wantToLock
    {
      locked <==> wantToLock > 0
    }

    /** lockBtreeMutex */
    method Lock()
      requires !locked && pBt.holder != db
      modifies this`locked, pBt
      ensures locked && Truthful()
    {
      pBt.EnterMutex(db);
      pBt.db := db;
      locked := true;
    }

    /** unlockBtreeMutex */
    method Unlock()
      requires locked && pBt.holder == db && db == pBt.db
      modifies this`locked, pBt
      ensures !locked && Truthful()
    {
      pBt.LeaveMutex(db);
      locked := false;
    }

    /** sqlite3BtreeEnter.  It ends holding what was held before, and this handle's mutex. */
    method Enter()
      requires db.AtRest() && db.Knows(this)
      modifies db.handles`locked, this`wantToLock, db.shared
      ensures db.AtRest()
      ensures wantToLock == old(wantToLock) + if sharable then 1 else 0
      ensures forall b | b in db.list :: b.locked <==> old(b.locked) || (b == this && sharable)
    {
      if !sharable { return; }
      ghost var k := db.place[this];
      assert db.InPlace(k);
      hide Connection.Wired, Truthful, Connection.InPlace;
      wantToLock := wantToLock + 1;
      if locked {
        return;
      }
      LockCarefully(k);
    }

    lemma Mine(k: nat)
      requires db.Wired() && db.At(k) == this
      ensures this in db.handles && pBt in db.shared && k < |db.list| && db.list[k] == this
    {
      assert db.InPlace(k);
    }

    /** btreeLockCarefully.  On the way it may give up later locks, but it ends holding them again. */
    method LockCarefully(ghost k: nat)
      requires db.Wired() && db.At(k) == this && wantToLock > 0 && !locked
      requires forall i | 0 <= i < |db.list| :: db.list[i].Truthful()
      requires forall i | 0 <= i < |db.list| && i != k :: db.list[i].Settled()
      modifies db.handles`locked, db.shared
      ensures forall i | 0 <= i < |db.list| :: db.list[i].Truthful() && db.list[i].Settled()
    {
      hide Connection.Wired, Connection.InPlace, Truthful;
      Mine(k);
      var ok := TryLock(k);
      if !ok {
        UnlockLater(k);
        LockNow(k);
        RelockLater(k);
      }
    }

    /** The first part of btreeLockCarefully: take the mutex if that needs no waiting. */
    method TryLock(ghost k: nat) returns (ok: bool)
      requires db.Wired() && db.At(k) == this && wantToLock > 0 && !locked
      requires forall i | 0 <= i < |db.list| :: db.list[i].Truthful()
      modifies this`locked, pBt
      ensures forall i | 0 <= i < |db.list| :: db.list[i].Truthful()
      ensures locked == ok && forall i | 0 <= i < |db.list| && i != k :: db.list[i].locked == old(db.list[i].locked)
    {
      assert db.InPlace(k);
      ok := pBt.TryMutex(db);
      if ok {
        pBt.db := db;
        locked := true;
      }
    }

    /** Wait for the mutex and take it. */
    method LockNow(ghost k: nat)
      requires db.Wired() && db.At(k) == this && !locked
      requires forall i | 0 <= i < |db.list| :: db.list[i].Truthful()
      modifies this`locked, pBt
      ensures forall i | 0 <= i < |db.list| :: db.list[i].Truthful()
      ensures locked && forall i | 0 <= i < |db.list| && i != k :: db.list[i].locked == old(db.list[i].locked)
    {
      assert db.InPlace(k);
      Lock();
    }

    /** The first loop of btreeLockCarefully: release every later lock. */
    method UnlockLater(ghost k: nat)
      requires db.Wired() && db.At(k) == this
      requires forall i | 0 <= i < |db.list| :: db.list[i].Truthful()
      modifies db.handles`locked, db.shared
      ensures forall i | 0 <= i < |db.list| :: db.list[i].Truthful()
      ensures forall i | 0 <= i <= k :: db.list[i].locked == old(db.list[i].locked)
      ensures forall i | k < i < |db.list| :: !db.list[i].locked
    {
      ghost var list := db.list;
      ghost var j := k + 1;
      var pLater := pNext;
      while pLater != null
        invariant k < j <= |list| && pLater == db.At(j)
        invariant forall i | 0 <= i < |list| :: list[i].Truthful()
        invariant forall i | 0 <= i < |list| && (i <= k || j <= i) :: list[i].locked == old(list[i].locked)
        invariant forall i | k < i < j :: !list[i].locked
        decreases |list| - j
      {
        assert db.InPlace(j);
        if pLater.locked {
          pLater.Unlock();
        }
        pLater := pLater.pNext;
        j := j + 1;
      }
    }

    /** The second loop of btreeLockCarefully: take the wanted later locks back, in ascending order. */
    method RelockLater(ghost k: nat)
      requires db.Wired() && db.At(k) == this
      requires forall i | 0 <= i < |db.list| :: db.list[i].Truthful()
      requires forall i | 0 <= i <= k :: db.list[i].Settled()
      requires forall i | k < i < |db.list| :: !db.list[i].locked
      modifies db.handles`locked, db.shared
      ensures forall i | 0 <= i < |db.list| :: db.list[i].Truthful() && db.list[i].Settled()
    {
      ghost var list := db.list;
      ghost var j := k + 1;
      var pLater := pNext;
      while pLater != null
        invariant k < j <= |list| && pLater == db.At(j)
        invariant forall i | 0 <= i < |list| :: list[i].Truthful()
        invariant forall i | 0 <= i < j :: list[i].Settled()
        invariant forall i | j <= i < |list| :: !list[i].locked
        decreases |list| - j
      {
        assert db.InPlace(j);
        if pLater.wantToLock > 0 {
          pLater.Lock();
        }
        pLater := pLater.pNext;
        j := j + 1;
      }
    }

    /** sqlite3BtreeLeave */
    method Leave()
      requires db.AtRest() && db.Knows(this) && (sharable ==> wantToLock > 0)
      modifies db.handles`locked, db.handles`wantToLock, db.shared
      ensures db.AtRest()
      ensures wantToLock == old(wantToLock) - if sharable then 1 else 0
      ensures forall b | b in db.handles && b != this :: b.wantToLock == old(b.wantToLock)
      ensures forall b | b in db.list :: b.locked <==> old(b.locked) && !(b == this && sharable && wantToLock == 0)
    {
      if sharable {
        assert db.InPlace(db.place[this]);
        wantToLock := wantToLock - 1;
        if wantToLock == 0 {
          Unlock();
        }
      }
    }
  }

  class Connection {
    var aDb: seq<Btree?>        // the B-tree handles of the attached databases
    var noSharedCache: bool     // no attached handle is sharable

    // The sharable handles, in pNext order; the same as a set; what they share; and where in the
    // order a handle or its shared part stands.
    ghost var list: seq<Btree>
    ghost var handles: set<Btree>
    ghost var shared: set<BtShared>
    ghost var place: map<object, nat>

    constructor ()
      ensures aDb == [] && list == [] && !noSharedCache
    {
      aDb, list, noSharedCache := [], [], false;
      handles, shared, place := {}, {}, map[];
    }

    ghost function At(j: nat): Btree?
      reads this`list
    {
      if j < |list| then list[j] else null
    }

    ghost predicate InPlace(i: nat)
      requires i < |list|
      reads this`list, this`handles, this`shared, this`place
    {
      var b := list[i];
      && b.db == this && b.sharable && b in handles && b.pBt in shared
      && b in place && place[b] == i && b.pBt in place && place[b.pBt] == i
    }

    /** The sharable handles are doubly linked in ascending order of the shared B-tree's address. */
    ghost predicate Wired()
      reads this`list, this`handles, this`shared, this`place, handles`pNext, handles`pPrev
    {
      && (forall i | 0 <= i < |list| :: InPlace(i))
      && (forall i, j | 0 <= i && i + 1 == j < |list| ::
            InPlace(i) && InPlace(j) && list[i].pNext == list[j] && list[j].pPrev == list[i])
      && (|list| > 0 ==> InPlace(0) && list[0].pPrev == null)
      && (|list| > 0 ==> InPlace(|list| - 1) && list[|list| - 1].pNext == null)
      && (forall i, j | 0 <= i < j < |list| :: list[i].pBt.address < list[j].pBt.address)
    }

    /** Between calls: a handle is locked exactly when it is wanted, and then the mutex is ours. */
    ghost predicate AtRest()
      reads this`list, this`handles, this`shared, this`place, handles, shared
    {
      && Wired()
      && forall i | 0 <= i < |list| :: InPlace(i) && list[i].Truthful() && list[i].Settled()
    }

    /** b is a handle of this connection. */
    ghost predicate Knows(b: Btree)
      reads this`list, this`place
    {
      b.db == this && (b.sharable ==> b in place && place[b] < |list| && list[place[b]] == b)
    }

    /** Every attached sharable handle is in the list, and the other way round. */
    ghost predicate Attached()
      reads this`aDb, this`list, this`handles, this`place
    {
      && (forall b: Btree? | b in aDb && b != null :: Knows(b) && (b.sharable ==> b in handles))
      && (forall b | b in handles :: Knows(b) && b.sharable && b in aDb)
    }

    /** The flag noSharedCache may be relied on. */
    ghost predicate FlagRight()
      reads this`aDb, this`noSharedCache
    {
      noSharedCache ==> forall b: Btree? | b in aDb && b != null :: !b.sharable
    }

    /** How often handle b occurs among the first n attached databases. */
    ghost function Uses(n: nat, b: Btree): nat
      requires n <= |aDb|
      reads this`aDb
    {
      multiset(aDb[..n])[b]
    }

    /** All mutexes needed to look at every schema are held. */
    ghost predicate HoldsAll()
      reads this`aDb, set b: Btree? | b in aDb && b != null :: b, set b: Btree? | b in aDb && b != null :: b.pBt
    {
      forall b: Btree? | b in aDb && b != null && b.sharable :: b.wantToLock > 0 && b.pBt.holder == this
    }

    lemma UsesNone()
      ensures forall b :: Uses(0, b) == 0
    {
    }

    lemma UsesStep(n: nat, b: Btree)
      requires n < |aDb|
      ensures Uses(n + 1, b) == Uses(n, b) + if aDb[n] == b then 1 else 0
      ensures Uses(n, b) <= Uses(|aDb|, b) && (aDb[n] == b ==> Uses(n, b) < Uses(|aDb|, b))
    {
      assert aDb[..n + 1] == aDb[..n] + [aDb[n]];
      assert aDb == aDb[..n] + [aDb[n]] + aDb[n + 1..];
      assert aDb[..|aDb|] == aDb;
    }

    lemma WantedIsHeld()
      requires AtRest() && Attached()
      requires forall b | b in handles :: b.wantToLock >= Uses(|aDb|, b)
      ensures HoldsAll()
    {
      assert aDb[..|aDb|] == aDb;
      forall b: Btree? | b in aDb && b != null && b.sharable
        ensures b.wantToLock > 0 && b.pBt.holder == this
      {
        assert Knows(b) && b in handles && InPlace(place[b]) && b.Settled() && b.Truthful();
      }
    }

    /** sqlite3BtreeEnterAll */
    method EnterAll()
      requires AtRest() && Attached() && FlagRight()
      modifies this`noSharedCache, handles`locked, handles`wantToLock, shared
      ensures AtRest() && FlagRight()
      ensures forall b | b in handles :: b.wantToLock == old(b.wantToLock) + Uses(|aDb|, b)
      ensures HoldsAll()
    {
      if !noSharedCache {
        EnterAllSlow();
      }
      WantedIsHeld();
    }

    /** btreeEnterAll */
    method EnterAllSlow()
      requires AtRest() && Attached()
      modifies this`noSharedCache, handles`locked, handles`wantToLock, shared
      ensures AtRest() && FlagRight()
      ensures forall b | b in handles :: b.wantToLock == old(b.wantToLock) + Uses(|aDb|, b)
    {
      hide AtRest, Uses;
      var skipOk := true;
      UsesNone();
      for i := 0 to |aDb|
        invariant AtRest()
        invariant forall b | b in handles :: b.wantToLock == old(b.wantToLock) + Uses(i, b)
        invariant skipOk ==> forall j | 0 <= j < i && aDb[j] != null :: !aDb[j].sharable
      {
        var p := aDb[i];
        assert p in aDb;
        forall b ensures Uses(i + 1, b) == Uses(i, b) + if p == b then 1 else 0 { UsesStep(i, b); }
        if p != null && p.sharable {
          p.Enter();
          skipOk := false;
        }
      }
      noSharedCache := skipOk;
    }

    /** sqlite3BtreeLeaveAll */
    method LeaveAll()
      requires AtRest() && Attached() && FlagRight()
      requires forall b | b in handles :: b.wantToLock >= Uses(|aDb|, b)
      modifies handles`locked, handles`wantToLock, shared
      ensures AtRest()
      ensures forall b | b in handles :: b.wantToLock == old(b.wantToLock) - Uses(|aDb|, b)
    {
      if !noSharedCache {
        LeaveAllSlow();
      }
    }

    /** btreeLeaveAll */
    method LeaveAllSlow()
      requires AtRest() && Attached()
      requires forall b | b in handles :: b.wantToLock >= Uses(|aDb|, b)
      modifies handles`locked, handles`wantToLock, shared
      ensures AtRest()
      ensures forall b | b in handles :: b.wantToLock == old(b.wantToLock) - Uses(|aDb|, b)
    {
      hide AtRest, Uses;
      UsesNone();
      for i := 0 to |aDb|
        invariant AtRest()
        invariant forall b | b in handles :: b.wantToLock == old(b.wantToLock) - Uses(i, b)
      {
        var p := aDb[i];
        assert p in aDb;
        forall b
          ensures Uses(i + 1, b) == Uses(i, b) + if p == b then 1 else 0
          ensures p == b ==> Uses(i, b) < Uses(|aDb|, b)
        {
          UsesStep(i, b);
        }
        if p != null {
          p.Leave();
        }
      }
    }

    /** EnterAll and LeaveAll nested n deep: with the list of databases unchanged, every count and
        every lock is back where it was. */
    method Nested(n: nat)
      requires AtRest() && Attached() && FlagRight()
      modifies this`noSharedCache, handles`locked, handles`wantToLock, shared
      ensures AtRest() && FlagRight()
      ensures forall b | b in handles :: b.wantToLock == old(b.wantToLock)
      ensures forall b | b in handles :: b.locked == old(b.locked)
    {
      hide *;
      SettledHandles();
      if n > 0 {
        EnterAll();
        Nested(n - 1);
        LeaveAll();
        SettledHandles();
        SameLocks();
      }
    }

    /** Settled handles are locked as they are wanted. */
    twostate lemma SameLocks()
      requires forall b | b in handles :: old(allocated(b)) && old(b.Settled()) && b.Settled()
      requires forall b | b in handles :: b.wantToLock == old(b.wantToLock)
      ensures forall b | b in handles :: b.locked == old(b.locked)
    {
    }

    lemma SettledHandles()
      requires AtRest() && Attached()
      ensures forall b | b in handles :: b.Settled()
    {
      forall b | b in handles
        ensures b.Settled()
      {
        assert Knows(b) && InPlace(place[b]);
      }
    }

    /** The end of ATTACH: p, which opening has linked into the list if it is sharable, becomes the
        handle of one more database, and the flag is reset. */
    method Attach(p: Btree)
      requires Wired() && Knows(p) && (p.sharable ==> p in handles)
      requires forall b: Btree? | b in aDb && b != null :: Knows(b) && (b.sharable ==> b in handles)
      requires forall b | b in handles :: Knows(b) && b.sharable && (b in aDb || b == p)
      modifies this`aDb, this`noSharedCache
      ensures Attached() && FlagRight() && aDb == old(aDb) + [p]
    {
      aDb := aDb + [p];
      noSharedCache := false;
      assert aDb[|aDb| - 1] == p;
      forall b | b in handles
        ensures b in aDb
      {
        if b != p {
          var i :| 0 <= i < |old(aDb)| && old(aDb)[i] == b;
          assert aDb[i] == b;
        }
      }
    }
  }
}
