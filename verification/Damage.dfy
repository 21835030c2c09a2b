/** What damage to one page of a file does to what is read from the others. */
module Damage {
  import opened Numbers
  import opened Records
  import opened Payloads
  import opened Cells
  import opened Pages
  import opened Walker
  import opened Extraction
  import opened RepairKit

  /** The files differ in page p only. */
  ghost predicate AlikeBut(db: Db, db': Db, p: int) {
    && db'.pageSize == db.pageSize && db'.usable == db.usable && |db'.pages| == |db.pages|
    && forall x :: x != p ==> Acquire(db', x) == Acquire(db, x)
  }

  lemma {:induction false} ChainAlike(db: Db, db': Db, p: int, next: int, need: nat)
    requires ValidDb(db) && ValidDb(db') && AlikeBut(db, db', p) && p !in ReadChain(db, next, need).acquired
    ensures ReadChain(db', next, need) == ReadChain(db, next, need)
    decreases need
  {
    hide *;
    SameSizes(db, db', p);
    if !IsPageno(db, next) || need == 0 || Acquire(db, next).Unreadable? {
      EndAlike(db, db', p, next, need);
    } else {
      var k := Least(need, db.usable - 4);
      LeastTakes(db, next, need);
      var data := Acquire(db, next).data;
      NextLink(db, next, need);
      LinkAsks(next, data[4..4 + k], ReadChain(db, PagenoAt(data, 0), need - k), p);
      SamePage(db, db', p, next);
      NextLink(db', next, need);
      ChainAlike(db, db', p, PagenoAt(data, 0), need - k);
    }
  }

  lemma LeastTakes(db: Db, next: int, need: nat)
    requires ValidDb(db) && Acquire(db, next).Page? && need > 0
    ensures var k := Least(need, db.usable - 4); 0 < k <= need && 4 + k <= |Acquire(db, next).data|
  {
  }

  /** A chain that takes nothing from its first page, if it has one. */
  lemma EndAlike(db: Db, db': Db, p: int, next: int, need: nat)
    requires ValidDb(db) && ValidDb(db') && AlikeBut(db, db', p) && p !in ReadChain(db, next, need).acquired
    requires !IsPageno(db, next) || need == 0 || Acquire(db, next).Unreadable?
    ensures ReadChain(db', next, need) == ReadChain(db, next, need)
  {
    if IsPageno(db, next) {
      ChainStops(db, next, need);
      SamePage(db, db', p, next);
      ChainStops(db', next, need);
    } else {
      ChainEnds(db, next, need);
      ChainEnds(db', next, need);
    }
  }

  lemma SameSizes(db: Db, db': Db, p: int)
    requires AlikeBut(db, db', p)
    ensures db'.pageSize == db.pageSize && db'.usable == db.usable && |db'.pages| == |db.pages|
  {
  }

  lemma SamePage(db: Db, db': Db, p: int, x: int)
    requires AlikeBut(db, db', p) && x != p
    ensures Acquire(db', x) == Acquire(db, x)
  {
  }

  /** A chain that asks for a page and takes nothing from it. */
  lemma ChainStops(db: Db, next: int, need: nat)
    requires ValidDb(db) && IsPageno(db, next) && (need == 0 || Acquire(db, next).Unreadable?)
    ensures ReadChain(db, next, need) == Chain([], [next]) && next in ReadChain(db, next, need).acquired
  {
    assert next in [next];
  }

  lemma LinkAsks(next: int, chunk: seq<byte>, rest: Chain, p: int)
    requires p !in Link(next, chunk, rest).acquired
    ensures p != next && p !in rest.acquired
  {
    assert Link(next, chunk, rest).acquired[0] == next;
    assert forall x | x in rest.acquired :: x in [next] + rest.acquired;
  }

  lemma PayloadAlike(db: Db, db': Db, p: int, page: seq<byte>, offset: nat, size: int)
    requires ValidDb(db) && ValidDb(db') && AlikeBut(db, db', p) && |page| == db.pageSize
    requires var r := ReadPayload(db, page, offset, size); r.Payload? ==> p !in r.acquired
    ensures ReadPayload(db', page, offset, size) == ReadPayload(db, page, offset, size)
  {
    SameSizes(db, db', p);
    if size > 0 {
      LocalSizeBounds(size, db.usable);
      hide LocalSize, AlikeBut, ReadParts;
      PartsAlike(db, db', p, page, offset, size, LocalSize(size, db.usable));
    }
  }

  lemma PartsAlike(db: Db, db': Db, p: int, page: seq<byte>, offset: nat, size: nat, local: nat)
    requires ValidDb(db) && ValidDb(db') && AlikeBut(db, db', p) && |page| == db.pageSize && local <= size
    requires var r := ReadParts(db, page, offset, size, local); r.Payload? ==> p !in r.acquired
    ensures |page| == db'.pageSize
    ensures ReadParts(db', page, offset, size, local) == ReadParts(db, page, offset, size, local)
  {
    SameSizes(db, db', p);
    hide ReadChain, PagenoAt, AlikeBut, ValidDb;
    if offset + local + 4 <= |page| && local < size {
      ChainAlike(db, db', p, PagenoAt(page, offset + local), size - local);
    }
  }

  lemma CellAlike(db: Db, db': Db, p: int, page: seq<byte>, offset: int)
    requires ValidDb(db) && ValidDb(db') && AlikeBut(db, db', p) && |page| == db.pageSize
    requires p !in DecodeCell(db, page, offset).acquired
    ensures DecodeCell(db', page, offset) == DecodeCell(db, page, offset)
  {
    hide ReadPayload, ValidDb, AlikeBut, DecodeVarint, DecodeRecord;
    if offset >= 0 && DecodeVarint(page, offset).Parsed? {
      var size := DecodeVarint(page, offset);
      var at := offset + size.length;
      if DecodeVarint(page, at).Parsed? && size.value <= MAX_PAYLOAD && DecodeVarint(page, at).value >= 0 {
        PayloadAlike(db, db', p, page, at + DecodeVarint(page, at).length, size.value);
      }
    }
  }

  /** No overflow chain that starts on the page leads to page p. */
  ghost predicate Avoids(v: PageView, p: int) {
    v.LeafTable? ==> forall c | c in v.cells :: p !in c.acquired
  }

  /** Damage to a page changes what is found on another one only through an overflow chain. */
  lemma ViewAlike(db: Db, db': Db, p: int, pageno: int)
    requires ValidDb(db) && ValidDb(db') && AlikeBut(db, db', p) && pageno != p && Avoids(View(db, pageno), p)
    ensures View(db', pageno) == View(db, pageno)
  {
    assert Acquire(db', pageno) == Acquire(db, pageno);
    assert HeadOf(db', pageno) == HeadOf(db, pageno);
    if HeadOf(db, pageno).Head? && HeadOf(db, pageno).kind == LEAF_TABLE {
      var data, pointers := Acquire(db, pageno).data, HeadOf(db, pageno).pointers;
      hide HeadOf, DecodeCell, ValidDb, AlikeBut;
      forall i | 0 <= i < |pointers| ensures CellsAt(db', data, pointers)[i] == CellsAt(db, data, pointers)[i] {
        assert CellsAt(db, data, pointers)[i] in View(db, pageno).cells;
        CellAlike(db, db', p, data, pointers[i]);
      }
      assert CellsAt(db', data, pointers) == CellsAt(db, data, pointers);
    }
  }

  lemma ViewsAlike(db: Db, db': Db, p: int)
    requires ValidDb(db) && ValidDb(db') && AlikeBut(db, db', p) && IsPageno(db, p)
    requires forall n | 1 <= n <= |db.pages| && n != p :: Avoids(View(db, n), p)
    ensures Views(db') == Views(db)[p - 1 := View(db', p)]
  {
    hide View, AlikeBut, Avoids, ValidDb;
    SameSizes(db, db', p);
    forall i | 0 <= i < |db.pages| && i != p - 1 ensures Views(db')[i] == Views(db)[i] {
      ViewAlike(db, db', p, i + 1);
      assert ViewAt(Views(db'), i + 1) == ViewAt(Views(db), i + 1);
    }
    assert ViewAt(Views(db'), p) == View(db', p);
  }

  /** From bytes to rows: when a page of a file that no overflow chain leads to becomes unusable, exactly
      the rows at and below it are lost. */
  lemma FileDamageIsLocal(db: Db, db': Db, t: Tree, p: int, s: State, fuel: nat)
    requires ValidDb(db) && ValidDb(db') && AlikeBut(db, db', p) && IsPageno(db, p) && Dud(View(db', p))
    requires forall n | 1 <= n <= |db.pages| && n != p :: Avoids(View(db, n), p)
    requires Unfolds(Views(db), t) && NoneChecking(s, Nodes(t)) && |s.status| == |db.pages| && fuel >= Depth(t)
    ensures var w := Visit(Views(db'), {}, t.pageno, s, fuel);
            w.Done? && w.s.log == s.log + RowsWithout(Views(db), t, p)
  {
    ViewsAlike(db, db', p);
    hide *;
    SizeOfViews(db, p);
    DamageIsLocal(Views(db), t, p, View(db', p), s, fuel);
  }

  lemma SizeOfViews(db: Db, p: int)
    requires ValidDb(db) && IsPageno(db, p)
    ensures 1 <= p <= |Views(db)| == |db.pages|
  {
  }
}
