/** Payloads of table leaf cells: the part on the page and the overflow chain, sections 1.6 and 1.7 of
    the SQLite "Database File Format". */
module Payloads {
  import opened Numbers

  datatype Page = Page(data: seq<byte>) | Unreadable

  /** A database file, decrypted: the pages that can be read.  Page n is pages[n - 1]. */
  datatype Db = Db(pageSize: nat, usable: nat, pages: seq<Page>)

  predicate ValidDb(db: Db) {
    && 480 <= db.usable <= db.pageSize
    && forall i | 0 <= i < |db.pages| :: db.pages[i].Page? ==> |db.pages[i].data| == db.pageSize
  }

  /** sqliterkPagerIsPagenoValid */
  predicate IsPageno(db: Db, pageno: int) {
    1 <= pageno <= |db.pages|
  }

  /** Page acquisition, as a lookup. */
  function Acquire(db: Db, pageno: int): (p: Page)
    ensures ValidDb(db) && p.Page? ==> |p.data| == db.pageSize
  {
    if IsPageno(db, pageno) then db.pages[pageno - 1] else Unreadable
  }

  // ---------- how much of a payload is on the page ----------

  function MaxLeaf(usable: nat): int { usable - 35 }

  function MinLocal(usable: nat): int
    requires usable >= 12
  {
    (usable - 12) * 32 / 255 - 23
  }

  /** The least part, and what is left over when the rest is cut into overflow pages. */
  function Surplus(payloadSize: nat, usable: nat): (n: int)
    requires usable >= 480
  {
    MinLocal(usable) + (payloadSize - MinLocal(usable)) % (usable - 4)
  }

  function LocalSize(payloadSize: nat, usable: nat): (n: int)
    requires usable >= 480
  {
    if payloadSize <= MaxLeaf(usable) then payloadSize
    else if Surplus(payloadSize, usable) <= MaxLeaf(usable) then Surplus(payloadSize, usable)
    else MinLocal(usable)
  }

  /** The part on the page lies between the file format's bounds. */
  lemma LocalSizeBounds(payloadSize: nat, usable: nat)
    requires usable >= 480
    ensures var n, m := LocalSize(payloadSize, usable), MinLocal(usable);
            && 0 < m < MaxLeaf(usable)
            && (if payloadSize < m then payloadSize else m) <= n <= MaxLeaf(usable)
            && n <= payloadSize
            && (n == payloadSize <==> payloadSize <= MaxLeaf(usable))
  {
    var m, c := MinLocal(usable), usable - 4;
    if payloadSize > MaxLeaf(usable) {
      RestOfDivision(payloadSize - m, c);
    }
  }

  /** When the payload overflows and the surplus fits on the page, it is what is put there, and the
      rest fills whole overflow pages. */
  lemma SurplusLeavesWholePages(payloadSize: nat, usable: nat)
    requires usable >= 480 && payloadSize > MaxLeaf(usable) && Surplus(payloadSize, usable) <= MaxLeaf(usable)
    ensures LocalSize(payloadSize, usable) == Surplus(payloadSize, usable) < payloadSize
    ensures (payloadSize - LocalSize(payloadSize, usable)) % (usable - 4) == 0
  {
    RestOfDivision(payloadSize - MinLocal(usable), usable - 4);
  }

  /** With k bytes of the payload on the page the rest fills whole overflow pages. */
  predicate FillsPages(payloadSize: nat, k: int, usable: nat)
    requires usable >= 480
  {
    (payloadSize - k) % (usable - 4) == 0
  }

  /** The rule of section 1.6: all of a payload that fits; otherwise the least part, within the bounds,
      that leaves whole overflow pages; or the lower bound, if there is none. */
  ghost predicate IsLocal(payloadSize: nat, usable: nat, k: int)
    requires usable >= 480
  {
    if payloadSize <= usable - 35 then k == payloadSize
    else
      var least := (usable - 12) * 32 / 255 - 23;
      if exists j | least <= j <= usable - 35 :: FillsPages(payloadSize, j, usable) then
        && least <= k <= usable - 35 && FillsPages(payloadSize, k, usable)
        && forall j | least <= j < k :: !FillsPages(payloadSize, j, usable)
      else k == least
  }

  /** The code follows the rule, which leaves no choice. */
  lemma LocalSizeIs(payloadSize: nat, usable: nat, k: int)
    requires usable >= 480
    ensures IsLocal(payloadSize, usable, k) <==> k == LocalSize(payloadSize, usable)
  {
    var m, c := MinLocal(usable), usable - 4;
    if payloadSize > MaxLeaf(usable) {
      var s := Surplus(payloadSize, usable);
      RestOfDivision(payloadSize - m, c);
      assert payloadSize - s == payloadSize - m - (payloadSize - m) % c;
      assert FillsPages(payloadSize, s, usable);
      forall j | m <= j < s ensures !FillsPages(payloadSize, j, usable) {
        LessThanRest(payloadSize - m, c, j - m);
      }
    }
  }

  /** Taking less than the remainder away leaves no multiple. */
  lemma LessThanRest(x: nat, c: nat, d: nat)
    requires c > 0 && d < x % c
    ensures (x - d) % c == x % c - d
  {
    var q, r := x / c, x % c;
    var y := x - d;
    assert y == q * c + (r - d);
    var q', r' := y / c, y % c;
    assert y == q' * c + r';
    if q' < q { Product(q', q, c); } else if q < q' { Product(q, q', c); }
  }

  /** Taking the remainder away leaves a multiple. */
  lemma RestOfDivision(x: nat, c: nat)
    requires c > 0
    ensures 0 <= x % c <= x && (x - x % c) % c == 0
  {
    var q, y := x / c, x - x % c;
    assert y == q * c;
    var q' := y / c;
    assert y == q' * c + y % c;
    if q' < q { Product(q', q, c); } else if q < q' { Product(q, q', c); }
  }

  lemma Product(a: int, b: int, c: nat)
    requires a < b
    ensures a * c + c <= b * c
  {
    assert (b - a) * c >= c by { if b - a > 1 { assert (b - a - 1) * c >= 0; } }
  }

  // ---------- reading an overflow chain ----------

  /** What came from the overflow pages, and the pages that were asked for. */
  datatype Chain = Chain(bytes: seq<byte>, acquired: seq<int>)

  /** A page number: four bytes, read as a signed integer. */
  function PagenoAt(data: seq<byte>, offset: nat): int
    requires offset + 4 <= |data|
  {
    ParseInt(data, offset, 4).value
  }

  function Least(a: int, b: int): (m: int)
    ensures m <= a && m <= b && (m == a || m == b)
  {
    if a < b then a else b
  }

  /** One page in front of what follows it. */
  function Link(pageno: int, chunk: seq<byte>, rest: Chain): Chain {
    Chain(chunk + rest.bytes, [pageno] + rest.acquired)
  }

  /** The chain from page next on, for need more bytes.  A chain may be broken, or go in circles. */
  function ReadChain(db: Db, next: int, need: nat): (c: Chain)
    requires ValidDb(db)
    ensures |c.bytes| <= need
    decreases need
  {
    if !IsPageno(db, next) then Chain([], [])
    else
      match Acquire(db, next)
      case Unreadable => Chain([], [next])
      case Page(data) =>
        if need == 0 then Chain([], [next])
        else
          var size := Least(need, db.usable - 4);
          Link(next, data[4..4 + size], ReadChain(db, PagenoAt(data, 0), need - size))
  }

  /** The number of overflow pages that need bytes fill. */
  function PagesFor(need: nat, perPage: nat): nat
    requires perPage > 0
    decreases need
  {
    if need == 0 then 0 else 1 + PagesFor(need - Least(need, perPage), perPage)
  }

  lemma {:induction false} PagesForBounds(need: nat, perPage: nat)
    requires perPage > 0
    ensures need <= PagesFor(need, perPage) * perPage < need + perPage
    decreases need
  {
    if need > 0 {
      var rest := need - Least(need, perPage);
      PagesForBounds(rest, perPage);
      OneMore(PagesFor(rest, perPage), perPage);
      if need <= perPage { assert PagesFor(rest, perPage) * perPage == 0; }
    }
  }

  lemma OneMore(n: nat, c: nat)
    ensures (1 + n) * c == n * c + c
  {
  }

  /** Even on a chain that goes in circles, at most one page more is asked for than the bytes fill. */
  lemma {:induction false} ChainIsShort(db: Db, next: int, need: nat)
    requires ValidDb(db)
    ensures |ReadChain(db, next, need).acquired| <= PagesFor(need, db.usable - 4) + 1
    decreases need
  {
    hide PagenoAt;
    if IsPageno(db, next) && Acquire(db, next).Page? && need > 0 {
      ChainIsShort(db, PagenoAt(Acquire(db, next).data, 0), need - Least(need, db.usable - 4));
    }
  }

  /** A buffer after bytes have been put in it from a position on. */
  function Overwritten(data: seq<byte>, from: nat, bytes: seq<byte>): (r: seq<byte>)
    requires from + |bytes| <= |data|
    ensures |r| == |data|
  {
    data[..from] + bytes + data[from + |bytes|..]
  }

  /** memcpy into the buffer. */
  method CopyBytes(buffer: array<byte>, at: nat, bytes: seq<byte>)
    requires at + |bytes| <= buffer.Length
    modifies buffer
    ensures buffer[..] == Overwritten(old(buffer[..]), at, bytes)
  {
    forall i | 0 <= i < |bytes| { buffer[at + i] := bytes[i]; }
  }

  /** The buffer and the list of pages when a chain has been read. */
  datatype Reading = Reading(data: seq<byte>, acquired: seq<int>)

  /** The same when the chain c is still to be read. */
  function Filled(data: seq<byte>, at: nat, acquired: seq<int>, c: Chain): Reading
    requires at + |c.bytes| <= |data|
  {
    Reading(Overwritten(data, at, c.bytes), acquired + c.acquired)
  }

  lemma FilledLink(data: seq<byte>, at: nat, acquired: seq<int>, pageno: int, chunk: seq<byte>, rest: Chain)
    requires at + |chunk| + |rest.bytes| <= |data|
    ensures Filled(data, at, acquired, Link(pageno, chunk, rest)) ==
            Filled(Overwritten(data, at, chunk), at + |chunk|, acquired + [pageno], rest)
  {
    assert acquired + ([pageno] + rest.acquired) == acquired + [pageno] + rest.acquired;
    OverwrittenTwice(data, at, chunk, rest.bytes);
  }

  lemma OverwrittenTwice(data: seq<byte>, at: nat, a: seq<byte>, b: seq<byte>)
    requires at + |a| + |b| <= |data|
    ensures Overwritten(data, at, a + b) == Overwritten(Overwritten(data, at, a), at + |a|, b)
  {
    var next := Overwritten(data, at, a);
    assert next[..at + |a|] == data[..at] + a;
    assert next[at + |a| + |b|..] == data[at + |a| + |b|..];
  }

  lemma FilledEnd(data: seq<byte>, at: nat, acquired: seq<int>)
    requires at <= |data|
    ensures Filled(data, at, acquired, Chain([], [])) == Reading(data, acquired)
  {
    assert Overwritten(data, at, []) == data;
    assert acquired + [] == acquired;
  }

  lemma FilledStart(data: seq<byte>, at: nat, c: Chain)
    requires at + |c.bytes| <= |data|
    ensures Filled(data, at, [], c) == Reading(Overwritten(data, at, c.bytes), c.acquired)
  {
    assert [] + c.acquired == c.acquired;
  }

  lemma ChainEnds(db: Db, next: int, need: nat)
    requires ValidDb(db) && !IsPageno(db, next)
    ensures ReadChain(db, next, need) == Chain([], [])
  {
  }

  /** What one round of the overflow loop takes from a page whose number is in range; the round is
      the last one when it takes nothing. */
  method ReadLink(db: Db, pageno: int, need: nat) returns (chunk: seq<byte>, next: int)
    requires ValidDb(db) && IsPageno(db, pageno)
    ensures |chunk| <= need
    ensures ReadChain(db, pageno, need) == Link(pageno, chunk, AfterLink(db, chunk, next, need))
  {
    chunk, next := [], 0;
    var page := Acquire(db, pageno);
    if page.Page? && need > 0 {
      var overflowSize := need;
      var maxSize := db.usable - 4;
      if overflowSize > maxSize { overflowSize := maxSize; }
      chunk, next := page.data[4..4 + overflowSize], PagenoAt(page.data, 0);
      assert |chunk| == overflowSize == Least(need, db.usable - 4);
    }
    hide PagenoAt;
  }

  function AfterLink(db: Db, chunk: seq<byte>, next: int, need: nat): (rest: Chain)
    requires ValidDb(db) && |chunk| <= need
    ensures |rest.bytes| <= need - |chunk|
  {
    if chunk == [] then Chain([], []) else ReadChain(db, next, need - |chunk|)
  }

  lemma AfterLinkIs(db: Db, chunk: seq<byte>, next: int, need: nat)
    requires ValidDb(db) && |chunk| <= need
    ensures AfterLink(db, chunk, next, need) ==
            if |chunk| == 0 then Chain([], []) else ReadChain(db, next, need - |chunk|)
  {
  }

  /** One round of the overflow loop: it takes size bytes, and what is to be read stays the same. */
  method CopyLink(db: Db, pageno: int, payloadData: array<byte>, at: nat, ghost acquired: seq<int>)
      returns (size: nat, next: int)
    requires ValidDb(db) && IsPageno(db, pageno) && at <= payloadData.Length
    modifies payloadData
    ensures at + size <= payloadData.Length
    ensures Filled(payloadData[..], at + size, acquired + [pageno],
                   if size == 0 then Chain([], []) else ReadChain(db, next, payloadData.Length - at - size)) ==
            Filled(old(payloadData[..]), at, acquired, ReadChain(db, pageno, payloadData.Length - at))
  {
    hide *;
    ghost var data := payloadData[..];
    var chunk;
    chunk, next := ReadLink(db, pageno, payloadData.Length - at);
    size := |chunk|;
    FilledLink(data, at, acquired, pageno, chunk, AfterLink(db, chunk, next, |data| - at));
    AfterLinkIs(db, chunk, next, |data| - at);
    CopyBytes(payloadData, at, chunk);
  }

  /** The overflow loop of sqliterkBtreeParsePayload: it fills the buffer from payloadPointer on. */
  method CopyChain(db: Db, first: int, payloadData: array<byte>, from: nat) returns (acquired: seq<int>)
    requires ValidDb(db) && from <= payloadData.Length
    modifies payloadData
    ensures var c := ReadChain(db, first, payloadData.Length - from);
            acquired == c.acquired && payloadData[..] == Overwritten(old(payloadData[..]), from, c.bytes)
  {
    hide *;
    var overflowPageno, payloadPointer := first, from;
    acquired := [];
    FilledStart(payloadData[..], from, ReadChain(db, first, payloadData.Length - from));
    while IsPageno(db, overflowPageno)
      invariant payloadPointer <= payloadData.Length
      invariant Filled(payloadData[..], payloadPointer, acquired,
                       ReadChain(db, overflowPageno, payloadData.Length - payloadPointer)) ==
                Filled(old(payloadData[..]), from, [], ReadChain(db, first, payloadData.Length - from))
      decreases payloadData.Length - payloadPointer
    {
      var size, next := CopyLink(db, overflowPageno, payloadData, payloadPointer, acquired);
      acquired, payloadPointer, overflowPageno := acquired + [overflowPageno], payloadPointer + size, next;
      if size == 0 {
        FilledEnd(payloadData[..], payloadPointer, acquired);
        return;
      }
    }
    ChainEnds(db, overflowPageno, payloadData.Length - payloadPointer);
    FilledEnd(payloadData[..], payloadPointer, acquired);
  }

  // ---------- a whole payload ----------

  datatype Payload =
    | Payload(bytes: seq<byte>, acquired: seq<int>)
    | BadPayload(misuse: bool)   // misuse, or a damaged page
    | Beyond                     // the overflow page number is read past the end of the page

  /** The payload of a cell whose payload starts at offset of a page. */
  function ReadPayload(db: Db, page: seq<byte>, offset: nat, payloadSize: int): Payload
    requires ValidDb(db) && |page| == db.pageSize
  {
    if payloadSize <= 0 then BadPayload(true)
    else
      LocalSizeBounds(payloadSize, db.usable);
      ReadParts(db, page, offset, payloadSize, LocalSize(payloadSize, db.usable))
  }

  /** The same, when local bytes of it are on the page. */
  function ReadParts(db: Db, page: seq<byte>, offset: nat, payloadSize: nat, local: nat): Payload
    requires ValidDb(db) && |page| == db.pageSize && local <= payloadSize
  {
    if offset + local > |page| then BadPayload(false)
    else if local == payloadSize then Payload(page[offset..offset + local], [])
    else if offset + local + 4 > |page| then Beyond
    else
      Assemble(page[offset..offset + local],
               ReadChain(db, PagenoAt(page, offset + local), payloadSize - local), payloadSize)
  }

  function Zeros(n: nat): (s: seq<byte>)
    ensures |s| == n && forall i | 0 <= i < n :: s[i] == 0
  {
    seq(n, _ => 0)
  }

  /** sqliterkOSMalloc, which clears the memory. */
  method Calloc(n: nat) returns (a: array<byte>)
    ensures fresh(a) && a.Length == n && a[..] == Zeros(n)
  {
    a := new byte[n](_ => 0);
  }

  /** The local part, what the chain gave, and zeros where it gave too little. */
  function Assemble(local: seq<byte>, c: Chain, payloadSize: nat): Payload
    requires |local| + |c.bytes| <= payloadSize
  {
    Payload(local + c.bytes + Zeros(payloadSize - |local| - |c.bytes|), c.acquired)
  }

  lemma AssembleExact(payload: seq<byte>, local: nat, chain: seq<int>)
    requires local <= |payload|
    ensures Assemble(payload[..local], Chain(payload[local..], chain), |payload|) == Payload(payload, chain)
  {
    assert payload == payload[..local] + payload[local..];
  }

  /** How sqliterkBtreeParsePayload computes the size of the local part. */
  method LocalPart(payloadSize: nat, usable: nat) returns (local: int)
    requires usable >= 480
    ensures local == LocalSize(payloadSize, usable)
  {
    if payloadSize <= MaxLeaf(usable) {
      local := payloadSize;
    } else {
      var maxPageLocal, minPageLocal := MaxLeaf(usable), MinLocal(usable);
      var surplus := minPageLocal + (payloadSize - minPageLocal) % (usable - 4);
      if surplus <= maxPageLocal { local := surplus; } else { local := minPageLocal; }
    }
  }

  /** The payload part of sqliterkBtreeParsePayload. */
  method ParsePayload(db: Db, page: seq<byte>, offset: nat, payloadSize: int) returns (r: Payload)
    requires ValidDb(db) && |page| == db.pageSize
    ensures r == ReadPayload(db, page, offset, payloadSize)
  {
    if payloadSize <= 0 { return BadPayload(true); }
    LocalSizeBounds(payloadSize, db.usable);
    var local := LocalPart(payloadSize, db.usable);
    r := ParseParts(db, page, offset, payloadSize, local);
  }

  /** Filling the buffer, when local bytes of the payload are on the page. */
  method ParseParts(db: Db, page: seq<byte>, offset: nat, payloadSize: nat, local: nat) returns (r: Payload)
    requires ValidDb(db) && |page| == db.pageSize && local <= payloadSize
    ensures r == ReadParts(db, page, offset, payloadSize, local)
  {
    if offset + local > db.pageSize { return BadPayload(false); }
    var here := page[offset..offset + local];
    if local == payloadSize {
      var payloadData := FillLocal(here, payloadSize);
      hide Overwritten, Zeros;
      OverwrittenAll(Zeros(payloadSize), here);
      return Payload(payloadData[..], []);
    }
    if offset + local + 4 > db.pageSize { return Beyond; }
    var first := PagenoAt(page, offset + local);
    hide Overwritten, Zeros, Assemble, ReadChain, ValidDb, PagenoAt;
    r := FillAll(db, here, first, payloadSize);
  }

  /** The buffer, with the local part in it. */
  method FillLocal(here: seq<byte>, payloadSize: nat) returns (payloadData: array<byte>)
    requires |here| <= payloadSize
    ensures fresh(payloadData) && payloadData.Length == payloadSize
    ensures payloadData[..] == Overwritten(Zeros(payloadSize), 0, here)
  {
    hide *;
    payloadData := Calloc(payloadSize);
    CopyBytes(payloadData, 0, here);
  }

  method FillAll(db: Db, here: seq<byte>, first: int, payloadSize: nat) returns (r: Payload)
    requires ValidDb(db) && |here| <= payloadSize
    ensures r == Assemble(here, ReadChain(db, first, payloadSize - |here|), payloadSize)
  {
    hide *;
    var payloadData := FillLocal(here, payloadSize);
    Assembled(here, ReadChain(db, first, payloadSize - |here|), payloadSize);
    var acquired := CopyChain(db, first, payloadData, |here|);
    r := Payload(payloadData[..], acquired);
  }

  lemma OverwrittenAll(data: seq<byte>, bytes: seq<byte>)
    requires |data| == |bytes|
    ensures Overwritten(data, 0, bytes) == bytes
  {
  }

  lemma Assembled(local: seq<byte>, c: Chain, payloadSize: nat)
    requires |local| + |c.bytes| <= payloadSize
    ensures Assemble(local, c, payloadSize) ==
            Payload(Overwritten(Overwritten(Zeros(payloadSize), 0, local), |local|, c.bytes), c.acquired)
  {
    var filled := Overwritten(Zeros(payloadSize), 0, local);
    assert filled[..|local|] == local;
    assert filled[|local| + |c.bytes|..] == Zeros(payloadSize - |local| - |c.bytes|);
  }

  // ---------- storing a payload, and reading it back ----------

  /** From page next on, the listed pages hold rest, as the file format has it: a page number, 0 for
      the last page, and then as much of the payload as fits. */
  predicate ChainHolds(db: Db, next: int, rest: seq<byte>, chain: seq<int>)
    requires ValidDb(db)
    decreases |rest|
  {
    if rest == [] then next == 0 && chain == []
    else
      && chain != [] && next == chain[0] && Acquire(db, next).Page?
      && var data, k := Acquire(db, next).data, Least(|rest|, db.usable - 4);
         data[4..4 + k] == rest[..k] && ChainHolds(db, PagenoAt(data, 0), rest[k..], chain[1..])
  }

  /** The payload is stored in a cell at offset of a page, with its overflow in the listed pages. */
  ghost predicate Stored(db: Db, page: seq<byte>, offset: nat, payload: seq<byte>, chain: seq<int>)
    requires ValidDb(db) && |page| == db.pageSize
  {
    exists local: nat | local <= |payload| && IsLocal(|payload|, db.usable, local) ::
      StoredParts(db, page, offset, payload, local, chain)
  }

  predicate StoredParts(db: Db, page: seq<byte>, offset: nat, payload: seq<byte>, local: nat, chain: seq<int>)
    requires ValidDb(db) && |page| == db.pageSize && local <= |payload|
  {
    && offset + local <= |page| && page[offset..offset + local] == payload[..local]
    && if local == |payload| then chain == []
       else offset + local + 4 <= |page|
            && ChainHolds(db, PagenoAt(page, offset + local), payload[local..], chain)
  }

  /** The first page of a stored chain holds what is read first, and the others the rest. */
  lemma HeldLink(db: Db, next: int, rest: seq<byte>, chain: seq<int>)
    requires ValidDb(db) && ChainHolds(db, next, rest, chain) && rest != []
    ensures chain != [] && next == chain[0] && Acquire(db, next).Page?
    ensures var data, k := Acquire(db, next).data, Least(|rest|, db.usable - 4);
            && 0 < k <= |rest| && 4 + k <= |data| && data[4..4 + k] == rest[..k]
            && ChainHolds(db, PagenoAt(data, 0), rest[k..], chain[1..])
  {
  }

  lemma HeldEnd(db: Db, next: int, chain: seq<int>)
    requires ValidDb(db) && ChainHolds(db, next, [], chain)
    ensures ReadChain(db, next, 0) == Chain([], chain)
  {
    ChainEnds(db, next, 0);
  }

  lemma {:induction false} ChainRoundTrip(db: Db, next: int, rest: seq<byte>, chain: seq<int>)
    requires ValidDb(db) && ChainHolds(db, next, rest, chain)
    ensures ReadChain(db, next, |rest|) == Chain(rest, chain)
    decreases |rest|
  {
    hide *;
    if rest == [] {
      HeldEnd(db, next, chain);
    } else {
      HeldLink(db, next, rest, chain);
      var data, k := Acquire(db, next).data, Least(|rest|, db.usable - 4);
      ChainRoundTrip(db, PagenoAt(data, 0), rest[k..], chain[1..]);
      NextLink(db, next, |rest|);
      LinkIs(next, rest[..k], rest[k..], chain[1..]);
      Whole(rest, k, chain);
    }
  }

  lemma Whole(rest: seq<byte>, k: nat, chain: seq<int>)
    requires k <= |rest| && chain != []
    ensures rest[..k] + rest[k..] == rest && [chain[0]] + chain[1..] == chain
  {
  }

  lemma NextLink(db: Db, next: int, need: nat)
    requires ValidDb(db) && Acquire(db, next).Page? && need > 0
    ensures var data, k := Acquire(db, next).data, Least(need, db.usable - 4);
            ReadChain(db, next, need) == Link(next, data[4..4 + k], ReadChain(db, PagenoAt(data, 0), need - k))
  {
  }

  lemma LinkIs(pageno: int, chunk: seq<byte>, bytes: seq<byte>, acquired: seq<int>)
    ensures Link(pageno, chunk, Chain(bytes, acquired)) == Chain(chunk + bytes, [pageno] + acquired)
  {
  }

  /** A stored payload is read back byte for byte, and exactly its overflow pages are asked for. */
  lemma PayloadRoundTrip(db: Db, page: seq<byte>, offset: nat, payload: seq<byte>, chain: seq<int>)
    requires ValidDb(db) && |page| == db.pageSize
    requires |payload| > 0 && Stored(db, page, offset, payload, chain)
    ensures ReadPayload(db, page, offset, |payload|) == Payload(payload, chain)
  {
    var local: nat :| local <= |payload| && IsLocal(|payload|, db.usable, local) &&
                      StoredParts(db, page, offset, payload, local, chain);
    LocalSizeIs(|payload|, db.usable, local);
    PartsRoundTrip(db, page, offset, payload, local, chain);
  }

  lemma PartsRoundTrip(db: Db, page: seq<byte>, offset: nat, payload: seq<byte>, local: nat, chain: seq<int>)
    requires ValidDb(db) && |page| == db.pageSize && local <= |payload|
    requires StoredParts(db, page, offset, payload, local, chain)
    ensures ReadParts(db, page, offset, |payload|, local) == Payload(payload, chain)
  {
    hide ReadChain, ChainHolds, PagenoAt, Assemble, ValidDb;
    if local < |payload| {
      ChainRoundTrip(db, PagenoAt(page, offset + local), payload[local..], chain);
      AssembleExact(payload, local, chain);
    } else {
      assert payload[..local] == payload;
    }
  }

  // ---------- a chain that breaks off ----------

  /** From page next on, the listed pages, all of them full, hold the bytes, and the last one leads to no
      page of the file. */
  predicate ChainStops(db: Db, next: int, held: seq<byte>, chain: seq<int>)
    requires ValidDb(db)
    decreases |held|
  {
    if held == [] then !IsPageno(db, next) && chain == []
    else
      && chain != [] && next == chain[0] && Acquire(db, next).Page? && |held| >= db.usable - 4
      && var data, k := Acquire(db, next).data, db.usable - 4;
         data[4..4 + k] == held[..k] && ChainStops(db, PagenoAt(data, 0), held[k..], chain[1..])
  }

  lemma StopsLink(db: Db, next: int, held: seq<byte>, chain: seq<int>)
    requires ValidDb(db) && ChainStops(db, next, held, chain) && held != []
    ensures chain != [] && next == chain[0] && Acquire(db, next).Page? && 0 < db.usable - 4 <= |held|
    ensures var data, k := Acquire(db, next).data, db.usable - 4;
            4 + k <= |data| && data[4..4 + k] == held[..k] && ChainStops(db, PagenoAt(data, 0), held[k..], chain[1..])
  {
  }

  lemma StopsHere(db: Db, next: int, chain: seq<int>, need: nat)
    requires ValidDb(db) && ChainStops(db, next, [], chain)
    ensures ReadChain(db, next, need) == Chain([], chain)
  {
    ChainEnds(db, next, need);
  }

  lemma {:induction false} StopsAt(db: Db, next: int, held: seq<byte>, chain: seq<int>, need: nat)
    requires ValidDb(db) && ChainStops(db, next, held, chain) && need >= |held|
    ensures ReadChain(db, next, need) == Chain(held, chain)
    decreases |held|
  {
    hide *;
    if held == [] {
      StopsHere(db, next, chain, need);
    } else {
      StopsLink(db, next, held, chain);
      var data, k := Acquire(db, next).data, db.usable - 4;
      StopsAt(db, PagenoAt(data, 0), held[k..], chain[1..], need - k);
      NextLink(db, next, need);
      LinkIs(next, held[..k], held[k..], chain[1..]);
      Whole(held, k, chain);
    }
  }

  /** Of a payload whose chain breaks off, what is there is read, and zeros stand for what is missing. */
  lemma BrokenOff(db: Db, page: seq<byte>, offset: nat, payloadSize: nat, local: nat, held: seq<byte>,
                  chain: seq<int>)
    requires ValidDb(db) && |page| == db.pageSize && IsLocal(payloadSize, db.usable, local) && local < payloadSize
    requires local + |held| <= payloadSize && offset + local + 4 <= |page|
    requires ChainStops(db, PagenoAt(page, offset + local), held, chain)
    ensures ReadPayload(db, page, offset, payloadSize) ==
            Payload(page[offset..offset + local] + held + seq(payloadSize - local - |held|, _ => 0), chain)
  {
    LocalSizeIs(payloadSize, db.usable, local);
    StopsAt(db, PagenoAt(page, offset + local), held, chain, payloadSize - local);
    hide IsLocal, LocalSize, ReadChain, ChainStops, PagenoAt;
    assert Zeros(payloadSize - local - |held|) == seq(payloadSize - local - |held|, _ => 0);
  }
}
