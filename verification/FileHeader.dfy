/** How the repair kit opens a plain-text file for which the client forces no page size: sections 1.3.1
    to 1.3.4 of the SQLite "Database File Format". */
module FileHeader {
  import opened Numbers
  import opened Payloads
  import opened Pages

  /** "SQLite format 3" and a NUL */
  const MAGIC: seq<byte> := [83, 81, 76, 105, 116, 101, 32, 102, 111, 114, 109, 97, 116, 32, 51, 0]
  const HEADER_SIZE := 100
  const DEFAULT_PAGE_SIZE := 4096

  datatype Opened = Opened(db: Db) | Truncated

  predicate HasMagic(file: seq<byte>)
    requires |file| >= HEADER_SIZE
  {
    file[..16] == MAGIC
  }

  /** The powers of two from 512 on among the signed 16-bit numbers. */
  predicate IsPageSize(n: int) {
    n == 512 || n == 1024 || n == 2048 || n == 4096 || n == 8192 || n == 16384
  }

  /** The test on the bits of the field. */
  lemma PowersOfTwo(n: bv16)
    requires 512 <= n < 0x8000
    ensures (n - 1) & n == 0 <==> n == 512 || n == 1024 || n == 2048 || n == 4096 || n == 8192 || n == 16384
  {
  }

  /** A field that is no page size, or a header without the magic, means the default. */
  function PageSize(file: seq<byte>): (n: nat)
    requires |file| >= HEADER_SIZE
    ensures IsPageSize(n)
  {
    if HasMagic(file) && IsPageSize(ShortAt(file, 16)) then ShortAt(file, 16) else DEFAULT_PAGE_SIZE
  }

  /** The field is read as a signed byte. */
  function Reserved(file: seq<byte>): (n: nat)
    requires |file| >= HEADER_SIZE
    ensures n < 128
  {
    if HasMagic(file) && Int8(file[20]) >= 0 then Int8(file[20]) else 0
  }

  /** The pages of a file, the last of which cannot be read if the file ends inside it. */
  function Split(file: seq<byte>, size: nat): seq<Page>
    requires size > 0
  {
    if file == [] then []
    else if |file| < size then [Unreadable]
    else [Page(file[..size])] + Split(file[size..], size)
  }

  /** sqliterkPagerParseHeader, without a codec and a forced page size. */
  function OpenPlain(file: seq<byte>): Opened {
    if |file| < HEADER_SIZE then Truncated
    else Opened(Db(PageSize(file), PageSize(file) - Reserved(file), Split(file, PageSize(file))))
  }

  function Pow2(k: nat): nat {
    if k == 0 then 1 else 2 * Pow2(k - 1)
  }

  /** The sixteen bytes, as a text and a NUL. */
  predicate StartsRight(file: seq<byte>)
    requires |file| >= HEADER_SIZE
  {
    seq(15, i requires 0 <= i < 15 => file[i] as int as char) == "SQLite format 3" && file[15] == 0
  }

  lemma MagicIs(file: seq<byte>)
    requires |file| >= HEADER_SIZE
    ensures HasMagic(file) <==> StartsRight(file)
  {
    var text, name := seq(15, i requires 0 <= i < 15 => file[i] as int as char), "SQLite format 3";
    assert forall i | 0 <= i < 15 :: name[i] as int == MAGIC[i] as int;
    if HasMagic(file) {
      forall i | 0 <= i < 16 ensures file[i] == MAGIC[i] { assert file[..16][i] == MAGIC[i]; }
      assert text == name;
    }
    if StartsRight(file) {
      forall i | 0 <= i < 15 ensures file[i] == MAGIC[i] { assert text[i] == name[i]; }
      assert file[..16] == MAGIC;
    }
  }

  /** What the header says: the page size is the big-endian number in bytes 16 and 17 if that is a power of
      two between 512 and 16384, and otherwise 4096; the reserved bytes are byte 20 if that is below 128,
      and otherwise none; and nothing of a header that does not start right is believed. */
  lemma HeaderSays(file: seq<byte>)
    requires |file| >= HEADER_SIZE
    ensures var n := file[16] as int * 256 + file[17] as int;
            PageSize(file) == if StartsRight(file) && exists k | 9 <= k <= 14 :: n == Pow2(k) then n else 4096
    ensures Reserved(file) == if StartsRight(file) && file[20] < 128 then file[20] as int else 0
  {
    MagicIs(file);
    PowersAre();
    var n := file[16] as int * 256 + file[17] as int;
    var p := file[16..18];
    assert p[0] == file[16] && p[1..] == [file[17]];
    assert ShortAt(file, 16) == if file[16] < 128 then n else n - 0x10000;
    hide ShortAt, HasMagic, StartsRight, Pow2;
    assert IsPageSize(n) <==> exists k | 9 <= k <= 14 :: n == Pow2(k) by {
      if n == 512 { assert n == Pow2(9); }
      if n == 1024 { assert n == Pow2(10); }
      if n == 2048 { assert n == Pow2(11); }
      if n == 4096 { assert n == Pow2(12); }
      if n == 8192 { assert n == Pow2(13); }
      if n == 16384 { assert n == Pow2(14); }
    }
  }

  lemma PowersAre()
    ensures Pow2(9) == 512 && Pow2(10) == 1024 && Pow2(11) == 2048
    ensures Pow2(12) == 4096 && Pow2(13) == 8192 && Pow2(14) == 16384
  {
    assert Pow2(2) == 4 && Pow2(4) == 16 && Pow2(6) == 64 && Pow2(8) == 256;
    assert Pow2(10) == 1024 && Pow2(12) == 4096;
  }

  // ---------- the pages ----------

  /** The number of pages is the size of the file divided by the page size, rounded up. */
  lemma {:induction false} PageCount(file: seq<byte>, size: nat)
    requires size > 0
    ensures |file| <= |Split(file, size)| * size < |file| + size
    decreases |file|
  {
    if file != [] {
      var rest := if |file| < size then [] else file[size..];
      PageCount(rest, size);
      OneMore(|Split(rest, size)|, size);
      assert |Split(file, size)| == 1 + |Split(rest, size)|;
      if |file| < size { assert |Split(rest, size)| * size == 0; }
    }
  }

  /** Page k + 1 holds the bytes of the file from k times the page size on; it can be read if and only if
      the file has all of them. */
  lemma {:induction false} PageHolds(file: seq<byte>, size: nat, k: nat)
    requires size > 0 && k < |Split(file, size)|
    ensures k * size < |file|
    ensures Split(file, size)[k] ==
            if k * size + size <= |file| then Page(file[k * size..k * size + size]) else Unreadable
    decreases k
  {
    if k == 0 || |file| < size {
    } else {
      PageHolds(file[size..], size, k - 1);
      Further(file, size, (k - 1) * size, k * size);
    }
  }

  /** What is at an offset of the bytes behind the first page. */
  lemma Further(file: seq<byte>, size: nat, at: nat, place: nat)
    requires size <= |file| && place == at + size
    ensures place + size <= |file| ==> file[size..][at..at + size] == file[place..place + size]
  {
  }

  /** What a file is taken for.  It is refused if it has no whole header.  Otherwise its pages are as
      many as the page size demands, each one that can be read is the bytes at its place, and the rest of
      this model applies to it exactly if the reserved bytes leave 480 of every page. */
  lemma OpensAs(file: seq<byte>)
    ensures OpenPlain(file).Truncated? <==> |file| < HEADER_SIZE
    ensures OpenPlain(file).Opened? ==>
              var db := OpenPlain(file).db;
              && |file| <= |db.pages| * db.pageSize < |file| + db.pageSize
              && (ValidDb(db) <==> db.usable >= 480)
              && (forall p | 1 <= p <= |db.pages| && Acquire(db, p).Page? ::
                    Acquire(db, p).data == BytesAt(file, (p - 1) * db.pageSize, db.pageSize))
  {
    if |file| >= HEADER_SIZE {
      var db := OpenPlain(file).db;
      PageCount(file, db.pageSize);
      forall p | 1 <= p <= |db.pages| && Acquire(db, p).Page?
        ensures Acquire(db, p).data == BytesAt(file, (p - 1) * db.pageSize, db.pageSize)
        ensures |Acquire(db, p).data| == db.pageSize
      {
        PageHolds(file, db.pageSize, p - 1);
      }
      forall i | 0 <= i < |db.pages| && db.pages[i].Page? ensures |db.pages[i].data| == db.pageSize {
        assert Acquire(db, i + 1) == db.pages[i];
      }
    }
  }

  /** The bytes of a file at an offset, as far as it goes. */
  function BytesAt(file: seq<byte>, offset: int, n: nat): seq<byte> {
    if 0 <= offset <= |file| - n then file[offset..offset + n] else []
  }
}
