/** Numbers in the SQLite file format: variable-length integers and big-endian two's complement
    integers, as the repair kit reads them. */
module Numbers {

  newtype byte = x: int | 0 <= x < 256

  const MAX_VARINT: nat := 9

  /** What reading a number comes to.  Overread stands for reading past the end of the buffer, which
      the C code does not notice. */
  datatype Parsed =
    | Parsed(length: nat, value: int)
    | Damaged
    | Misuse
    | Overread

  // ---------- variable-length integers ----------

  /** The loop of sqliterkParseVarint64 from its i-th byte on.  Each shift leaves seven zero bits, so
      the bitwise "or" of a seven-bit group is an addition. */
  function ScanVarint(data: seq<byte>, offset: nat, i: nat, out: nat): (r: Parsed)
    requires i < MAX_VARINT
    decreases |data| - offset - i
  {
    if offset + i >= |data| then Overread
    else
      var b := data[offset + i] as int;
      if b >= 128 then
        if i + 1 >= MAX_VARINT then Damaged
        else ScanVarint(data, offset, i + 1, (out + (b - 128)) * 128)
      else Parsed(i + 1, out + b)
  }

  function DecodeVarint(data: seq<byte>, offset: nat): Parsed {
    ScanVarint(data, offset, 0, 0)
  }

  /** sqliterkParseVarint64 */
  method ParseVarint64(data: seq<byte>, offset: nat) returns (r: Parsed)
    ensures r == DecodeVarint(data, offset)
  {
    var out: nat, i: nat := 0, 0;
    while offset + i < |data| && data[offset + i] >= 128 && i < MAX_VARINT
      invariant i < MAX_VARINT
      invariant DecodeVarint(data, offset) == ScanVarint(data, offset, i, out)
      decreases MAX_VARINT - i
    {
      out := out + data[offset + i] as int % 128;
      out := out * 128;
      i := i + 1;
      if i >= MAX_VARINT { return Damaged; }
    }
    if offset + i >= |data| { return Overread; }
    r := Parsed(i + 1, out + data[offset + i] as int);
  }

  /** Truncation of a 64-bit value to a C int. */
  function ToInt(x: int): (r: int)
    ensures -0x8000_0000 <= x < 0x8000_0000 ==> r == x
    ensures -0x8000_0000 <= r < 0x8000_0000
  {
    var u := x % 0x1_0000_0000;
    if u < 0x8000_0000 then u else u - 0x1_0000_0000
  }

  /** The base-128 digits of v, most significant first, each with its high bit set. */
  function Groups(v: nat): (s: seq<byte>) {
    (if v < 128 then [] else Groups(v / 128)) + [(128 + v % 128) as byte]
  }

  /** Exactly n base-128 digits of v, each with its high bit set. */
  function FixedGroups(v: nat, n: nat): (s: seq<byte>)
    ensures |s| == n
    decreases n, v
  {
    if n == 0 then [] else FixedGroups(v / 128, n - 1) + [(128 + v % 128) as byte]
  }

  const TWO56: nat := 0x100_0000_0000_0000
  const TWO64: nat := 0x1_0000_0000_0000_0000

  /** The encoding of an unsigned 64-bit integer in the file format: up to eight bytes of seven bits
      each, or nine bytes of which the last has eight bits. */
  function EncodeVarint(v: nat): (s: seq<byte>)
    requires v < TWO64
  {
    if v < 128 then [v as byte]
    else if v < TWO56 then Groups(v / 128) + [(v % 128) as byte]
    else FixedGroups(v / 256, 8) + [(v % 256) as byte]
  }

  /** All bytes have their high bit set. */
  predicate Continued(gs: seq<byte>) {
    forall i | 0 <= i < |gs| :: gs[i] >= 128
  }

  /** What the loop has accumulated after the groups gs. */
  function Gather(gs: seq<byte>): nat
    requires Continued(gs)
  {
    if gs == [] then 0
    else
      var last := gs[|gs| - 1] as int;
      (Gather(gs[..|gs| - 1]) + (last - 128)) * 128
  }

  lemma {:induction false} ScanGroups(data: seq<byte>, offset: nat, gs: seq<byte>)
    requires |gs| < MAX_VARINT && offset + |gs| <= |data| && data[offset..offset + |gs|] == gs
    requires Continued(gs)
    ensures DecodeVarint(data, offset) == ScanVarint(data, offset, |gs|, Gather(gs))
  {
    if gs != [] {
      var n := |gs| - 1;
      assert data[offset..offset + n] == gs[..n];
      ScanGroups(data, offset, gs[..n]);
      assert data[offset + n] == gs[n];
    }
  }

  lemma {:induction false} GroupsGather(v: nat, n: nat)
    requires v < Pow128(n) && n > 0
    ensures 0 < |Groups(v)| <= n && Continued(Groups(v))
    ensures Gather(Groups(v)) == v * 128
    decreases n
  {
    var gs := Groups(v);
    if v < 128 {
      assert gs == [(128 + v) as byte] && gs[..0] == [];
    } else {
      GroupsGather(v / 128, n - 1);
      assert gs[..|gs| - 1] == Groups(v / 128);
    }
  }

  lemma {:induction false} FixedGroupsGather(v: nat, n: nat)
    requires v < Pow128(n)
    ensures Continued(FixedGroups(v, n))
    ensures Gather(FixedGroups(v, n)) == v * 128
  {
    if n > 0 {
      FixedGroupsGather(v / 128, n - 1);
      var gs := FixedGroups(v, n);
      assert gs[..n - 1] == FixedGroups(v / 128, n - 1);
    }
  }

  function Pow128(n: nat): (p: nat)
    ensures p > 0
  {
    if n == 0 then 1 else 128 * Pow128(n - 1)
  }

  /** What the loop makes of continued groups and one last byte. */
  lemma ScanAll(before: seq<byte>, gs: seq<byte>, last: byte, after: seq<byte>)
    requires |gs| < MAX_VARINT && Continued(gs)
    ensures DecodeVarint(before + (gs + [last]) + after, |before|) ==
            if last < 128 then Parsed(|gs| + 1, Gather(gs) + last as int)
            else ScanVarint(before + (gs + [last]) + after, |before|, |gs|, Gather(gs))
  {
    var data := before + (gs + [last]) + after;
    assert data[|before|..|before| + |gs|] == gs;
    ScanGroups(data, |before|, gs);
    assert data[|before| + |gs|] == last;
  }

  /** Reading back an encoded integer, wherever it stands, gives the integer and its length exactly
      when it is below 2^56.  From there on the format uses a ninth byte of eight bits, which the
      code shifts by seven or refuses. */
  lemma VarintRoundTrip(v: nat, before: seq<byte>, after: seq<byte>)
    requires v < TWO64
    ensures var e := EncodeVarint(v);
            DecodeVarint(before + e + after, |before|) == Parsed(|e|, v) <==> v < TWO56
  {
    Powers128();
    if v < 128 {
      ScanAll(before, [], v as byte, after);
      assert [] + [v as byte] == EncodeVarint(v);
    } else if v < TWO56 {
      GroupsGather(v / 128, 7);
      ScanAll(before, Groups(v / 128), (v % 128) as byte, after);
    } else {
      FixedGroupsGather(v / 256, 8);
      ScanAll(before, FixedGroups(v / 256, 8), (v % 256) as byte, after);
    }
  }

  lemma Powers128()
    ensures Pow128(8) == TWO56 && Pow128(7) == TWO56 / 128
  {
    assert Pow128(2) == 0x4000 && Pow128(4) == 0x1000_0000 && Pow128(6) == 0x400_0000_0000;
  }

  /** The value of seven-bit digits, most significant first. */
  function Digits(s: seq<byte>): nat {
    if s == [] then 0 else Digits(s[..|s| - 1]) * 128 + s[|s| - 1] as int % 128
  }

  lemma {:induction false} GatherIsDigits(gs: seq<byte>)
    requires Continued(gs)
    ensures Gather(gs) == Digits(gs) * 128
  {
    if gs != [] { GatherIsDigits(gs[..|gs| - 1]); }
  }

  /** The first n bytes at the offset are there, and go on with high bits. */
  predicate Goes(data: seq<byte>, offset: nat, n: nat) {
    offset + n <= |data| && forall i | offset <= i < offset + n :: data[i] >= 128
  }

  /** Up to the i-th byte the number goes on; what the loop makes of the rest. */
  lemma {:induction false} ScanIs(data: seq<byte>, offset: nat, i: nat, n: nat, v: int)
    requires i < 9 && Goes(data, offset, i)
    ensures var r := ScanVarint(data, offset, i, Gather(data[offset..offset + i]));
            && (r == Damaged <==> Goes(data, offset, 9))
            && (r == Parsed(n, v) && n > 0 <==>
                  i < n <= 9 && Goes(data, offset, n - 1) && offset + n <= |data| && data[offset + n - 1] < 128 &&
                  v == Digits(data[offset..offset + n]))
    decreases 9 - i
  {
    if offset + i < |data| {
      var gs := data[offset..offset + i + 1];
      assert gs[..i] == data[offset..offset + i];
      if gs[i] < 128 {
        GatherIsDigits(gs[..i]);
      } else if i < 8 {
        ScanIs(data, offset, i + 1, n, v);
      }
    }
  }

  /** What is read as a number: up to nine bytes, of which the last one alone has no high bit, as seven-bit
      digits; and what is refused: nine bytes with high bits. */
  lemma VarintIs(data: seq<byte>, offset: nat, n: nat, v: int)
    ensures DecodeVarint(data, offset) == Damaged <==> Goes(data, offset, 9)
    ensures n > 0 ==>
              (DecodeVarint(data, offset) == Parsed(n, v) <==>
                 n <= 9 && Goes(data, offset, n - 1) && offset + n <= |data| && data[offset + n - 1] < 128 &&
                 v == Digits(data[offset..offset + n]))
  {
    if offset <= |data| {
      assert data[offset..offset + 0] == [];
      ScanIs(data, offset, 0, n, v);
    }
  }

  // ---------- big-endian two's complement integers ----------

  function Int8(b: byte): int {
    if b < 128 then b as int else b as int - 256
  }

  /** sqliterkParseInt64.  The operands of each bitwise "or" have no bit in common, so it is an
      addition. */
  function ParseInt64(data: seq<byte>, offset: nat, length: int): Parsed {
    if !HasWidth(length) then Misuse
    else if offset + length > |data| then Overread
    else Parsed(length, Combine(data[offset..offset + length]))
  }

  /** The widths an integer can have. */
  predicate HasWidth(n: int) {
    n == 1 || n == 2 || n == 3 || n == 4 || n == 6 || n == 8
  }

  function Combine(p: seq<byte>): int
    requires HasWidth(|p|)
  {
    if |p| == 1 then Int8(p[0])
    else if |p| == 2 then Int8(p[0]) * 256 + Word(p[1..])
    else if |p| == 3 then Int8(p[0]) * 65536 + Word(p[1..])
    else if |p| == 4 then Int8(p[0]) * 16777216 + Word(p[1..])
    else if |p| == 6 then (Int8(p[0]) * 256 + Word(p[1..2])) * 0x1_0000_0000 + Word(p[2..])
    else (Int8(p[0]) * 16777216 + Word(p[1..4])) * 0x1_0000_0000 + Word(p[4..])
  }

  /** Up to four bytes, shifted and put together. */
  function Word(p: seq<byte>): nat
    requires |p| <= 4
  {
    if |p| == 0 then 0
    else if |p| == 1 then p[0] as int
    else if |p| == 2 then p[0] as int * 256 + p[1] as int
    else if |p| == 3 then p[0] as int * 65536 + p[1] as int * 256 + p[2] as int
    else p[0] as int * 16777216 + p[1] as int * 65536 + p[2] as int * 256 + p[3] as int
  }

  /** sqliterkParseInt */
  function ParseInt(data: seq<byte>, offset: nat, length: int): Parsed {
    if length > 4 then Misuse
    else
      var r := ParseInt64(data, offset, length);
      if r.Parsed? then r.(value := ToInt(r.value)) else r
  }

  /** n bytes, most significant first. */
  function BigEndian(u: nat, n: nat): (s: seq<byte>)
    ensures |s| == n
    decreases n, u
  {
    if n == 0 then [] else BigEndian(u / 256, n - 1) + [(u % 256) as byte]
  }

  function Pow256(n: nat): (p: nat)
    ensures p > 0
  {
    if n == 0 then 1 else 256 * Pow256(n - 1)
  }

  /** The n-byte two's complement encoding of v. */
  function EncodeInt(v: int, n: nat): (s: seq<byte>)
    requires n > 0 && -(Pow256(n) / 2) <= v < Pow256(n) / 2
    ensures |s| == n
  {
    BigEndian(if v >= 0 then v else v + Pow256(n), n)
  }

  function FromBigEndian(s: seq<byte>): nat {
    if s == [] then 0 else FromBigEndian(s[..|s| - 1]) * 256 + s[|s| - 1] as int
  }

  lemma {:induction false} BigEndianInverse(u: nat, n: nat)
    requires u < Pow256(n)
    ensures FromBigEndian(BigEndian(u, n)) == u
  {
    if n > 0 {
      BigEndianInverse(u / 256, n - 1);
      assert BigEndian(u, n)[..n - 1] == BigEndian(u / 256, n - 1);
    }
  }

  lemma {:induction false} FromBigEndianConcat(a: seq<byte>, b: seq<byte>)
    ensures FromBigEndian(a + b) == FromBigEndian(a) * Pow256(|b|) + FromBigEndian(b)
    ensures FromBigEndian(b) < Pow256(|b|)
  {
    if b == [] {
      assert a + b == a;
    } else {
      var n := |b| - 1;
      FromBigEndianConcat(a, b[..n]);
      assert (a + b)[..|a + b| - 1] == a + b[..n];
      assert FromBigEndian(a) * Pow256(n) * 256 == FromBigEndian(a) * Pow256(n + 1);
    }
  }

  lemma WordIsBigEndian(p: seq<byte>)
    requires |p| <= 4
    ensures Word(p) == FromBigEndian(p)
  {
    if |p| >= 1 { assert FromBigEndian(p[..1]) == FromBigEndian(p[..1][..0]) * 256 + p[0] as int; }
    if |p| >= 2 { assert p[..2][..1] == p[..1]; }
    if |p| >= 3 { assert p[..3][..2] == p[..2]; }
    if |p| >= 4 { assert p[..4][..3] == p[..3]; }
    assert p[..|p|] == p;
  }

  /** The weight of the first of n bytes. */
  function Weight(n: nat): (w: nat)
    requires HasWidth(n)
    ensures w > 0
  {
    if n == 1 then 1
    else if n == 2 then 256
    else if n == 3 then 65536
    else if n == 4 then 16777216
    else if n == 6 then 0x100_0000_0000
    else TWO56
  }

  lemma WeightIsPower(n: nat)
    requires HasWidth(n)
    ensures Pow256(n - 1) == Weight(n) && Pow256(n) == 256 * Weight(n)
    ensures n > 4 ==> Pow256(4) == 0x1_0000_0000
  {
    assert Pow256(2) == 65536 && Pow256(3) == 16777216 && Pow256(4) == 0x1_0000_0000;
    assert n > 4 ==> Pow256(5) == 0x100_0000_0000 && Pow256(7) == TWO56;
  }

  /** Reading back the two's complement encoding of an integer gives the integer, for every width the
      file format has and every value that fits. */
  lemma IntRoundTrip(v: int, n: nat, before: seq<byte>, after: seq<byte>)
    requires HasWidth(n) && -(Pow256(n) / 2) <= v < Pow256(n) / 2
    ensures ParseInt64(before + EncodeInt(v, n) + after, |before|, n) == Parsed(n, v)
  {
    var e: seq<byte> := EncodeInt(v, n);
    Middle(before, e, after);
    hide Combine, Rest, Word, FromBigEndian, BigEndian, Pow256, Int8, Weight;
    var u := if v >= 0 then v else v + Pow256(n);
    BigEndianInverse(u, n);
    RestIsBigEndian(e);
    SignedValue(e);
    TopBit(u, v, n, e[0], Rest(e));
  }

  lemma Middle(before: seq<byte>, e: seq<byte>, after: seq<byte>)
    ensures (before + e + after)[|before|..|before| + |e|] == e
  {
  }

  lemma TopBit(u: nat, v: int, n: nat, top: byte, rest: nat)
    requires HasWidth(n) && -(Pow256(n) / 2) <= v < Pow256(n) / 2
    requires u == (if v >= 0 then v else v + Pow256(n))
    requires u == top as int * Weight(n) + rest && rest < Weight(n)
    ensures v == Int8(top) * Weight(n) + rest
  {
    WeightIsPower(n);
    hide Pow256;
  }

  /** The bytes after the first, as sqliterkParseInt64 puts them together. */
  function Rest(p: seq<byte>): nat
    requires HasWidth(|p|)
  {
    if |p| <= 4 then Word(p[1..])
    else Word(p[1..|p| - 4]) * 0x1_0000_0000 + Word(p[|p| - 4..])
  }

  lemma RestIsBigEndian(p: seq<byte>)
    requires HasWidth(|p|)
    ensures Rest(p) == FromBigEndian(p[1..]) < Weight(|p|)
    ensures FromBigEndian(p) == p[0] as int * Weight(|p|) + Rest(p)
  {
    assert p == p[..1] + p[1..];
    FromBigEndianConcat(p[..1], p[1..]);
    WordIsBigEndian(p[..1]);
    WeightIsPower(|p|);
    if |p| <= 4 {
      WordIsBigEndian(p[1..]);
    } else {
      RestSplits(p);
    }
    hide Pow256, FromBigEndian, Weight;
  }

  lemma RestSplits(p: seq<byte>)
    requires |p| == 6 || |p| == 8
    ensures Rest(p) == FromBigEndian(p[1..])
  {
    var m := |p| - 4;
    assert p[1..] == p[1..m] + p[m..];
    FromBigEndianConcat(p[1..m], p[m..]);
    WordIsBigEndian(p[1..m]);
    WordIsBigEndian(p[m..]);
    WeightIsPower(|p|);
    hide Pow256, FromBigEndian, Word;
  }

  /** What sqliterkParseInt64 computes is the signed value of the bytes. */
  lemma SignedValue(p: seq<byte>)
    requires HasWidth(|p|)
    ensures Combine(p) == Int8(p[0]) * Weight(|p|) + Rest(p)
  {
    if |p| == 1 { assert Word(p[1..]) == 0; }
    hide Word, Int8;
  }
}
