/** The record format, section 2.1 of the SQLite "Database File Format": its encoding, and the
    decoder of the repair kit. */
module Records {
  import opened Numbers
  import opened ValueList

  const MAX_PAYLOAD: nat := 64 * 1024 * 1024

  // ---------- decoding ----------

  datatype Decoded =
    | Row(values: seq<Value>)
    | DamagedRow
    | Undefined   // the code reads past the end of the payload, or a value it never set

  /** sqliterkBtreeGetLengthForSerialType */
  function SerialLength(serialType: int): (n: nat) {
    if serialType < 0 then 0
    else if serialType < 12 then [0, 1, 2, 3, 4, 6, 8, 8, 0, 0, 0, 0][serialType]
    else (serialType - 12 - serialType % 2) / 2
  }

  datatype Field = Got(value: Value) | NoField | BadRead

  function Raw(data: seq<byte>, offset: int, n: nat): (r: Field)
    ensures r.Got? ==> r.value.Binary? && |r.value.bytes| == n
  {
    if n == 0 then Got(Binary([]))
    else if 0 <= offset && offset + n <= |data| then Got(Binary(data[offset..offset + n]))
    else BadRead
  }

  /** The value of one column. */
  function DecodeField(data: seq<byte>, offset: int, serialType: int): Field {
    var raw := Raw(data, offset, SerialLength(serialType));
    if serialType == 0 then Got(Null)
    else if serialType < 0 then BadRead
    else if serialType < 7 then
      if raw.Got? then
        var r := ParseInt64(raw.value.bytes, 0, SerialLength(serialType));
        if r.Parsed? then Got(Integer(r.value)) else BadRead
      else raw
    else if serialType == 7 then if raw.Got? then Got(Number(raw.value.bytes)) else raw
    else if serialType == 8 then Got(Integer(0))
    else if serialType == 9 then Got(Integer(1))
    else if serialType >= 12 then
      if raw.Got? && serialType % 2 == 1 then Got(Text(raw.value.bytes)) else raw
    else NoField
  }

  function Prepend(vs: seq<Value>, d: Decoded): Decoded {
    if d.Row? then Row(vs + d.values) else d
  }

  lemma PrependTwice(a: seq<Value>, b: seq<Value>, d: Decoded)
    ensures Prepend(a, Prepend(b, d)) == Prepend(a + b, d)
    ensures Prepend([], d) == d
  {
    if d.Row? {
      assert a + (b + d.values) == a + b + d.values;
      assert [] + d.values == d.values;
    }
  }

  /** The loop over the columns: the serial types from offsetType on, the values from offsetValue on. */
  function DecodeColumns(data: seq<byte>, offsetType: nat, endType: int, offsetValue: int): Decoded
    decreases |data| - offsetType
  {
    if offsetValue < |data| || offsetType < endType then
      match DecodeVarint(data, offsetType)
      case Parsed(length, value) =>
        (if length == 0 || offsetType + length > |data| then Undefined
         else
           match DecodeField(data, offsetValue, ToInt(value))
           case Got(v) =>
             Prepend([v], DecodeColumns(data, offsetType + length, endType,
                                        offsetValue + SerialLength(ToInt(value))))
           case NoField => DamagedRow
           case BadRead => Undefined)
      case Damaged => DamagedRow
      case _ => Undefined
    else if offsetType != endType || offsetValue != |data| then DamagedRow
    else Row([])
  }

  /** The whole record: the size of the header, then the columns. */
  function DecodeRecord(data: seq<byte>): Decoded {
    match DecodeVarint(data, 0)
    case Parsed(length, value) => DecodeColumns(data, length, ToInt(value), ToInt(value))
    case Damaged => DamagedRow
    case _ => Undefined
  }

  lemma {:induction false} VarintInside(data: seq<byte>, offset: nat, i: nat, out: nat)
    requires i < MAX_VARINT
    ensures var r := ScanVarint(data, offset, i, out);
            r.Parsed? ==> i < r.length <= MAX_VARINT && offset + r.length <= |data|
    decreases MAX_VARINT - i
  {
    if offset + i < |data| && data[offset + i] >= 128 && i + 1 < MAX_VARINT {
      VarintInside(data, offset, i + 1, (out + (data[offset + i] as int - 128)) * 128);
    }
  }

  datatype Code = Ok | RowDamaged | RowUndefined

  function CodeOf(d: Decoded): Code {
    match d
    case Row(_) => Ok
    case DamagedRow => RowDamaged
    case Undefined => RowUndefined
  }

  /** The record part of sqliterkBtreeParsePayload: the values are appended to a list. */
  method ParseRecord(data: seq<byte>, values: Values) returns (rc: Code)
    requires values.Valid()
    modifies values, values.values
    ensures values.Valid() && (values.values == old(values.values) || fresh(values.values))
    ensures rc == CodeOf(DecodeRecord(data))
    ensures rc.Ok? ==> values.Contents() == old(values.Contents()) + DecodeRecord(data).values
  {
    var p := ParseVarint64(data, 0);
    VarintInside(data, 0, 0, 0);
    if p.Damaged? { return RowDamaged; }
    if !p.Parsed? { return RowUndefined; }
    rc := ParseColumns(data, p.length, ToInt(p.value), ToInt(p.value), values);
  }

  /** The loop over the columns. */
  method ParseColumns(data: seq<byte>, offsetSerialType0: nat, endSerialType: int, offsetValue0: int, values: Values)
      returns (rc: Code)
    requires values.Valid() && offsetSerialType0 <= |data|
    modifies values, values.values
    ensures values.Valid() && (values.values == old(values.values) || fresh(values.values))
    ensures var d := DecodeColumns(data, offsetSerialType0, endSerialType, offsetValue0);
            rc == CodeOf(d) && (rc.Ok? ==> values.Contents() == old(values.Contents()) + d.values)
  {
    var offsetSerialType, offsetValue := offsetSerialType0, offsetValue0;
    ghost var done: seq<Value> := [];
    ghost var whole := DecodeColumns(data, offsetSerialType, endSerialType, offsetValue);
    PrependTwice([], [], whole);
    hide DecodeColumns, Prepend;
    while offsetValue < |data| || offsetSerialType < endSerialType
      invariant values.Valid() && values.Contents() == old(values.Contents()) + done
      invariant values.values == old(values.values) || fresh(values.values)
      invariant whole == Prepend(done, DecodeColumns(data, offsetSerialType, endSerialType, offsetValue))
      invariant offsetSerialType <= |data|
      decreases |data| - offsetSerialType
    {
      ghost var v;
      rc, offsetSerialType, offsetValue, v :=
        ParseColumn(data, offsetSerialType, endSerialType, offsetValue, values);
      if rc != Ok {
        return;
      }
      PrependTwice(done, [v], DecodeColumns(data, offsetSerialType, endSerialType, offsetValue));
      done := done + [v];
    }
    ColumnsEnd(data, offsetSerialType, endSerialType, offsetValue, done);
    if offsetSerialType != endSerialType || offsetValue != |data| { return RowDamaged; }
    rc := Ok;
  }

  lemma ColumnsEnd(data: seq<byte>, offsetType: nat, endType: int, offsetValue: int, done: seq<Value>)
    requires !(offsetValue < |data| || offsetType < endType)
    ensures Prepend(done, DecodeColumns(data, offsetType, endType, offsetValue)) ==
            if offsetType != endType || offsetValue != |data| then DamagedRow else Row(done)
  {
  }

  /** One round of the loop over the columns. */
  method ParseColumn(data: seq<byte>, offsetSerialType: nat, endSerialType: int, offsetValue: int, values: Values)
      returns (rc: Code, offsetSerialType': nat, offsetValue': int, ghost v: Value)
    requires values.Valid() && (offsetValue < |data| || offsetSerialType < endSerialType)
    modifies values, values.values
    ensures values.Valid() && (values.values == old(values.values) || fresh(values.values))
    ensures var d := DecodeColumns(data, offsetSerialType, endSerialType, offsetValue);
            if rc == Ok then
              && values.Contents() == old(values.Contents()) + [v]
              && offsetSerialType < offsetSerialType' <= |data|
              && d == Prepend([v], DecodeColumns(data, offsetSerialType', endSerialType, offsetValue'))
            else rc == CodeOf(d) && forall vs :: Prepend(vs, d) == d
  {
    rc, offsetSerialType', offsetValue', v := Ok, offsetSerialType, offsetValue, Null;
    var p := ParseVarint64(data, offsetSerialType);
    VarintInside(data, offsetSerialType, 0, 0);
    if p.Damaged? { rc := RowDamaged; return; }
    if !p.Parsed? { rc := RowUndefined; return; }
    var serialType := ToInt(p.value);
    var f := DecodeField(data, offsetValue, serialType);
    if f.NoField? { rc := RowDamaged; return; }
    if f.BadRead? { rc := RowUndefined; return; }
    values.Add(f.value);
    v := f.value;
    offsetValue' := offsetValue + SerialLength(serialType);
    offsetSerialType' := offsetSerialType + p.length;
  }

  // ---------- encoding ----------

  /** A column as it is written: an integer with a width it fits in, or one of the two integers that
      need no body. */
  datatype Column =
    | NullColumn
    | IntColumn(width: nat, i: int)
    | ZeroColumn
    | OneColumn
    | FloatColumn(raw: seq<byte>)
    | TextColumn(text: seq<byte>)
    | BlobColumn(bytes: seq<byte>)

  predicate Legal(c: Column) {
    match c
    case IntColumn(width, i) => HasWidth(width) && -(Pow256(width) / 2) <= i < Pow256(width) / 2
    case FloatColumn(raw) => |raw| == 8
    case TextColumn(text) => |text| <= MAX_PAYLOAD
    case BlobColumn(bytes) => |bytes| <= MAX_PAYLOAD
    case _ => true
  }

  function SerialType(c: Column): (n: nat)
    requires Legal(c)
    ensures n < 0x1000_0000
  {
    match c
    case NullColumn => 0
    case IntColumn(width, _) => if width <= 4 then width else if width == 6 then 5 else 6
    case ZeroColumn => 8
    case OneColumn => 9
    case FloatColumn(_) => 7
    case TextColumn(text) => 13 + 2 * |text|
    case BlobColumn(bytes) => 12 + 2 * |bytes|
  }

  function Body(c: Column): seq<byte>
    requires Legal(c)
  {
    match c
    case IntColumn(width, i) => EncodeInt(i, width)
    case FloatColumn(raw) => raw
    case TextColumn(text) => text
    case BlobColumn(bytes) => bytes
    case _ => []
  }

  function ValueOf(c: Column): Value {
    match c
    case NullColumn => Null
    case IntColumn(_, i) => Integer(i)
    case ZeroColumn => Integer(0)
    case OneColumn => Integer(1)
    case FloatColumn(raw) => Number(raw)
    case TextColumn(text) => Text(text)
    case BlobColumn(bytes) => Binary(bytes)
  }

  predicate AllLegal(cs: seq<Column>) {
    forall c | c in cs :: Legal(c)
  }

  function Types(cs: seq<Column>): seq<byte>
    requires AllLegal(cs)
  {
    if cs == [] then [] else EncodeVarint(SerialType(cs[0])) + Types(cs[1..])
  }

  function Bodies(cs: seq<Column>): seq<byte>
    requires AllLegal(cs)
  {
    if cs == [] then [] else Body(cs[0]) + Bodies(cs[1..])
  }

  function ValuesOf(cs: seq<Column>): seq<Value> {
    if cs == [] then [] else [ValueOf(cs[0])] + ValuesOf(cs[1..])
  }

  /** The header size counts its own encoding. */
  function HeaderSize(types: nat): (h: nat)
    requires types <= MAX_PAYLOAD
    ensures h < 0x1000_0000 && h == |EncodeVarint(h)| + types
  {
    if types + 1 < 0x80 then types + 1
    else if types + 2 < 0x4000 then
      LengthOf(types + 2);
      types + 2
    else if types + 3 < 0x20_0000 then
      LengthOf(types + 3);
      types + 3
    else
      LengthOf(types + 4);
      types + 4
  }

  lemma LengthOf(v: nat)
    requires 0x80 <= v < 0x1000_0000
    ensures |EncodeVarint(v)| == if v < 0x4000 then 2 else if v < 0x20_0000 then 3 else 4
  {
    var a := v / 128;
    var b := a / 128;
    assert |Groups(a)| == if a < 128 then 1 else |Groups(b)| + 1;
    assert |Groups(b)| == if b < 128 then 1 else |Groups(b / 128)| + 1;
    assert |Groups(b / 128)| == 1;
  }

  function EncodeRecord(cs: seq<Column>): seq<byte>
    requires AllLegal(cs) && |Types(cs)| <= MAX_PAYLOAD
  {
    EncodeVarint(HeaderSize(|Types(cs)|)) + Types(cs) + Bodies(cs)
  }

  // ---------- the round trip ----------

  lemma SliceParts(data: seq<byte>, a: nat, b: nat, x: seq<byte>, y: seq<byte>)
    requires a <= b <= |data| && data[a..b] == x + y
    ensures b - a == |x| + |y| && data[a..a + |x|] == x && data[a + |x|..b] == y
  {
    assert data[a..b][..|x|] == x && data[a..b][|x|..] == y;
    assert data[a..b][..|x|] == data[a..a + |x|] && data[a..b][|x|..] == data[a + |x|..b];
  }

  lemma VarintAt(data: seq<byte>, offset: nat, v: nat)
    requires v < TWO56 && offset + |EncodeVarint(v)| <= |data|
    requires data[offset..offset + |EncodeVarint(v)|] == EncodeVarint(v)
    ensures DecodeVarint(data, offset) == Parsed(|EncodeVarint(v)|, v)
  {
    var e := EncodeVarint(v);
    hide *;
    VarintRoundTrip(v, data[..offset], data[offset + |e|..]);
    assert data == data[..offset] + e + data[offset + |e|..];
  }

  lemma BodyLength(c: Column)
    requires Legal(c)
    ensures SerialLength(SerialType(c)) == |Body(c)|
  {
    hide EncodeInt, Pow256;
  }

  lemma FieldAt(data: seq<byte>, offset: nat, c: Column)
    requires Legal(c) && offset + |Body(c)| <= |data| && data[offset..offset + |Body(c)|] == Body(c)
    ensures SerialLength(SerialType(c)) == |Body(c)|
    ensures DecodeField(data, offset, SerialType(c)) == Got(ValueOf(c))
  {
    BodyLength(c);
    hide ParseInt64, Pow256, SerialLength, EncodeInt;
    if c.IntColumn? {
      IntRoundTrip(c.i, c.width, [], []);
      assert [] + EncodeInt(c.i, c.width) + [] == Body(c);
    }
  }

  lemma DecodeStep(data: seq<byte>, offsetType: nat, endType: int, offsetValue: int,
                   length: nat, serialType: nat, v: Value)
    requires offsetType < endType && serialType < 0x1000_0000
    requires DecodeVarint(data, offsetType) == Parsed(length, serialType)
    requires DecodeField(data, offsetValue, serialType) == Got(v)
    ensures DecodeColumns(data, offsetType, endType, offsetValue) ==
            Prepend([v], DecodeColumns(data, offsetType + length, endType, offsetValue + SerialLength(serialType)))
  {
    VarintInside(data, offsetType, 0, 0);
    hide DecodeVarint, ScanVarint, DecodeField, SerialLength;
  }

  lemma Unfolded(cs: seq<Column>)
    requires AllLegal(cs) && cs != []
    ensures Legal(cs[0]) && AllLegal(cs[1..]) && SerialType(cs[0]) < TWO56 < TWO64
    ensures |EncodeVarint(SerialType(cs[0]))| > 0
    ensures Types(cs) == EncodeVarint(SerialType(cs[0])) + Types(cs[1..])
    ensures Bodies(cs) == Body(cs[0]) + Bodies(cs[1..])
    ensures ValuesOf(cs) == [ValueOf(cs[0])] + ValuesOf(cs[1..])
  {
  }

  lemma NoColumns(data: seq<byte>, offsetType: nat, cs: seq<Column>)
    requires cs == []
    ensures Types(cs) == [] && Bodies(cs) == []
    ensures DecodeColumns(data, offsetType, offsetType, |data|) == Row(ValuesOf(cs))
  {
    hide DecodeVarint, ScanVarint, DecodeField;
  }

  /** Columns whose types lie from offsetType to endType and whose bodies lie from offsetValue on. */
  lemma {:induction false} ColumnsRoundTrip(data: seq<byte>, offsetType: nat, endType: nat, offsetValue: nat,
                                            cs: seq<Column>)
    requires AllLegal(cs) && offsetType <= endType <= |data| && offsetValue <= |data|
    requires data[offsetType..endType] == Types(cs) && data[offsetValue..|data|] == Bodies(cs)
    ensures DecodeColumns(data, offsetType, endType, offsetValue) == Row(ValuesOf(cs))
    decreases |cs|
  {
    hide *;
    if cs == [] {
      NoColumns(data, offsetType, cs);
    } else {
      Unfolded(cs);
      var c, rest := cs[0], cs[1..];
      var t, body := EncodeVarint(SerialType(c)), Body(c);
      SliceParts(data, offsetType, endType, t, Types(rest));
      SliceParts(data, offsetValue, |data|, body, Bodies(rest));
      VarintAt(data, offsetType, SerialType(c));
      FieldAt(data, offsetValue, c);
      ColumnsRoundTrip(data, offsetType + |t|, endType, offsetValue + |body|, rest);
      DecodeStep(data, offsetType, endType, offsetValue, |t|, SerialType(c), ValueOf(c));
      PrependRow(ValueOf(c), ValuesOf(rest));
    }
  }

  lemma PrependRow(v: Value, vs: seq<Value>)
    ensures Prepend([v], Row(vs)) == Row([v] + vs)
  {
  }

  /** Decoding the encoding of any list of columns gives their values, whatever widths the encoder
      chose, and uses up the header and the body exactly. */
  lemma RecordRoundTrip(cs: seq<Column>)
    requires AllLegal(cs) && |Types(cs)| <= MAX_PAYLOAD
    ensures DecodeRecord(EncodeRecord(cs)) == Row(ValuesOf(cs))
  {
    var h := HeaderSize(|Types(cs)|);
    var header := EncodeVarint(h);
    var data := EncodeRecord(cs);
    RecordParts(cs);
    hide *;
    VarintAt(data, 0, h);
    ColumnsRoundTrip(data, |header|, h, h, cs);
    DecodeStart(data, |header|, h);
  }

  lemma DecodeStart(data: seq<byte>, length: nat, h: nat)
    requires DecodeVarint(data, 0) == Parsed(length, h) && h < 0x1000_0000
    ensures DecodeRecord(data) == DecodeColumns(data, length, h, h)
  {
  }

  lemma RecordParts(cs: seq<Column>)
    requires AllLegal(cs) && |Types(cs)| <= MAX_PAYLOAD
    ensures var data, h := EncodeRecord(cs), HeaderSize(|Types(cs)|);
            && |EncodeVarint(h)| <= h <= |data| && data[0..|EncodeVarint(h)|] == EncodeVarint(h)
            && data[|EncodeVarint(h)|..h] == Types(cs) && data[h..|data|] == Bodies(cs)
  {
    hide EncodeVarint, Types, Bodies;
  }
}
