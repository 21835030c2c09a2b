/** Which sequences of bytes are records: section 2.1 of the SQLite "Database File Format", read the
    other way round. */
module RecordForm {
  import opened Numbers
  import opened ValueList
  import opened Records

  /** n bytes can be read at the position. */
  predicate Has(data: seq<byte>, at: int, n: nat) {
    n == 0 || (0 <= at && at + n <= |data|)
  }

  function Bytes(data: seq<byte>, at: int, n: nat): seq<byte>
    requires Has(data, at, n)
  {
    if n == 0 then [] else data[at..at + n]
  }

  /** The bytes of an integer, a floating-point number, a blob or a text: the table of serial types. */
  predicate IsField(data: seq<byte>, at: int, serialType: int, v: Value, n: nat) {
    Has(data, at, n) &&
    match v
    case Null => serialType == 0 && n == 0
    case Integer(i) =>
      || (serialType == 8 && n == 0 && i == 0)
      || (serialType == 9 && n == 0 && i == 1)
      || (((1 <= serialType <= 4 && n == serialType) || (serialType == 5 && n == 6) || (serialType == 6 && n == 8))
          && ParseInt64(Bytes(data, at, n), 0, n) == Parsed(n, i))
    case Number(raw) => serialType == 7 && n == 8 && raw == Bytes(data, at, n)
    case Binary(bytes) => serialType == 12 + 2 * n && bytes == Bytes(data, at, n)
    case Text(text) => serialType == 13 + 2 * n && text == Bytes(data, at, n)
  }

  /** From position at to position end lie the serial types of the values, and from position body to the
      end of the data their bodies. */
  ghost predicate Laid(data: seq<byte>, at: nat, end: int, body: int, vs: seq<Value>)
    decreases |vs|
  {
    if vs == [] then at == end && body == |data|
    else
      && at < end && DecodeVarint(data, at).Parsed?
      && var p := DecodeVarint(data, at);
         exists n: nat :: IsField(data, body, ToInt(p.value), vs[0], n) &&
                          Laid(data, at + p.length, end, body + n, vs[1..])
  }

  lemma FieldIs(data: seq<byte>, at: int, serialType: int, v: Value, n: nat)
    ensures IsField(data, at, serialType, v, n) <==>
              DecodeField(data, at, serialType) == Got(v) && n == SerialLength(serialType)
  {
    hide ParseInt64;
    var raw := Raw(data, at, SerialLength(serialType));
    if serialType >= 12 {
      assert SerialLength(serialType) == (serialType - 12 - serialType % 2) / 2;
    }
    if 0 < serialType < 7 && raw.Got? { WidthParses(raw.value.bytes); }
  }

  lemma WidthParses(data: seq<byte>)
    requires HasWidth(|data|)
    ensures ParseInt64(data, 0, |data|).Parsed? && ParseInt64(data, 0, |data|).length == |data|
  {
  }

  lemma {:induction false} LaidIsRow(data: seq<byte>, at: nat, end: int, body: int, vs: seq<Value>)
    requires Laid(data, at, end, body, vs)
    ensures at <= end && DecodeColumns(data, at, end, body) == Row(vs)
    decreases |vs|
  {
    hide DecodeField, IsField, DecodeVarint, SerialLength;
    if vs != [] {
      var p := DecodeVarint(data, at);
      var n: nat :| IsField(data, body, ToInt(p.value), vs[0], n) && Laid(data, at + p.length, end, body + n, vs[1..]);
      FieldIs(data, body, ToInt(p.value), vs[0], n);
      Inside(data, at);
      LaidIsRow(data, at + p.length, end, body + n, vs[1..]);
      assert [vs[0]] + vs[1..] == vs;
    }
  }

  lemma Inside(data: seq<byte>, at: nat)
    ensures var p := DecodeVarint(data, at); p.Parsed? ==> 0 < p.length && at + p.length <= |data|
  {
    VarintInside(data, at, 0, 0);
  }

  /** The first column of a row. */
  lemma FirstColumn(data: seq<byte>, at: nat, end: int, body: int, vs: seq<Value>)
    requires DecodeColumns(data, at, end, body) == Row(vs) && (body < |data| || at < end)
    ensures var p := DecodeVarint(data, at);
            && p.Parsed? && vs != [] && 0 < p.length && at + p.length <= |data|
            && IsField(data, body, ToInt(p.value), vs[0], SerialLength(ToInt(p.value)))
            && DecodeColumns(data, at + p.length, end, body + SerialLength(ToInt(p.value))) == Row(vs[1..])
  {
    var p := DecodeVarint(data, at);
    Inside(data, at);
    hide DecodeField, IsField, DecodeVarint, SerialLength;
    var f := DecodeField(data, body, ToInt(p.value));
    FieldIs(data, body, ToInt(p.value), f.value, SerialLength(ToInt(p.value)));
    var rest := DecodeColumns(data, at + p.length, end, body + SerialLength(ToInt(p.value)));
    assert Prepend([f.value], rest) == Row(vs);
    assert vs == [f.value] + rest.values;
  }

  lemma LaidMore(data: seq<byte>, at: nat, end: int, body: int, vs: seq<Value>, n: nat)
    requires vs != [] && at < end && DecodeVarint(data, at).Parsed?
    requires IsField(data, body, ToInt(DecodeVarint(data, at).value), vs[0], n)
    requires Laid(data, at + DecodeVarint(data, at).length, end, body + n, vs[1..])
    ensures Laid(data, at, end, body, vs)
  {
    hide IsField, DecodeVarint;
  }

  lemma {:induction false} RowIsLaid(data: seq<byte>, at: nat, end: int, body: int, vs: seq<Value>)
    requires DecodeColumns(data, at, end, body) == Row(vs)
    ensures Laid(data, at, end, body, vs)
    decreases |data| - at
  {
    hide *;
    if body < |data| || at < end {
      FirstColumn(data, at, end, body, vs);
      var p := DecodeVarint(data, at);
      var n := SerialLength(ToInt(p.value));
      RowIsLaid(data, at + p.length, end, body + n, vs[1..]);
      LaidIsRow(data, at + p.length, end, body + n, vs[1..]);
      LaidMore(data, at, end, body, vs, n);
    } else {
      NoColumn(data, at, end, body, vs);
    }
  }

  lemma NoColumn(data: seq<byte>, at: nat, end: int, body: int, vs: seq<Value>)
    requires DecodeColumns(data, at, end, body) == Row(vs) && !(body < |data| || at < end)
    ensures Laid(data, at, end, body, vs)
  {
  }

  /** The decoder gives a row for exactly the well-formed records: a header size, as many serial types as
      fill the header exactly, none of them reserved, and bodies that fill the rest exactly. */
  lemma RowIff(data: seq<byte>, vs: seq<Value>)
    ensures DecodeRecord(data) == Row(vs) <==>
              var p := DecodeVarint(data, 0); p.Parsed? && Laid(data, p.length, ToInt(p.value), ToInt(p.value), vs)
  {
    var p := DecodeVarint(data, 0);
    hide Laid, DecodeColumns, DecodeVarint;
    if p.Parsed? {
      if Laid(data, p.length, ToInt(p.value), ToInt(p.value), vs) {
        LaidIsRow(data, p.length, ToInt(p.value), ToInt(p.value), vs);
      }
      if DecodeRecord(data) == Row(vs) {
        RowIsLaid(data, p.length, ToInt(p.value), ToInt(p.value), vs);
      }
    }
  }
}
