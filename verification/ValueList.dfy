/** The growable array that holds the values of a decoded row. */
module ValueList {
  import opened Numbers

  datatype Value =
    | Null
    | Integer(i: int)
    | Number(raw: seq<byte>)   // a floating-point number, as its eight bytes
    | Text(text: seq<byte>)
    | Binary(bytes: seq<byte>)

  const STEP: nat := 8 * 1024 * 1024

  class Values {
    var count: nat
    var capacity: nat
    var values: array<Value>

    ghost predicate Valid()
      reads this
    {
      count <= capacity && (capacity > 0 ==> values.Length == capacity + 1)
    }

    /** The list it stands for. */
    ghost function Contents(): (s: seq<Value>)
      requires Valid()
      reads this, values
      ensures |s| == count
    {
      if capacity == 0 then [] else values[..count]
    }

    /** sqliterkValuesAlloc */
    constructor ()
      ensures Valid() && Contents() == [] && fresh(values) && capacity == 4
    {
      count, capacity := 0, 0;
      values := new Value[0];
      new;
      AutoGrow();
    }

    /** sqliterkValuesAutoGrow: afterwards there is room for one more, and the list is the same. */
    method AutoGrow()
      requires Valid()
      modifies this`capacity, this`values
      ensures Valid() && count < capacity && Contents() == old(Contents())
      ensures if old(count) < old(capacity) then values == old(values) && capacity == old(capacity) else fresh(values)
      ensures old(capacity) == 0 ==> capacity == 4
    {
      if count >= capacity {
        var oldCapacity, newCapacity := capacity, 0;
        if oldCapacity <= 0 {
          newCapacity := 4;
        } else if oldCapacity > STEP {
          newCapacity := oldCapacity + STEP;
        } else {
          newCapacity := oldCapacity * 2;
        }
        var newValues := new Value[newCapacity + 1](_ => Null);
        forall i | 0 <= i < oldCapacity { newValues[i] := values[i]; }
        values := newValues;
        capacity := newCapacity;
      }
    }

    /** The sqliterkValuesAdd functions: append one value. */
    method Add(v: Value)
      requires Valid()
      modifies this, values
      ensures Valid() && Contents() == old(Contents()) + [v]
      ensures values == old(values) || fresh(values)
    {
      AutoGrow();
      values[count] := v;
      count := count + 1;
    }

    /** sqliterkValuesClear: the list is empty, the room stays. */
    method Clear()
      requires Valid()
      modifies this`count, values
      ensures Valid() && Contents() == [] && capacity == old(capacity)
    {
      var i := 0;
      while i < count
        invariant i <= count
        modifies values
      {
        values[i] := Null;
        i := i + 1;
      }
      count := 0;
    }

    /** The whole list, as a client of the row sees it. */
    method All() returns (s: seq<Value>)
      requires Valid()
      ensures s == Contents()
    {
      s := if capacity == 0 then [] else values[..count];
    }

    /** The value at an index; null past the end. */
    ghost function At(index: nat): Value
      requires Valid()
      reads this, values
    {
      if index < |Contents()| then Contents()[index] else Null
    }

    /** sqliterkValuesGetType */
    method GetType(index: nat) returns (t: ValueType)
      requires Valid()
      ensures t == TypeOf(At(index))
    {
      t := if index < count then TypeOf(values[index]) else NullType;
    }

    /** sqliterkValuesGetInteger64.  convert is what the C library makes of floating-point numbers and of
        texts. */
    method GetInteger64(index: nat, convert: Value -> int) returns (out: int)
      requires Valid()
      ensures out == IntegerOf(At(index), convert)
      ensures At(index).Integer? ==> out == At(index).i
      ensures At(index).Null? || At(index).Binary? ==> out == 0
      ensures At(index).Number? || At(index).Text? ==> out == convert(At(index))
    {
      out := 0;
      if index < count {
        match values[index]
        case Integer(i) => out := i;
        case Number(_) => out := convert(values[index]);
        case Text(_) => out := convert(values[index]);
        case _ =>
      }
    }

    /** sqliterkValuesGetText: the text, or nothing for other values. */
    method GetText(index: nat) returns (found: bool, text: seq<byte>)
      requires Valid()
      ensures found == At(index).Text? && text == if found then At(index).text else []
    {
      found, text := false, [];
      if index < count && values[index].Text? { found, text := true, values[index].text; }
    }

    /** sqliterkValuesGetBinary and sqliterkValuesGetBytes: the blob, or nothing for other values; and
        the length of a blob or a text, 0 for other values. */
    method GetBinary(index: nat) returns (found: bool, bytes: seq<byte>, length: nat)
      requires Valid()
      ensures found == At(index).Binary? && bytes == if found then At(index).bytes else []
      ensures length == if At(index).Text? then |At(index).text| else |bytes|
    {
      found, bytes, length := false, [], 0;
      if index < count {
        match values[index]
        case Binary(b) => found, bytes, length := true, b, |b|;
        case Text(t) => length := |t|;
        case _ =>
      }
    }
  }

  /** Integers are given as they are, and what is no number as 0. */
  function IntegerOf(v: Value, convert: Value -> int): int {
    match v
    case Integer(i) => i
    case Number(_) => convert(v)
    case Text(_) => convert(v)
    case _ => 0
  }

  datatype ValueType = NullType | IntegerType | NumberType | TextType | BinaryType

  function TypeOf(v: Value): ValueType {
    match v
    case Null => NullType
    case Integer(_) => IntegerType
    case Number(_) => NumberType
    case Text(_) => TextType
    case Binary(_) => BinaryType
  }
}
