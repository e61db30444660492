/**
 * Typed access to one cell of a decoded column: absence checks, value
 * extraction and the logical-type dispatch behind GetValue and IsDBNull.
 * Absence is decided by the array's runtime representation, not by the
 * field's declared nullability.
 */
module Accessor {
  import opened Exceptions
  import opened ParquetSource
  import Schema

  /** What GetValue returns: DBNull, a boxed value, or the UTC DateTime of a DateTimeOffset. */
  datatype Boxed = DBNull | Value(clrType: ClrType, cell: Cell) | UtcDateTime(offset: Cell)

  /** How the switch of GetValue and IsDBNull treats a logical tag. */
  datatype Dispatch =
    | ValueTyped(elem: ClrType)      // read as T?[] or T[] for a value type T
    | ReferenceTyped(elem: ClrType)  // read as an array of a reference type
    | NotImplementedTag
    | UnsupportedTag

  /** The dispatch table; note that the Short tag is read with element type float. */
  function DispatchOf(tag: DataType): Dispatch {
    match tag
    case Boolean => ValueTyped(ClrBool)
    case Byte => ValueTyped(ClrByte)
    case Int16 => ValueTyped(ClrInt16)
    case Int32 => ValueTyped(ClrInt32)
    case Int64 => ValueTyped(ClrInt64)
    case Short => ValueTyped(ClrSingle)
    case Double => ValueTyped(ClrDouble)
    case TimeSpan => NotImplementedTag
    case DateTimeOffset => ValueTyped(ClrDateTimeOffset)
    case Decimal => ValueTyped(ClrDecimal)
    case String => ReferenceTyped(ClrString)
    case ByteArray => ReferenceTyped(ClrByteArray)
    case _ => UnsupportedTag
  }

  /**
   * IsNull<T>: true only for an empty slot of a T?[] array; any other array
   * (a bare T[] in particular) is never null and is not even indexed.
   */
  function IsNull(t: ClrType, col: ColumnData, offset: int): (r: Result<bool>)
    ensures !(col.Optional? && col.elem == t) ==> r == Ok(false)
    ensures r == Ok(true) ==> col.AbsentAt(offset)
    ensures col.Optional? && col.elem == t && 0 <= offset < col.Length() ==> r == Ok(col.AbsentAt(offset))
    ensures col.Optional? && col.elem == t && !(0 <= offset < col.Length()) ==> r == Throw(IndexOutOfRange)
    ensures r.Throw? ==> r.error == IndexOutOfRange && !(0 <= offset < col.Length())
  {
    if col.Optional? && col.elem == t then
      if 0 <= offset < |col.slots| then Ok(col.slots[offset].None?) else Throw(IndexOutOfRange)
    else
      Ok(false)
  }

  /**
   * MaybeGetValue<T>: the slot of a T?[] array, or the value of a T[] array;
   * any other array fails the cast.
   */
  function MaybeGetValue(t: ClrType, col: ColumnData, offset: int): (r: Result<Option<Cell>>)
    ensures r.Ok? <==> !col.References? && col.elem == t && 0 <= offset < col.Length()
    ensures r.Ok? ==> r.value == col.SlotAt(offset)
    ensures r == Ok(None) ==> col.Optional?
    ensures r.Throw? ==>
      r.error == (if !col.References? && col.elem == t then IndexOutOfRange else InvalidCast)
  {
    if col.Optional? && col.elem == t then
      if 0 <= offset < |col.slots| then Ok(col.slots[offset]) else Throw(IndexOutOfRange)
    else if col.Bare? && col.elem == t then
      if 0 <= offset < |col.cells| then Ok(Some(col.cells[offset])) else Throw(IndexOutOfRange)
    else
      Throw(InvalidCast)
  }

  /** GetValue<T>, behind the typed getters: the value, failing on an empty slot. */
  function UnwrapValue(t: ClrType, col: ColumnData, offset: int): (r: Result<Cell>)
    ensures r.Ok? ==>
      !col.References? && col.elem == t && 0 <= offset < col.Length() && col.SlotAt(offset) == Some(r.value)
    ensures IsNull(t, col, offset) == Ok(true) ==> r == Throw(InvalidOperation)
    ensures !col.References? && col.elem == t && 0 <= offset < col.Length() && col.SlotAt(offset).Some? ==>
              r == Ok(col.SlotAt(offset).value)
    ensures !(!col.References? && col.elem == t) ==> r == Throw(InvalidCast)
    ensures !col.References? && col.elem == t && !(0 <= offset < col.Length()) ==> r == Throw(IndexOutOfRange)
  {
    match MaybeGetValue(t, col, offset)
    case Throw(e) => Throw(e)
    case Ok(None) => Throw(InvalidOperation)
    case Ok(Some(v)) => Ok(v)
  }

  /** `((T[])data)[offset]` for a reference type T: the slot, possibly null. */
  function ReferenceAt(t: ClrType, col: ColumnData, offset: int): (r: Result<Option<Cell>>)
    ensures r.Ok? <==> col.References? && col.elem == t && 0 <= offset < col.Length()
    ensures r.Ok? ==> r.value == col.SlotAt(offset)
    ensures r.Throw? ==> r.error == (if col.References? && col.elem == t then IndexOutOfRange else InvalidCast)
  {
    if col.References? && col.elem == t then
      if 0 <= offset < |col.slots| then Ok(col.slots[offset]) else Throw(IndexOutOfRange)
    else
      Throw(InvalidCast)
  }

  /** GetObject<T> (and GetString): the referenced value; a null slot is an invalid cast. */
  function GetObject(t: ClrType, col: ColumnData, offset: int): (r: Result<Cell>)
    ensures r.Ok? ==>
      col.References? && col.elem == t && 0 <= offset < col.Length() && col.SlotAt(offset) == Some(r.value)
    ensures col.References? && col.elem == t && col.AbsentAt(offset) ==> r == Throw(InvalidCast)
    ensures col.References? && col.elem == t && 0 <= offset < col.Length() && col.SlotAt(offset).Some? ==>
              r == Ok(col.SlotAt(offset).value)
    ensures !(col.References? && col.elem == t) ==> r == Throw(InvalidCast)
    ensures col.References? && col.elem == t && !(0 <= offset < col.Length()) ==> r == Throw(IndexOutOfRange)
  {
    match ReferenceAt(t, col, offset)
    case Throw(e) => Throw(e)
    case Ok(None) => Throw(InvalidCast)
    case Ok(Some(v)) => Ok(v)
  }

  /**
   * GetValue(ordinal) given the field, its resident column (None when no row
   * group was ever loaded) and the current offset.
   */
  function BoxedValue(field: Field, column: Option<ColumnData>, offset: int): (r: Result<Boxed>)
    ensures DispatchOf(field.dataType) == NotImplementedTag ==> r == Throw(NotImplemented)
    ensures DispatchOf(field.dataType) == UnsupportedTag ==> r == Throw(NotSupported)
    ensures column.None? && (DispatchOf(field.dataType).ValueTyped? || DispatchOf(field.dataType).ReferenceTyped?) ==>
              r == Throw(NullReference)
    ensures r == Ok(DBNull) ==> column.Some? && column.value.AbsentAt(offset)
    ensures r.Ok? && r.value.Value? ==>
      column.Some? && r.value.clrType == column.value.elem &&
      0 <= offset < column.value.Length() && column.value.SlotAt(offset) == Some(r.value.cell)
    ensures r.Ok? && r.value.UtcDateTime? ==>
      field.dataType == DateTimeOffset && column.Some? &&
      0 <= offset < column.value.Length() && column.value.SlotAt(offset) == Some(r.value.offset)
    // A value-typed tag over the T?[] or T[] array of its element type.
    ensures DispatchOf(field.dataType).ValueTyped? && column.Some? ==>
      var t := DispatchOf(field.dataType).elem;
      var col := column.value;
      && (r.Ok? <==> !col.References? && col.elem == t && 0 <= offset < col.Length())
      && (!(!col.References? && col.elem == t) ==> r == Throw(InvalidCast))
      && (!col.References? && col.elem == t && !(0 <= offset < col.Length()) ==> r == Throw(IndexOutOfRange))
      && (r.Ok? && col.SlotAt(offset).None? ==> r == Ok(DBNull))
      && (r.Ok? && col.SlotAt(offset).Some? && t != ClrDateTimeOffset ==> r == Ok(Value(t, col.SlotAt(offset).value)))
      && (r.Ok? && col.SlotAt(offset).Some? && t == ClrDateTimeOffset ==> r == Ok(UtcDateTime(col.SlotAt(offset).value)))
    // A reference-typed tag over the reference array of its element type.
    ensures DispatchOf(field.dataType).ReferenceTyped? && column.Some? ==>
      var t := DispatchOf(field.dataType).elem;
      var col := column.value;
      && (r.Ok? <==> col.References? && col.elem == t && 0 <= offset < col.Length())
      && (!(col.References? && col.elem == t) ==> r == Throw(InvalidCast))
      && (col.References? && col.elem == t && !(0 <= offset < col.Length()) ==> r == Throw(IndexOutOfRange))
      && (r.Ok? && col.SlotAt(offset).None? ==> r == Ok(DBNull))
      && (r.Ok? && col.SlotAt(offset).Some? ==> r == Ok(Value(t, col.SlotAt(offset).value)))
  {
    match DispatchOf(field.dataType)
    case NotImplementedTag => Throw(NotImplemented)
    case UnsupportedTag => Throw(NotSupported)
    case ValueTyped(t) =>
      if column.None? then Throw(NullReference)
      else
        (match MaybeGetValue(t, column.value, offset)
         case Throw(e) => Throw(e)
         case Ok(None) => Ok(DBNull)
         case Ok(Some(v)) => if t == ClrDateTimeOffset then Ok(UtcDateTime(v)) else Ok(Value(t, v)))
    case ReferenceTyped(t) =>
      if column.None? then Throw(NullReference)
      else
        (match ReferenceAt(t, column.value, offset)
         case Throw(e) => Throw(e)
         case Ok(None) => Ok(DBNull)
         case Ok(Some(v)) => Ok(Value(t, v)))
  }

  /**
   * IsDBNull(ordinal) given the field, its resident column and the current
   * offset: false for a field declared without nulls, otherwise the absence
   * check of the field's logical type.
   */
  function IsDBNullCell(field: Field, column: Option<ColumnData>, offset: int): (r: Result<bool>)
    ensures !field.hasNulls ==> r == Ok(false)
    ensures field.hasNulls && DispatchOf(field.dataType) == NotImplementedTag ==> r == Throw(NotImplemented)
    ensures field.hasNulls && DispatchOf(field.dataType) == UnsupportedTag ==> r == Throw(NotSupported)
    ensures r == Ok(true) ==> column.Some? && column.value.AbsentAt(offset)
    ensures field.hasNulls && DispatchOf(field.dataType).ValueTyped? && column.Some? ==>
      (r == Ok(true) <==>
         column.value.Optional? && column.value.elem == DispatchOf(field.dataType).elem &&
         column.value.AbsentAt(offset))
    ensures DispatchOf(field.dataType).ValueTyped? && column.Some? && column.value.Bare? ==> r == Ok(false)
    // A value-typed tag only fails on its own T?[] array indexed out of range: every other array answers.
    ensures field.hasNulls && DispatchOf(field.dataType).ValueTyped? && column.Some? &&
            !(column.value.Optional? && column.value.elem == DispatchOf(field.dataType).elem &&
              !(0 <= offset < column.value.Length())) ==>
      r.Ok?
    ensures field.hasNulls && DispatchOf(field.dataType).ReferenceTyped? && column.Some? &&
            column.value.References? && column.value.elem == DispatchOf(field.dataType).elem &&
            0 <= offset < column.value.Length() ==>
      r == Ok(column.value.AbsentAt(offset))
    ensures field.hasNulls && DispatchOf(field.dataType).ReferenceTyped? && column.Some? &&
            !(column.value.References? && column.value.elem == DispatchOf(field.dataType).elem) ==>
      r == Throw(InvalidCast)
    ensures field.hasNulls && column.Some? &&
            ((DispatchOf(field.dataType).ValueTyped? && column.value.Optional?) ||
             (DispatchOf(field.dataType).ReferenceTyped? && column.value.References?)) &&
            column.value.elem == DispatchOf(field.dataType).elem &&
            !(0 <= offset < column.value.Length()) ==>
      r == Throw(IndexOutOfRange)
    ensures field.hasNulls && (DispatchOf(field.dataType).ValueTyped? || DispatchOf(field.dataType).ReferenceTyped?) &&
            column.None? ==>
      r == Throw(NullReference)
  {
    if !field.hasNulls then Ok(false)
    else
      match DispatchOf(field.dataType)
      case NotImplementedTag => Throw(NotImplemented)
      case UnsupportedTag => Throw(NotSupported)
      case ValueTyped(t) =>
        if column.None? then Throw(NullReference) else IsNull(t, column.value, offset)
      case ReferenceTyped(t) =>
        if column.None? then Throw(NullReference)
        else
          match ReferenceAt(t, column.value, offset)
          case Throw(e) => Throw(e)
          case Ok(slot) => Ok(slot.None?)
  }

  /**
   * The two absence paths agree: for a field declared with nulls, GetValue
   * yields DBNull exactly when IsDBNull says true.
   */
  lemma DBNullExactlyWhenIsDBNull(field: Field, column: Option<ColumnData>, offset: int)
    ensures field.hasNulls ==>
      (BoxedValue(field, column, offset) == Ok(DBNull) <==> IsDBNullCell(field, column, offset) == Ok(true))
  {
    match DispatchOf(field.dataType)
    case NotImplementedTag =>
    case UnsupportedTag =>
    case ValueTyped(t) =>
      if column.Some? {
        var m := MaybeGetValue(t, column.value, offset);
        assert m == Ok(None) <==> IsNull(t, column.value, offset) == Ok(true);
      }
    case ReferenceTyped(t) =>
  }

  /**
   * The declared flag is not the representation: a field declared without
   * nulls whose column is still a nullable array reports IsDBNull false,
   * while GetValue yields DBNull for its empty slot.
   */
  lemma DeclaredFlagIsNotRepresentation()
    ensures var field := Field("Value", Double, false, ClrDouble);
            var column := Some(Optional(ClrDouble, [None]));
            IsDBNullCell(field, column, 0) == Ok(false) && BoxedValue(field, column, 0) == Ok(DBNull)
  {
  }

  /**
   * The Short tag is read with element type float: over a short?[] column
   * IsDBNull misses the empty slot and GetValue fails the cast, and a column
   * tagged Float is not supported at all.
   */
  lemma ShortTagReadAsFloat()
    ensures var short := Field("s", Short, true, ClrInt16);
            var column := Some(Optional(ClrInt16, [None]));
            IsDBNullCell(short, column, 0) == Ok(false) &&
            BoxedValue(short, column, 0) == Throw(InvalidCast)
    ensures var float := Field("f", Float, true, ClrSingle);
            var column := Some(Optional(ClrSingle, [None]));
            IsDBNullCell(float, column, 0) == Throw(NotSupported) &&
            BoxedValue(float, column, 0) == Throw(NotSupported)
  {
  }

  /**
   * A byte[] field is described as a non-nullable string column, yet an
   * empty slot of its array is reported by IsDBNull and read as DBNull.
   */
  lemma ByteArrayNullabilityGap()
    ensures var field := Field("b", ByteArray, true, ClrByteArray);
            var column := Some(References(ClrByteArray, [None]));
            !Schema.DbColumnOf(field, 0).allowDBNull &&
            IsDBNullCell(field, column, 0) == Ok(true) &&
            BoxedValue(field, column, 0) == Ok(DBNull)
  {
  }

  /** The Id column of the three-row scenario: a bare int array, never null. */
  lemma ScenarioIds()
    ensures var id := Field("Id", Int32, false, ClrInt32);
            var ids := Some(Bare(ClrInt32, [Cell(1), Cell(2), Cell(3)]));
            IsDBNullCell(id, ids, 2) == Ok(false) && BoxedValue(id, ids, 0) == Ok(Value(ClrInt32, Cell(1)))
  {
  }

  /** The Name column of the three-row scenario: a string array whose second entry is null. */
  lemma ScenarioNames()
    ensures var name := Field("Name", String, true, ClrString);
            var names := Some(References(ClrString, [Some(Cell(10)), None, Some(Cell(12))]));
            && IsDBNullCell(name, names, 1) == Ok(true) && IsDBNullCell(name, names, 2) == Ok(false)
            && BoxedValue(name, names, 0) == Ok(Value(ClrString, Cell(10)))
            && BoxedValue(name, names, 1) == Ok(DBNull)
  {
  }

  /** The Value column of the three-row scenario: a double?[] array whose third slot is empty. */
  lemma ScenarioValues()
    ensures var value := Field("Value", Double, true, ClrDouble);
            var values := Some(Optional(ClrDouble, [Some(Cell(314)), Some(Cell(5)), None]));
            && IsDBNullCell(value, values, 1) == Ok(false) && IsDBNullCell(value, values, 2) == Ok(true)
            && BoxedValue(value, values, 0) == Ok(Value(ClrDouble, Cell(314)))
            && BoxedValue(value, values, 2) == Ok(DBNull)
  {
  }

  /**
   * Three rows (Id, Name, Value) = (1, "a", 3.14), (2, null, 5), (3, "c", null):
   * row 2 has an absent Name and a present Value, row 3 the reverse, and the
   * present cells read back as stored.
   */
  lemma ThreeRowScenario()
    ensures
      var id := Field("Id", Int32, false, ClrInt32);
      var name := Field("Name", String, true, ClrString);
      var value := Field("Value", Double, true, ClrDouble);
      var ids := Some(Bare(ClrInt32, [Cell(1), Cell(2), Cell(3)]));
      var names := Some(References(ClrString, [Some(Cell(10)), None, Some(Cell(12))]));
      var values := Some(Optional(ClrDouble, [Some(Cell(314)), Some(Cell(5)), None]));
      && IsDBNullCell(name, names, 1) == Ok(true) && IsDBNullCell(value, values, 1) == Ok(false)
      && IsDBNullCell(name, names, 2) == Ok(false) && IsDBNullCell(value, values, 2) == Ok(true)
      && IsDBNullCell(id, ids, 2) == Ok(false)
      && BoxedValue(id, ids, 0) == Ok(Value(ClrInt32, Cell(1)))
      && BoxedValue(name, names, 0) == Ok(Value(ClrString, Cell(10)))
      && BoxedValue(value, values, 0) == Ok(Value(ClrDouble, Cell(314)))
      && BoxedValue(name, names, 1) == Ok(DBNull)
      && BoxedValue(value, values, 2) == Ok(DBNull)
  {
    ScenarioIds();
    ScenarioNames();
    ScenarioValues();
  }
}
