/**
 * ParquetDataReader: a forward-only row cursor over a file stored in row
 * groups. It keeps exactly one row group's decoded columns resident, moves
 * through rows with Read, and answers typed and untyped questions about the
 * current row.
 */
module DataReader {
  import opened Exceptions
  import opened ParquetSource
  import opened Schema
  import opened Accessor
  import opened RowCursor

  /** The length of the longest prefix of `row` in which no call threw. */
  function OkPrefix(row: seq<Result<Boxed>>): (k: nat)
    ensures k <= |row|
    ensures forall i :: 0 <= i < k ==> row[i].Ok?
    ensures k < |row| ==> row[k].Throw?
  {
    if row == [] || row[0].Throw? then 0 else 1 + OkPrefix(row[1..])
  }

  /**
   * Copies the values of `row` into the first slots of `values`, in order,
   * until one of them is an exception, which becomes the answer.
   */
  method Fill(values: array<Boxed>, row: seq<Result<Boxed>>) returns (r: Result<nat>)
    requires |row| <= values.Length
    modifies values
    ensures var k := OkPrefix(row);
      && r == (if k < |row| then Throw(row[k].error) else Ok(|row|))
      && (forall i :: 0 <= i < k ==> row[i] == Ok(values[i]))
      && (forall i :: k <= i < values.Length ==> values[i] == old(values[i]))
  {
    ghost var k := OkPrefix(row);
    var i := 0;
    while i < |row|
      invariant 0 <= i <= |row| && i <= k
      invariant forall j :: 0 <= j < i ==> row[j] == Ok(values[j])
      invariant forall j :: i <= j < values.Length ==> values[j] == old(values[j])
    {
      if row[i].Throw? {
        return Throw(row[i].error);
      }
      values[i] := row[i].value;
      i := i + 1;
    }
    return Ok(|row|);
  }

  class ParquetDataReader {
    const reader: Source
    var rowGroup: Option<RowGroup>  // None until a row group is opened
    var groupIdx: int
    var groupOffset: int
    var rowIdx: int
    var hasRows: bool
    const columns: array<Option<ColumnData>>  // the resident group's arrays, one per field
    const dfs: seq<Field>
    const schema: seq<DbColumn>
    const fieldCount: int

    function CurrentPosition(): Position
      reads this
    {
      Position(groupIdx, groupOffset, rowIdx)
    }

    /** The row group whose arrays are resident, or -1 when none was opened. */
    function LoadedGroup(): (g: int)
      reads this
      ensures -1 <= g < |reader.groups|
    {
      if groupIdx < 0 then -1 else Resident(RowCounts(reader.groups), groupIdx)
    }

    /** Schema, resident row group and columns agree with the source and the position. */
    ghost predicate Positioned()
      reads this, columns
    {
      && WellFormed(reader)
      && dfs == reader.fields && fieldCount == |dfs| && columns.Length == fieldCount
      && schema == Projection(dfs)
      && -1 <= groupIdx && -1 <= groupOffset
      && (LoadedGroup() < 0 ==>
            rowGroup.None? && forall i :: 0 <= i < fieldCount ==> columns[i].None?)
      && (LoadedGroup() >= 0 ==>
            rowGroup == Some(reader.groups[LoadedGroup()]) &&
            forall i :: 0 <= i < fieldCount ==> columns[i] == Some(reader.groups[LoadedGroup()].columns[i]))
    }

    ghost predicate Valid()
      reads this, columns
    {
      && Positioned()
      && 0 <= groupIdx
      && Reachable(RowCounts(reader.groups), CurrentPosition())
      && hasRows == (|reader.groups| > 0 && reader.groups[0].rowCount > 0)
    }

    /**
     * Builds one schema column per field, keeping field order, then opens the
     * first row group, if there is one.
     */
    constructor (reader: Source)
      requires WellFormed(reader)
      ensures Valid() && this.reader == reader && fresh(columns)
      ensures FieldCount() == |reader.fields|
      ensures forall i :: 0 <= i < |schema| ==> schema[i].columnOrdinal == i && schema[i].columnName == reader.fields[i].name
      ensures HasRows() <==> |reader.groups| > 0 && reader.groups[0].rowCount > 0
      ensures IsClosed()
      ensures CurrentPosition() == Opened(RowCounts(reader.groups))
    {
      this.reader := reader;
      rowIdx := Closed;
      groupIdx := -1;
      groupOffset := 0;
      rowGroup := None;
      hasRows := false;
      var n := |reader.fields|;
      fieldCount := n;
      columns := new Option<ColumnData>[n](_ => None);
      var schemaColumns: seq<DbColumn> := [];
      var fields: seq<Field> := [];
      var i := 0;
      while i < n
        invariant 0 <= i <= n
        invariant fields == reader.fields[..i]
        invariant |schemaColumns| == i
        invariant forall k :: 0 <= k < i ==> schemaColumns[k] == DbColumnOf(reader.fields[k], k)
      {
        var df := reader.fields[i];
        fields := fields + [df];
        schemaColumns := schemaColumns + [DbColumnOf(df, i)];
        i := i + 1;
      }
      assert fields == reader.fields;
      dfs := fields;
      schema := schemaColumns;
      new;
      var hasGroup := NextRowGroup();
      hasRows := hasGroup && rowGroup.value.rowCount > 0;
    }

    /**
     * Moves to the next row group: always advances groupIdx; if that group
     * exists, opens it, resets the offset to before its first row and decodes
     * every column of it, otherwise leaves everything else as it was.
     */
    method NextRowGroup() returns (ok: bool)
      requires Positioned()
      modifies this`groupIdx, this`rowGroup, this`groupOffset, columns
      ensures Positioned()
      ensures groupIdx == old(groupIdx) + 1
      ensures ok <==> groupIdx < |reader.groups|
      ensures !ok ==> groupOffset == old(groupOffset) && rowGroup == old(rowGroup) && columns[..] == old(columns[..])
      ensures ok ==>
        groupOffset == -1 && rowGroup == Some(reader.groups[groupIdx]) &&
        forall i :: 0 <= i < fieldCount ==> columns[i] == Some(reader.groups[groupIdx].columns[i])
    {
      groupIdx := groupIdx + 1;
      if groupIdx >= |reader.groups| {
        return false;
      }
      var group := reader.groups[groupIdx];
      rowGroup := Some(group);
      groupOffset := -1;
      var i := 0;
      while i < fieldCount
        invariant 0 <= i <= fieldCount
        invariant forall k :: 0 <= k < i ==> columns[k] == Some(group.columns[k])
        modifies columns
      {
        columns[i] := Some(group.columns[i]);
        i := i + 1;
      }
      return true;
    }

    /** Advances to the next row; the new position is the one ReadStep gives. */
    method Read() returns (r: Result<bool>)
      requires Valid()
      modifies this`groupIdx, this`rowGroup, this`groupOffset, this`rowIdx, columns
      ensures Valid()
      ensures (r, CurrentPosition()) == ReadStep(RowCounts(reader.groups), old(CurrentPosition()))
    {
      ReadStepKeepsReachable(RowCounts(reader.groups), CurrentPosition());
      if rowIdx == End {
        return Ok(false);
      }
      groupOffset := groupOffset + 1;
      if rowGroup.None? {
        return Throw(NullReference);
      }
      if groupOffset >= rowGroup.value.rowCount {
        var more := NextRowGroup();
        if more {
          groupOffset := 0;
        } else {
          rowIdx := End;
          return Ok(false);
        }
      }
      return Ok(true);
    }

    /** There is only one result set: resets rowIdx and answers false. */
    method NextResult() returns (r: bool)
      requires Valid()
      modifies this`rowIdx
      ensures Valid() && !r && IsClosed()
    {
      rowIdx := Closed;
      return false;
    }

    function FieldCount(): int
      reads this
    {
      fieldCount
    }

    predicate HasRows()
      reads this
    {
      hasRows
    }

    /** True whenever rowIdx is the constructor's -1, which Read never changes. */
    predicate IsClosed()
      reads this
    {
      rowIdx == Closed
    }

    function GetColumnSchema(): (cols: seq<DbColumn>)
      reads this, columns
      requires Valid()
      ensures |cols| == FieldCount()
      ensures forall i :: 0 <= i < |cols| ==>
        cols[i].columnOrdinal == i && cols[i].columnName == reader.fields[i].name &&
        (cols[i].allowDBNull ==> reader.fields[i].hasNulls)
      ensures cols == Projection(reader.fields)
    {
      schema
    }

    /** GetName: the field's name; the schema collection rejects an ordinal out of range. */
    function GetName(ordinal: int): (r: Result<string>)
      reads this, columns
      requires Valid()
      ensures r.Ok? <==> 0 <= ordinal < FieldCount()
      ensures r.Ok? ==> r.value == reader.fields[ordinal].name
      ensures r.Throw? ==> r.error == ArgumentOutOfRange
    {
      if 0 <= ordinal < |schema| then Ok(schema[ordinal].columnName) else Throw(ArgumentOutOfRange)
    }

    /** GetFieldType: the displayed type, never DateTimeOffset nor byte[]. */
    function GetFieldType(ordinal: int): (r: Result<ClrType>)
      reads this, columns
      requires Valid()
      ensures r.Ok? <==> 0 <= ordinal < FieldCount()
      ensures r.Ok? ==> r.value != ClrDateTimeOffset && r.value != ClrByteArray
      ensures r.Ok? && reader.fields[ordinal].clrType != ClrDateTimeOffset && reader.fields[ordinal].clrType != ClrByteArray ==>
                r.value == reader.fields[ordinal].clrType
      ensures r.Ok? && reader.fields[ordinal].clrType == ClrDateTimeOffset ==> r.value == ClrDateTime
      ensures r.Ok? && reader.fields[ordinal].clrType == ClrByteArray ==> r.value == ClrString
      ensures r.Throw? ==> r.error == ArgumentOutOfRange
    {
      if 0 <= ordinal < |schema| then Ok(schema[ordinal].dataType) else Throw(ArgumentOutOfRange)
    }

    /** GetDataTypeName: the field's logical tag. */
    function GetDataTypeName(ordinal: int): (r: Result<DataType>)
      reads this, columns
      requires Valid()
      ensures r.Ok? <==> 0 <= ordinal < FieldCount()
      ensures r.Ok? ==> r.value == reader.fields[ordinal].dataType
      ensures r.Throw? ==> r.error == ArgumentOutOfRange
    {
      if 0 <= ordinal < |schema| then Ok(schema[ordinal].dataTypeName) else Throw(ArgumentOutOfRange)
    }

    /** The first ordinal whose column name is exactly `name`, or -1. */
    method GetOrdinal(name: string) returns (r: int)
      ensures -1 <= r < |schema|
      ensures r == -1 <==> forall i :: 0 <= i < |schema| ==> schema[i].columnName != name
      ensures r >= 0 ==> schema[r].columnName == name && forall i :: 0 <= i < r ==> schema[i].columnName != name
    {
      var i := 0;
      while i < |schema|
        invariant 0 <= i <= |schema|
        invariant forall k :: 0 <= k < i ==> schema[k].columnName != name
      {
        if schema[i].columnName == name {
          return i;
        }
        i := i + 1;
      }
      return -1;
    }

    /** The resident array of a field; null when no row group was ever opened. */
    function ColumnAt(ordinal: int): (r: Result<ColumnData>)
      reads this, columns
      requires Valid()
      ensures r.Ok? ==> 0 <= ordinal < FieldCount() && LoadedGroup() >= 0 &&
                        r.value == reader.groups[LoadedGroup()].columns[ordinal]
      ensures !(0 <= ordinal < FieldCount()) ==> r == Throw(IndexOutOfRange)
      ensures 0 <= ordinal < FieldCount() && LoadedGroup() < 0 ==> r == Throw(NullReference)
    {
      if !(0 <= ordinal < columns.Length) then Throw(IndexOutOfRange)
      else
        match columns[ordinal]
        case None => Throw(NullReference)
        case Some(col) => Ok(col)
    }

    /** The resident array of a field in the source's terms; None before any row group was opened. */
    ghost function ResidentColumn(ordinal: int): Option<ColumnData>
      reads this, columns
      requires Valid() && 0 <= ordinal < FieldCount()
    {
      if LoadedGroup() < 0 then None else Some(reader.groups[LoadedGroup()].columns[ordinal])
    }

    /**
     * GetValue(ordinal): the current row's cell as a boxed value, or DBNull
     * for an absent cell of the resident group.
     */
    function GetValue(ordinal: int): (r: Result<Boxed>)
      reads this, columns
      requires Valid()
      ensures !(0 <= ordinal < FieldCount()) ==> r == Throw(IndexOutOfRange)
      ensures 0 <= ordinal < FieldCount() && reader.fields[ordinal].hasNulls ==>
                (r == Ok(DBNull) <==> IsDBNull(ordinal) == Ok(true))
      ensures r == Ok(DBNull) ==>
        0 <= ordinal < FieldCount() && LoadedGroup() >= 0 &&
        reader.groups[LoadedGroup()].columns[ordinal].AbsentAt(groupOffset)
      ensures 0 <= ordinal < FieldCount() ==>
        r == BoxedValue(reader.fields[ordinal], ResidentColumn(ordinal), groupOffset)
    {
      if !(0 <= ordinal < |dfs|) then Throw(IndexOutOfRange)
      else
        DBNullExactlyWhenIsDBNull(dfs[ordinal], columns[ordinal], groupOffset);
        BoxedValue(dfs[ordinal], columns[ordinal], groupOffset)
    }

    /**
     * IsDBNull(ordinal): false for a field declared without nulls, otherwise
     * whether the current row's cell is absent in its actual array.
     */
    function IsDBNull(ordinal: int): (r: Result<bool>)
      reads this, columns
      requires Valid()
      ensures !(0 <= ordinal < FieldCount()) ==> r == Throw(IndexOutOfRange)
      ensures 0 <= ordinal < FieldCount() && !reader.fields[ordinal].hasNulls ==> r == Ok(false)
      ensures r == Ok(true) ==>
        0 <= ordinal < FieldCount() && LoadedGroup() >= 0 &&
        reader.groups[LoadedGroup()].columns[ordinal].AbsentAt(groupOffset)
      ensures 0 <= ordinal < FieldCount() ==>
        r == IsDBNullCell(reader.fields[ordinal], ResidentColumn(ordinal), groupOffset)
    {
      if !(0 <= ordinal < |dfs|) then Throw(IndexOutOfRange)
      else IsDBNullCell(dfs[ordinal], columns[ordinal], groupOffset)
    }

    /** GetString: the current string cell; a null one is an invalid cast. */
    function GetString(ordinal: int): (r: Result<Cell>)
      reads this, columns
      requires Valid()
      ensures r.Ok? ==>
        0 <= ordinal < FieldCount() && LoadedGroup() >= 0 &&
        var col := reader.groups[LoadedGroup()].columns[ordinal];
        col.References? && col.elem == ClrString && 0 <= groupOffset < col.Length() &&
        col.SlotAt(groupOffset) == Some(r.value)
      ensures 0 <= ordinal < FieldCount() && LoadedGroup() >= 0 &&
              reader.groups[LoadedGroup()].columns[ordinal].References? &&
              reader.groups[LoadedGroup()].columns[ordinal].elem == ClrString &&
              reader.groups[LoadedGroup()].columns[ordinal].AbsentAt(groupOffset) ==>
                r == Throw(InvalidCast)
      ensures 0 <= ordinal < FieldCount() && LoadedGroup() >= 0 ==>
              var col := reader.groups[LoadedGroup()].columns[ordinal];
              col.References? && col.elem == ClrString && 0 <= groupOffset < col.Length() && col.SlotAt(groupOffset).Some? ==>
                r == Ok(col.SlotAt(groupOffset).value)
      ensures !(0 <= ordinal < FieldCount()) ==> r == Throw(IndexOutOfRange)
      ensures 0 <= ordinal < FieldCount() && LoadedGroup() < 0 ==> r == Throw(NullReference)
      ensures 0 <= ordinal < FieldCount() && LoadedGroup() >= 0 ==>
                r == GetObject(ClrString, reader.groups[LoadedGroup()].columns[ordinal], groupOffset)
      // Against GetValue, for a field tagged String: the same string, and DBNull exactly where this throws InvalidCast.
      ensures 0 <= ordinal < FieldCount() && reader.fields[ordinal].dataType == String ==>
                (forall c :: r == Ok(c) <==> GetValue(ordinal) == Ok(Value(ClrString, c))) &&
                (r == Throw(InvalidCast) <==> GetValue(ordinal) == Ok(DBNull) || GetValue(ordinal) == Throw(InvalidCast))
    {
      match ColumnAt(ordinal)
      case Throw(e) => Throw(e)
      case Ok(col) => GetObject(ClrString, col, groupOffset)
    }

    /**
     * GetValue<T>, behind GetBoolean, GetByte, GetChar, GetInt16, GetInt32,
     * GetInt64, GetFloat, GetDouble, GetDecimal, GetGuid and GetDateTimeOffset:
     * the current cell of a T[] or T?[] array, failing on an empty slot.
     */
    function GetValueAs(t: ClrType, ordinal: int): (r: Result<Cell>)
      reads this, columns
      requires Valid()
      ensures r.Ok? ==>
        0 <= ordinal < FieldCount() && LoadedGroup() >= 0 &&
        var col := reader.groups[LoadedGroup()].columns[ordinal];
        !col.References? && col.elem == t && 0 <= groupOffset < col.Length() &&
        col.SlotAt(groupOffset) == Some(r.value)
      ensures 0 <= ordinal < FieldCount() && LoadedGroup() >= 0 &&
              reader.groups[LoadedGroup()].columns[ordinal].Optional? &&
              reader.groups[LoadedGroup()].columns[ordinal].elem == t &&
              reader.groups[LoadedGroup()].columns[ordinal].AbsentAt(groupOffset) ==>
                r == Throw(InvalidOperation)
      ensures 0 <= ordinal < FieldCount() && LoadedGroup() >= 0 ==>
              var col := reader.groups[LoadedGroup()].columns[ordinal];
              !col.References? && col.elem == t && 0 <= groupOffset < col.Length() && col.SlotAt(groupOffset).Some? ==>
                r == Ok(col.SlotAt(groupOffset).value)
      ensures !(0 <= ordinal < FieldCount()) ==> r == Throw(IndexOutOfRange)
      ensures 0 <= ordinal < FieldCount() && LoadedGroup() < 0 ==> r == Throw(NullReference)
      ensures 0 <= ordinal < FieldCount() && LoadedGroup() >= 0 ==>
                r == UnwrapValue(t, reader.groups[LoadedGroup()].columns[ordinal], groupOffset)
      // Against GetValue, for a field whose tag is read as T (T not DateTimeOffset): the same value, and
      // DBNull exactly where this throws InvalidOperation.
      ensures 0 <= ordinal < FieldCount() && DispatchOf(reader.fields[ordinal].dataType) == ValueTyped(t) && t != ClrDateTimeOffset ==>
                (forall c :: r == Ok(c) <==> GetValue(ordinal) == Ok(Value(t, c))) &&
                (r == Throw(InvalidOperation) <==> GetValue(ordinal) == Ok(DBNull))
    {
      match ColumnAt(ordinal)
      case Throw(e) => Throw(e)
      case Ok(col) => UnwrapValue(t, col, groupOffset)
    }

    /**
     * GetDateTime: GetValue<DateTimeOffset> converted to its UTC DateTime,
     * the same value GetValue boxes for a DateTimeOffset field.
     */
    function GetDateTime(ordinal: int): (r: Result<Boxed>)
      reads this, columns
      requires Valid()
      ensures r.Ok? ==> r.value.UtcDateTime? && GetValueAs(ClrDateTimeOffset, ordinal) == Ok(r.value.offset)
      ensures r.Throw? ==> GetValueAs(ClrDateTimeOffset, ordinal) == Throw(r.error)
      ensures r.Ok? && reader.fields[ordinal].dataType == DateTimeOffset ==> GetValue(ordinal) == r
    {
      match GetValueAs(ClrDateTimeOffset, ordinal)
      case Throw(e) => Throw(e)
      case Ok(dto) => Ok(UtcDateTime(dto))
    }

    /** this[name]: GetValue of GetOrdinal(name); an unknown name is index -1. */
    method GetValueByName(name: string) returns (r: Result<Boxed>)
      requires Valid()
      ensures (forall i :: 0 <= i < |schema| ==> schema[i].columnName != name) ==> r == Throw(IndexOutOfRange)
      ensures forall i ::
        (0 <= i < |schema| && schema[i].columnName == name && forall j :: 0 <= j < i ==> schema[j].columnName != name) ==>
          r == GetValue(i)
    {
      var ordinal := GetOrdinal(name);
      r := GetValue(ordinal);
      // The first ordinal carrying the name is unique, and GetOrdinal found it.
      assert forall i ::
        (0 <= i < |schema| && schema[i].columnName == name && forall j :: 0 <= j < i ==> schema[j].columnName != name) ==>
          i == ordinal;
    }

    /** The GetValue results of every field of the current row, in ordinal order. */
    function CurrentRow(): (row: seq<Result<Boxed>>)
      reads this, columns
      requires Valid()
      ensures |row| == FieldCount()
      ensures forall i :: 0 <= i < |row| ==> row[i] == GetValue(i)
    {
      seq(fieldCount, i reads this, columns requires Valid() && 0 <= i < fieldCount => GetValue(i))
    }

    /**
     * GetValues: writes GetValue(i) into slot i for i below min(buffer length,
     * field count), in ordinal order, and answers that count. The first
     * GetValue that throws stops the fill with its exception; the slots
     * before it are written and every other slot is left as it was.
     */
    method GetValues(values: array?<Boxed>) returns (r: Result<nat>)
      requires Valid()
      modifies values
      ensures values == null ==> r == Throw(ArgumentNull)
      ensures values != null ==>
        var c := if values.Length < FieldCount() then values.Length else FieldCount();
        var row := old(CurrentRow());
        var k := OkPrefix(row[..c]);
        && r == (if k < c then Throw(row[k].error) else Ok(c))
        && (forall i :: 0 <= i < k ==> row[i] == Ok(values[i]))
        && (forall i :: k <= i < values.Length ==> values[i] == old(values[i]))
    {
      if values == null {
        return Throw(ArgumentNull);
      }
      var c := if values.Length < fieldCount then values.Length else fieldCount;
      // GetValue reads only the reader's own state, which the fill leaves
      // alone, so each slot receives exactly the snapshot's value.
      var row := CurrentRow();
      r := Fill(values, row[..c]);
    }
  }
}
