/** The column schema the reader exposes: one descriptor per data field. */
module Schema {
  import opened ParquetSource

  /** A column descriptor (DbColumn) as the reader fills it in. */
  datatype DbColumn = DbColumn(
    columnName: string,
    allowDBNull: bool,
    columnOrdinal: int,
    dataType: ClrType,
    dataTypeName: DataType)  // the logical tag, whose name is the descriptor's type name

  /**
   * ParquetDbColumn: copies the field's name, nullability and logical tag, and
   * coerces the CLR type: DateTimeOffset is shown as DateTime, and byte[] as
   * string with AllowDBNull forced to false.
   */
  function DbColumnOf(field: Field, ordinal: int): (c: DbColumn)
    ensures c.columnName == field.name && c.columnOrdinal == ordinal
    ensures c.dataTypeName == field.dataType
    ensures field.clrType == ClrDateTimeOffset ==> c.dataType == ClrDateTime
    ensures field.clrType == ClrByteArray ==> c.dataType == ClrString && !c.allowDBNull
    ensures field.clrType != ClrDateTimeOffset && field.clrType != ClrByteArray ==> c.dataType == field.clrType
    ensures field.clrType != ClrByteArray ==> c.allowDBNull == field.hasNulls
    ensures c.dataType != ClrDateTimeOffset && c.dataType != ClrByteArray
  {
    var shown := if field.clrType == ClrDateTimeOffset then ClrDateTime else field.clrType;
    if shown == ClrByteArray then
      DbColumn(field.name, false, ordinal, ClrString, field.dataType)
    else
      DbColumn(field.name, field.hasNulls, ordinal, shown, field.dataType)
  }

  /** The descriptors of all fields, in field order. */
  function Projection(fields: seq<Field>): (cols: seq<DbColumn>)
    ensures |cols| == |fields|
    ensures forall i :: 0 <= i < |fields| ==> cols[i] == DbColumnOf(fields[i], i)
    ensures forall i :: 0 <= i < |fields| ==> cols[i].columnOrdinal == i && cols[i].columnName == fields[i].name
  {
    seq(|fields|, i requires 0 <= i < |fields| => DbColumnOf(fields[i], i))
  }
}
