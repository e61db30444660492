/**
 * The column-chunk decoder seen from the data reader: a schema of data fields
 * and a sequence of row groups, each holding one decoded array per field.
 * The decoder itself is an oracle; cell values are opaque.
 */
module ParquetSource {
  import opened Exceptions

  /** Logical type tags of the decoder's DataType enumeration. */
  datatype DataType =
    | Unspecified | Boolean | Byte | SignedByte | UnsignedByte | Short | UnsignedShort
    | Int16 | UnsignedInt16 | Int32 | Int64 | Int96 | ByteArray | String | Float
    | Double | Decimal | DateTimeOffset | Interval | TimeSpan

  /** The CLR types that fields, arrays and schema columns are typed with. */
  datatype ClrType =
    | ClrBool | ClrByte | ClrChar | ClrInt16 | ClrInt32 | ClrInt64 | ClrSingle
    | ClrDouble | ClrDecimal | ClrGuid | ClrDateTimeOffset | ClrDateTime | ClrTimeSpan
    | ClrString | ClrByteArray | ClrOther

  /** A data field of the file schema: name, logical tag, declared nullability, CLR type. */
  datatype Field = Field(name: string, dataType: DataType, hasNulls: bool, clrType: ClrType)

  /** An opaque decoded value; the reader never inspects it. */
  datatype Cell = Cell(id: nat)

  /**
   * One decoded column of one row group, by its runtime array type:
   * `T[]` (Bare), `T?[]` for a value type T (Optional), or an array of a
   * reference type whose slots may be null (References: string[], byte[][]).
   */
  datatype ColumnData =
    | Bare(elem: ClrType, cells: seq<Cell>)
    | Optional(elem: ClrType, slots: seq<Option<Cell>>)
    | References(elem: ClrType, slots: seq<Option<Cell>>)
  {
    function Length(): nat {
      match this
      case Bare(_, cells) => |cells|
      case Optional(_, slots) => |slots|
      case References(_, slots) => |slots|
    }

    /** The slot at `offset`; a bare array always holds a value. */
    function SlotAt(offset: nat): Option<Cell>
      requires offset < Length()
    {
      match this
      case Bare(_, cells) => Some(cells[offset])
      case Optional(_, slots) => slots[offset]
      case References(_, slots) => slots[offset]
    }

    /** The slot at `offset` exists and holds no value. */
    predicate AbsentAt(offset: int) {
      0 <= offset < Length() && SlotAt(offset).None?
    }
  }

  datatype RowGroup = RowGroup(rowCount: nat, columns: seq<ColumnData>)

  datatype Source = Source(fields: seq<Field>, groups: seq<RowGroup>)

  /**
   * What the decoder guarantees: every row group yields one column per field,
   * and every column of a group has exactly that group's row count.
   */
  predicate WellFormed(src: Source) {
    forall g :: 0 <= g < |src.groups| ==>
      |src.groups[g].columns| == |src.fields| &&
      forall i :: 0 <= i < |src.fields| ==> src.groups[g].columns[i].Length() == src.groups[g].rowCount
  }

  /** The row count of each group, in file order. */
  function RowCounts(groups: seq<RowGroup>): (counts: seq<nat>)
    ensures |counts| == |groups|
    ensures forall g :: 0 <= g < |groups| ==> counts[g] == groups[g].rowCount
  {
    seq(|groups|, g requires 0 <= g < |groups| => groups[g].rowCount)
  }
}
