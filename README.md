# ParquetDataReader in Dafny

This project models `ParquetDataReader`, the `DbDataReader` that the
data-convert tool puts over a Parquet file. The reader is a forward-only
cursor. The file is split into row groups, and the reader keeps one row
group's decoded columns resident at a time. It moves through the rows with
`Read` and answers typed and untyped questions about the current row.

The Parquet decoder is an oracle here: a `Source` is a list of data fields and
a list of row groups. Each row group has a row count and one decoded column
array per field. A column array is one of three things: a bare value array
(`T[]`), an optional value array (`T?[]`), or an array of nullable references
(`string[]`, `byte[][]`). Cell values are opaque. .NET exceptions become the
`Throw` case of a `Result`.

Modules:

- `Exceptions` (exceptions.dfy): `Option`, `Result` and the exceptions the reader can raise.
- `ParquetSource` (parquet_source.dfy): the decoder oracle (fields, logical type tags, CLR types, column arrays, row groups).
- `Schema` (schema.dfy): the `ParquetDbColumn` descriptor and the schema projection.
- `Accessor` (accessor.dfy): `IsNull<T>`, `MaybeGetValue<T>`, `GetValue<T>`, `GetObject<T>`, and the type-tag switches behind `GetValue` and `IsDBNull`. These are pure functions of a field, its resident column and the offset.
- `RowCursor` (row_cursor.dfy): the cursor position and a pure `ReadStep`, plus what a sequence of `Read` calls visits.
- `DataReader` (data_reader.dfy): the class `ParquetDataReader`. It has the source's fields. The constructor, `NextRowGroup`, `Read`, `NextResult`, `GetOrdinal` and `GetValues` are methods with loops and state updates. The accessors are functions over the current state.

The model follows the code as written, including these behaviours:

- When `Read` moves into an empty row group after the first one, it sets the offset to 0 and returns true. It does not skip to the next group (`RowCursor.EmptyGroupYieldsPhantomRow`).
- With no row group at all, the row group is never assigned, so the first `Read` throws a null reference (`RowCursor.NoGroupThrows`).
- The logical tag `Short` is read with element type `float`. The tag `Float` is not in the switch, so it is not supported (`Accessor.ShortTagReadAsFloat`).
- `Read` never changes `rowIdx` except to set the `End` sentinel. So `IsClosed` (`rowIdx == -1`) is true from construction onwards and while rows are being read.
- Absence is decided by the array's actual representation, not by the declared nullability (`Accessor.DeclaredFlagIsNotRepresentation`). A `byte[]` field is described as a non-nullable string column, yet its empty slots read as `DBNull` (`Accessor.ByteArrayNullabilityGap`).
- Indexing the schema collection out of range throws `ArgumentOutOfRange`. Indexing `dfs` or `columns` out of range throws `IndexOutOfRange`.

## Model

| member | source | states |
|---|---|---|
| `Schema.DbColumnOf` | data-convert/Parquet/ParquetDataReader.cs:78-92 | Copies the field's name, ordinal and logical tag. DateTimeOffset is shown as DateTime. byte[] is shown as string with AllowDBNull false. No other type changes the displayed type or AllowDBNull (which equals HasNulls). The displayed type is never DateTimeOffset or byte[]. |
| `Schema.Projection` | data-convert/Parquet/ParquetDataReader.cs:45-55 | One descriptor per field, in field order: entry i has ordinal i and field i's name. |
| `Accessor.IsNull` | data-convert/Parquet/ParquetDataReader.cs:127-135 | True exactly for an empty slot of a T?[] array at the offset. Any other array (a bare T[] in particular) is never null and is not indexed. A T?[] array indexed out of range throws IndexOutOfRange. |
| `Accessor.MaybeGetValue` | data-convert/Parquet/ParquetDataReader.cs:114-125 | Succeeds exactly on a T?[] or T[] array with the offset in range, and gives that slot (always present for T[]). Any other array is an invalid cast. An offset out of range is IndexOutOfRange. |
| `Accessor.UnwrapValue` | data-convert/Parquet/ParquetDataReader.cs:137-140 | GetValue<T>: a present slot of a T?[] or T[] array in range gives its value. An empty T?[] slot throws InvalidOperation. Any other array is an invalid cast, and an offset out of range is IndexOutOfRange. Success only on such a present slot. |
| `Accessor.ReferenceAt` | data-convert/Parquet/ParquetDataReader.cs:144-146 | The `(T[])data` cast for a reference type: succeeds exactly on a reference array of T with the offset in range, and gives the possibly-null slot. |
| `Accessor.GetObject` | data-convert/Parquet/ParquetDataReader.cs:142-152 | GetObject<T>: a non-null slot of a T[] reference array in range gives its value. A null slot throws InvalidCast, any other array is an invalid cast, and an offset out of range is IndexOutOfRange. |
| `Accessor.BoxedValue` | data-convert/Parquet/ParquetDataReader.cs:270-309 | The GetValue switch. TimeSpan throws NotImplemented, and tags outside the table throw NotSupported. A missing resident column is a null reference. For a tag read as T: success exactly on the array of T's kind with the offset in range. An empty slot gives DBNull, a present one the boxed cell (the UTC DateTime for DateTimeOffset). Another array is InvalidCast, an offset out of range IndexOutOfRange. |
| `Accessor.IsDBNullCell` | data-convert/Parquet/ParquetDataReader.cs:328-362 | The IsDBNull switch. False when HasNulls is false. For value-typed tags: true iff the array is the T?[] of the dispatched type and the slot is empty. Every other case answers without throwing (a bare array, a present slot, a T?[] of another type, a reference array). The one exception is the dispatched T?[] indexed out of range, which is IndexOutOfRange. For String/ByteArray: true iff the reference is null, another array is InvalidCast, and an offset out of range is IndexOutOfRange. A missing resident column is a null reference. TimeSpan throws NotImplemented; other tags throw NotSupported. |
| `Accessor.DBNullExactlyWhenIsDBNull` | data-convert/Parquet/ParquetDataReader.cs:270-362 | For a field with HasNulls, GetValue yields DBNull exactly when IsDBNull is true. |
| `Accessor.DeclaredFlagIsNotRepresentation` | data-convert/Parquet/ParquetDataReader.cs:328-331 | A field declared without nulls whose array is still T?[] reports IsDBNull false, yet GetValue yields DBNull for its empty slot. |
| `Accessor.ShortTagReadAsFloat` | data-convert/Parquet/ParquetDataReader.cs:285-286 | A Short field over a short?[] array: IsDBNull misses the empty slot and GetValue fails the cast. A Float field is NotSupported for both. |
| `Accessor.ByteArrayNullabilityGap` | data-convert/Parquet/ParquetDataReader.cs:86-90 | A byte[] field is described with AllowDBNull false, yet an empty slot reads as DBNull and IsDBNull reports true. |
| `Accessor.ThreeRowScenario` | Test/Program.cs:19-24 | Rows (1, "a", 3.14), (2, null, 5), (3, "c", null): the absent cells are exactly the null ones, and present cells read back as stored. |
| `RowCursor.ReadStep` | data-convert/Parquet/ParquetDataReader.cs:372-392 | At End: false, and nothing changes. Otherwise the offset advances. If it is still below the resident group's row count, the answer is true in the same group. Otherwise, if a next group exists (even an empty one) it is entered at offset 0 with answer true; if not, the answer is false and rowIdx becomes End. With no group at all, the call throws (and only then). groupIdx grows by at most one. |
| `RowCursor.ReadStepKeepsReachable` | data-convert/Parquet/ParquetDataReader.cs:372-392 | Read keeps the cursor in a reachable state (rowIdx is -1 or End, and End only once exhausted). A false answer leaves it exhausted. |
| `RowCursor.ExhaustedStaysFalse` | data-convert/Parquet/ParquetDataReader.cs:364-377 | Once exhausted, Read answers false and stays exhausted, whatever rowIdx is. So resetting rowIdx to -1 (as NextResult does) brings no row back. |
| `RowCursor.RunAtEnd` | data-convert/Parquet/ParquetDataReader.cs:374-377 | At End, any number of Reads answer false every time and change nothing. |
| `RowCursor.RowsEnumerateFile` | data-convert/Parquet/ParquetDataReader.cs:372-392 | The rows a full pass should visit, defined independently of Read, are exactly the pairs (g, o) with o below group g's row count, each once, in file order. Their number is the sum of the row counts. |
| `RowCursor.ReadsVisitRowsFrom` | data-convert/Parquet/ParquetDataReader.cs:372-392 | With all groups non-empty, Reads from any mid-file position answer true once per remaining row, in order. Then they answer false and end exhausted. |
| `RowCursor.ReadsVisitEveryRow` | data-convert/Parquet/ParquetDataReader.cs:372-392 | With all groups non-empty, Reads from the freshly built reader answer true once per row of the file, in file order, with none skipped or repeated. Then every further Read answers false and changes nothing. |
| `RowCursor.EmptyGroupYieldsPhantomRow` | data-convert/Parquet/ParquetDataReader.cs:379-384 | Groups of 1 and 0 rows give two true answers: the second is at offset 0 of the empty group. |
| `RowCursor.NoGroupThrows` | data-convert/Parquet/ParquetDataReader.cs:56-57 | With no row group, the first Read throws a null reference. |
| `DataReader.ParquetDataReader.constructor` | data-convert/Parquet/ParquetDataReader.cs:37-58 | FieldCount is the source's field count. Schema entry i has ordinal i and field i's name. HasRows holds iff a first row group exists with RowCount > 0. IsClosed holds. When a first group exists, it is loaded with its offset before its first row. |
| `DataReader.ParquetDataReader.NextRowGroup` | data-convert/Parquet/ParquetDataReader.cs:60-74 | Always increments groupIdx. Returns false iff the new groupIdx is past the last group, and then leaves the offset, the row group and the columns unchanged. On success it sets the offset to -1 and replaces every column with that group's array. |
| `DataReader.ParquetDataReader.Read` | data-convert/Parquet/ParquetDataReader.cs:372-392 | The answer and the new position are exactly those of ReadStep on the old position, and the resident columns stay those of the loaded group. |
| `DataReader.ParquetDataReader.NextResult` | data-convert/Parquet/ParquetDataReader.cs:364-368 | Always answers false and sets rowIdx to -1 (IsClosed). |
| `DataReader.ParquetDataReader.GetColumnSchema` | data-convert/Parquet/ParquetDataReader.cs:394-397 | Exactly the projection of the source's fields: one descriptor per field with ordinal i and field i's name, its displayed type and its AllowDBNull. |
| `DataReader.ParquetDataReader.GetName` | data-convert/Parquet/ParquetDataReader.cs:237-240 | The field's name for an ordinal in range, otherwise ArgumentOutOfRange. |
| `DataReader.ParquetDataReader.GetFieldType` | data-convert/Parquet/ParquetDataReader.cs:207-210 | The displayed CLR type: DateTime for a DateTimeOffset field, string for a byte[] field, the field's own type otherwise. Out of range is ArgumentOutOfRange. |
| `DataReader.ParquetDataReader.GetDataTypeName` | data-convert/Parquet/ParquetDataReader.cs:181-184 | The field's logical tag for an ordinal in range, otherwise ArgumentOutOfRange. |
| `DataReader.ParquetDataReader.GetOrdinal` | data-convert/Parquet/ParquetDataReader.cs:242-250 | The smallest ordinal whose column name equals the name exactly, and -1 iff there is none. |
| `DataReader.ParquetDataReader.GetValue` | data-convert/Parquet/ParquetDataReader.cs:270-309 | An ordinal out of range is IndexOutOfRange. Otherwise exactly the GetValue switch on the field, its resident array and the current offset. For a field with HasNulls, the result is DBNull exactly when IsDBNull is true. |
| `DataReader.ParquetDataReader.IsDBNull` | data-convert/Parquet/ParquetDataReader.cs:328-362 | An ordinal out of range is IndexOutOfRange. Otherwise exactly the IsDBNull switch on the field, its resident array and the current offset: false without HasNulls, true exactly for an empty current slot of the dispatched nullable array. |
| `DataReader.ParquetDataReader.GetString` | data-convert/Parquet/ParquetDataReader.cs:252-260 | Exactly GetObject<string> on the loaded group's array at the current offset. A non-null string slot gives its value; a null slot or a non-string array throws InvalidCast; an offset out of range is IndexOutOfRange. An ordinal out of range is IndexOutOfRange, and no loaded group is a null reference. For a String field it gives string c exactly when GetValue boxes c, and throws InvalidCast exactly when GetValue gives DBNull or fails the cast. |
| `DataReader.ParquetDataReader.GetValueAs` | data-convert/Parquet/ParquetDataReader.cs:154-235 | GetValue<T> behind the typed getters: exactly UnwrapValue on the loaded group's array at the current offset. A present slot of a T[] or T?[] gives its value. An empty T?[] slot throws InvalidOperation, another array InvalidCast, and an offset out of range IndexOutOfRange. An ordinal out of range is IndexOutOfRange, and no loaded group is a null reference. For a field whose tag is read as T (not DateTimeOffset), it gives c exactly when GetValue boxes c, and throws InvalidOperation exactly when GetValue gives DBNull. |
| `DataReader.ParquetDataReader.GetDateTime` | data-convert/Parquet/ParquetDataReader.cs:186-190 | GetValue<DateTimeOffset> converted to its UTC DateTime, with the same failures. For a DateTimeOffset field it equals GetValue. |
| `DataReader.ParquetDataReader.GetValueByName` | data-convert/Parquet/ParquetDataReader.cs:102-102 | An unknown name reads ordinal -1, so IndexOutOfRange. Otherwise the result is GetValue of the first ordinal carrying that name. |
| `DataReader.ParquetDataReader.GetValues` | data-convert/Parquet/ParquetDataReader.cs:317-326 | A null buffer throws ArgumentNull. Otherwise slots 0 .. c-1, with c = min(length, FieldCount), receive GetValue(i) in ordinal order, and the answer is c. The first GetValue that throws stops the fill with its exception. Every slot not written keeps its old value. |
| `DataReader.Fill` | data-convert/Parquet/ParquetDataReader.cs:321-325 | Copies the values in order into the buffer's first slots until the first exception, which becomes the answer. The slots after it are unchanged. |

## Left out

- data-convert/Program.cs (the command-line tool: file streams, timing, console output, writers) is not part of this model. It is I/O orchestration over libraries whose code is not shown.
- data-convert/Parquet/DateTimeExtensions.cs is not part of this model: it only re-tags a .NET DateTime. The UTC conversion of a DateTimeOffset is kept opaque as `UtcDateTime(cell)`.
- The Parquet decoder (`OpenRowGroupReader`, `ReadColumn`, `RowCount`, decoding failures) is an oracle: a well-formed `Source`. The cast of every schema field to a data field is assumed to succeed.
- Cell values (numbers, strings, byte arrays, decimals, floating point) are opaque identifiers, so no arithmetic or formatting is modelled.
- `GetBytes` is not modelled: it is an `Array.Copy` whose bounds checks belong to the runtime library. `GetChars` and `GetEnumerator` only throw NotImplemented. `Depth` and `RecordsAffected` are the constant 0.
- `FieldCount`, `HasRows` and `IsClosed` are field reads. They are modelled as functions without a row of their own, and their values are stated by the constructor, `Read` and `NextResult`.
- The `this[int]` indexer is `GetValue` itself.
- CLR array covariance is not modelled. A column array has exactly one element type, and a cast succeeds only on that type.
- `DataReader.ParquetDataReader.GetValues`: the model takes a snapshot of the current row's GetValue results and then fills the buffer from it, where the code calls GetValue once per slot. Both give the same result, because GetValue reads only the reader's own state and the fill does not change it.
- Integer widths: `groupIdx` and `groupOffset` are unbounded integers. A file large enough to overflow a 32-bit offset is not considered.
