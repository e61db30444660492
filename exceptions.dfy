/** Option and Result wrappers, and the exceptions the data reader lets escape. */
module Exceptions {

  /** A value that may be missing: a Nullable<T> slot or a nullable reference. */
  datatype Option<+T> = None | Some(value: T)

  /** The .NET exceptions that reach the caller of the data reader. */
  datatype Exception =
    | ArgumentNull        // GetValues given a null buffer
    | ArgumentOutOfRange  // indexing the read-only schema collection out of range
    | IndexOutOfRange     // indexing an array out of range
    | InvalidCast         // casting a column array to the wrong array type, or a null string
    | InvalidOperation    // Nullable<T>.Value on an empty slot
    | NotImplemented      // the TimeSpan logical type
    | NotSupported        // a logical type outside the dispatch table
    | NullReference       // dereferencing a row group or column that was never loaded

  /** The outcome of a call: a value, or the exception it throws. */
  datatype Result<+T> = Ok(value: T) | Throw(error: Exception)
}
