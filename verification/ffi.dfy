/** Values that cross the foreign boundary: optional values, driver errors and
    the exception slot (`FfiException`) every exported call returns. The
    concrete foreign exception objects are built by caller-supplied
    constructors and are opaque here; they are represented by what was used
    to build them. */
module Ffi {

  datatype Option<+T> = None | Some(value: T)

  /** An error reported by the driver. Its contents belong to the driver and
      are carried through unchanged. */
  datatype DriverError =
    /** `next_column_iterator` failed to produce the next row (a page fetch or
        row parse failure). */
    | NextRowError(detail: nat)
    /** The row's column iterator failed to produce one raw column. */
    | ColumnError(detail: nat)

  /** The messages the core formats itself for the generic "Rust exception". */
  datatype RustMessage =
    /** "RowSet has no pager to get metadata from" */
    | NoPagerForMetadata
    /** "Row contains fewer columns (present of declared) than metadata claims" */
    | FewerColumns(present: nat, declared: nat)

  /** A foreign exception object, identified by how it was constructed. */
  datatype ForeignException =
    /** Built by the Rust-exception constructor from a message. */
    | RustException(message: RustMessage)
    /** Built from a driver error by the error-conversion table. */
    | FromDriverError(error: DriverError)
    /** Raised by one of the caller's own callbacks; passed back verbatim. */
    | CallerException(handle: nat)

  /** The exception slot: either no exception or one raised exception. */
  datatype FfiException = Ok | Raised(exception: ForeignException) {
    predicate HasException() {
      Raised?
    }
  }
}
