/** Optional values and results shared by every store of the model. */
module Wrappers {

  /** A nullable value: `None` stands for SQL NULL, a JavaScript `null` or `undefined`. */
  datatype Option<+T> = None | Some(value: T) {

    /** The value, or `default` when there is none (a JavaScript default parameter). */
    function GetOr(default: T): T {
      match this
      case Some(v) => v
      case None => default
    }
  }

  /** The outcome of an operation that may be rejected by the storage engine. */
  datatype Result<+R, +E> = Ok(value: R) | Err(error: E)

  /** Why a storage operation was rejected. */
  datatype StoreError =
    | ForeignKeyViolation   // a row would reference a folder that does not exist
    | ConnectionClosed      // the database handle was closed by the shutdown step
    | UndefinedValue        // the preference store refuses to store `undefined`
}
