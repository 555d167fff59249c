/** Shared vocabulary of the WinniTODO model: identifiers, optional values and
    the outcome of a store write. */
module Types {

  /** A `java.util.UUID`: two 64-bit halves. The model never looks inside an id;
      it only compares ids for equality. */
  datatype Uuid = Uuid(mostSigBits: bv64, leastSigBits: bv64)

  /** A nullable value, Kotlin's `T?`. */
  datatype Option<+T> = None | Some(value: T)

  /** Why a store write was refused. Room's `@Insert` aborts on a clash of
      primary keys, which is the only write failure the data layer can raise. */
  datatype DbError = PrimaryKeyConflict(id: Uuid)

  /** Outcome of a store write: the new contents, or the error that aborted it
      (in which case nothing was written). */
  datatype Result<+T> = Ok(value: T) | Err(error: DbError) {
    /** The written contents, or `default` when the write was aborted. */
    function GetOr(default: T): T {
      match this
      case Ok(v) => v
      case Err(_) => default
    }
  }
}
