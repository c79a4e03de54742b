/** Small result wrappers shared by every module of the model. */
module Common {

  /** A value that may be absent: JavaScript's `undefined` on a lookup that finds nothing. */
  datatype Option<T> = None | Some(value: T)

  /** The errors a store operation can reject with. */
  datatype DbError =
    | Unsupported     // the host has no IndexedDB (`window.indexedDB` is missing)
    | NotFoundError   // `db.transaction(name)` on an object store that does not exist
    | DataError       // a put without a key into a store that has no key generator
    | TypeError       // a method called on a value that does not have it

  /** A promise that resolves with a value or rejects with an error. */
  datatype Result<T> = Success(value: T) | Failure(error: DbError)

  /** A promise that resolves with nothing or rejects with an error. */
  datatype Outcome = Pass | Fail(error: DbError)
}
