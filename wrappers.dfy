/** Option and the error-carrying result type that every fallible table operation returns. */
module Wrappers {

  datatype Option<+T> = None | Some(value: T)

  /** The three failure kinds a table operation can report. */
  datatype Error =
    | EncodeError   // the record failed to serialize
    | DecodeError   // stored bytes failed to deserialize
    | StoreError    // the backing store failed to read or write

  /** `Result<T, Error>` of the crate, with its error type fixed. */
  datatype Result<+T> = Ok(value: T) | Err(error: Error)
}
