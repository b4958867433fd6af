/** Small failure-carrying datatypes shared by the ledger modules. */
module Wrappers {

  /** An optional value, as Rust's `Option<T>`. */
  datatype Option<+T> = None | Some(value: T)

  /** The shape of a Rust `Result<(), E>`: success carries nothing, failure carries an `E`. */
  datatype Outcome<+E> = Pass | Fail(error: E)
}
