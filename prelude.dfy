/** Fixed-width unsigned integers of the Rust source, and the outcome of a call that may panic. */
module Rust {
  newtype u8 = x: int | 0 <= x < 0x100
  newtype u16 = x: int | 0 <= x < 0x1_0000

  /** A call either returns a value or panics (an `unwrap` on `None`, say); a panic is an outcome, not an assumption. */
  datatype Completion<T> = Returned(value: T) | Panicked
}

/** Option and Result, the two wrapper types the source uses. */
module Wrappers {
  datatype Option<T> = None | Some(value: T)

  datatype Result<T, E> = Success(value: T) | Failure(error: E)
}
