/** Shared vocabulary of the model: bytes, optional values and the I/O results
    the crate's fallible operations return. */
module Base {

  /** An unsigned 8-bit value, Rust's `u8`. */
  type u8 = b: int | 0 <= b < 256

  /** Rust's `Option`. */
  datatype Option<T> = None | Some(value: T)

  /** The `std::io::ErrorKind`s the crate attaches to its errors
      (`ioerr(msg, None)` uses `Other`). */
  datatype ErrorKind = Other | OutOfMemory | InvalidData

  /** An `io::Error`: its kind and the message the source formats into it. */
  datatype IoError = IoError(kind: ErrorKind, msg: string)

  /** `io::Result<T>`. */
  datatype Result<T> = Ok(value: T) | Err(error: IoError)
  {
    /** Rust's `?`: an error ends the computation and is passed on. */
    predicate IsFailure()
    {
      Err?
    }

    function PropagateFailure<U>(): Result<U>
      requires Err?
    {
      Err(error)
    }

    function Extract(): T
      requires Ok?
    {
      value
    }
  }

  function Min(a: int, b: int): (r: int)
    ensures r <= a && r <= b && (r == a || r == b)
  {
    if a <= b then a else b
  }
}
