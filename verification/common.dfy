/** Shared value types: optional values, bytes, and the error kinds the
    decoders report (the `InvalidResponse` and `ParseString` variants of
    the atat crate's `Error`). */
module Common {

  datatype Option<+T> = None | Some(value: T)

  /** One byte (Rust `u8`). */
  type byte = b: int | 0 <= b < 0x100

  /** Rust `u16`. */
  type u16 = n: int | 0 <= n < 0x1_0000

  /** The atat error kinds produced by this driver's decoders. */
  datatype Error = InvalidResponse | ParseString

  /** `Result<T, atat::Error>`, usable with `:-`. */
  datatype Result<+T> = Ok(value: T) | Err(error: Error) {
    predicate IsFailure() { Err? }

    function PropagateFailure<U>(): Result<U>
      requires Err?
    {
      Err(error)
    }

    function Extract(): T
      requires Ok?
    {
      value
    }
  }
}
