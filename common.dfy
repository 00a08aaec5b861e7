/** Small value wrappers shared by the other modules. */
module Common {

  /** A value that may be absent: JavaScript's `undefined`/`null` for an optional field. */
  datatype Option<+T> = None | Some(value: T)

  /** The outcome of an evaluation that may throw. */
  datatype Result<+T> = Ok(value: T) | Err(error: string)

  /** The error a property access on `null`/`undefined` raises. */
  const TypeError: string := "TypeError"
}
