/** Types shared by the two components: Java's `int`, absent references and the
    argument checks of `RequireUtils`, which throw instead of returning. */
module Support {

  /** A Java `int`. */
  type Int32 = x: int | -0x8000_0000 <= x <= 0x7FFF_FFFF

  /** `Integer.MAX_VALUE`. */
  const IntMax: Int32 := 0x7FFF_FFFF

  /** A Java reference that may be `null`. */
  datatype Option<T> = None | Some(value: T)

  /** The exception thrown by a failed `require` / `requireNotNull`, with its message. */
  datatype Error = InvalidArgument(message: string)

  /** Either the value a Java call returns or the exception it throws. */
  datatype Result<T> = Ok(value: T) | Err(error: Error)
}
