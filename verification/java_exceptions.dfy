/** The one Java runtime exception the modelled code can raise, and a result
    type that carries either a value or that exception. */
module JavaExceptions {

  /** `String.substring(begin)` throws this when `begin` lies outside
      `0 .. length`; the fields record the offending index and the length. */
  datatype Exception = StringIndexOutOfBounds(begin: int, length: int)

  datatype Result<+T> = Ok(value: T) | Thrown(exception: Exception)
}
