/** Failure values for the driver. The PyLinkam driver signals failure by letting a
    Python exception escape; the model returns the exception's kind instead. */
module Results {

  /** The Python exceptions the protocol functions can raise. */
  datatype PyError =
    | IndexError          // subscript past the end of a bytes or str value
    | ValueError          // int(text, 16) on text that is not a hex numeral
    | TypeError           // an attribute still holding its class default None
    | UnicodeEncodeError  // bytes(text, 'ascii') on a non-ASCII character

  /** The result of a call that either returns a value or raises. */
  datatype Result<+T> = Ok(value: T) | Err(error: PyError)

  /** The result of a call whose only effect is on state. */
  datatype Outcome = Completed | Raised(error: PyError)

  /** A Python value that may be None (the class-level defaults of the driver). */
  datatype Option<+T> = None | Some(value: T)
}
