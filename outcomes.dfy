/** Explicit success/failure values for the encoding layer. The source returns
    either a value or an `Error` instance (and re-returns whatever a callee
    throws); here both become the `Err` case of one result type. */
module Outcomes {

  /** The failures the encoding layer can report. */
  datatype Error =
    | NumberTooBig            // the value needs more bytes than the requested size
    | Thrown(message: string) // a failure raised by the group's element constructor

  /** The message of the `Error` the source returns for `NumberTooBig`. */
  const TooBigMessage: string := "Number is too big for encoding"

  datatype Result<T> = Ok(value: T) | Err(error: Error)
}
