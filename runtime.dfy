/** Go's calling conventions as the readers and preparers use them: a nil-able
    value, the error values that reach a caller, the `(value, error)` result
    pair, and the run-time panics the code can raise. */
module Runtime {

  /** A Go slice or error that may be nil: `None` is nil. */
  datatype Option<T> = None | Some(value: T)

  /** The error values that reach the caller of the readers. */
  datatype Error =
    | EOF                  // io.EOF: a read found the stream already exhausted
    | UnexpectedEOF        // io.ErrUnexpectedEOF: the stream ended part-way through a read
    | ErrInvalid           // os.ErrInvalid
    | External(code: nat)  // any other error: from opening the file, or raised by the reader itself

  /** Why the Go run time panicked. */
  datatype PanicCause =
    | MakeLenOutOfRange    // `make` was given a negative length
    | IndexOutOfRange      // a slice was indexed past its end

  /** Go's `(value, error)` result pair. */
  datatype Reply<T> = Reply(value: Option<T>, err: Option<Error>)

  /** A Go call either returns or panics. */
  datatype Outcome<T> = Returns(result: T) | Panics(cause: PanicCause)
}
