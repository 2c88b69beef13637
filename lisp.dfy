/** The embedded interpreter (lisp.h) as seen by the driver: four primitives
    whose behaviour is not part of this model. An `Interpreter` value fixes
    what each primitive answers for one request, given the state the shared
    interpreter context is in at that moment. */
module Lisp {
  import opened DriverIo

  /** LispError: LISP_ERROR_NONE is zero, every other value is a failure. */
  type LispError = nat

  const LispErrorNone: LispError := 0

  /** A handle on an interpreter value (the `Lisp` type of lisp.h). */
  datatype Value = Value(handle: nat)

  /** A value together with the error code reported through `LispError*`,
      and the text the primitive itself sent to logger::errors and
      logger::logs while it ran (user code run by lisp_eval may print, or
      report an error, before it fails). */
  datatype Outcome = Outcome(value: Value, error: LispError, errors: seq<Byte>, logs: seq<Byte>)

  datatype Interpreter = Interpreter(
    read: seq<Byte> -> Outcome,          // lisp_read on a C string
    eval: Value -> Outcome,              // lisp_eval in the global context
    render: Value -> seq<Byte>,          // the text lisp_print logs
    errorString: LispError -> seq<Byte>  // lisp_error_string
  )
}
