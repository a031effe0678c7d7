/** Values that stand for Go's optional results and for the ways a Go
    program stops: a `panic` or a `log.Fatal` becomes an `Abort` carrying its
    message instead of a runtime abort. */
module Outcomes {

  datatype Option<T> = None | Some(value: T)

  /** Either the value a call returns, or the message it aborted the program with. */
  datatype Result<T> = Ok(value: T) | Abort(reason: string)
}
