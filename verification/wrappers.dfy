/** Failure-carrying results shared by every module of the search. */
module Wrappers {

  datatype Option<+T> = None | Some(value: T)

  /** The exceptions the search can raise, one constructor per kind. */
  datatype Error =
    | KeyError(key: string)   // a dictionary lookup of a key that is not there
    | IoError(path: string)   // a file that cannot be read or parsed
    | EmptyArgMax             // np.argmax applied to an empty sequence
    | EmptyOperand            // scipy.signal.correlate with an empty input (a ValueError)

  /** Either a value or the error that aborted the computation; usable with `:-`. */
  datatype Result<+T> = Ok(value: T) | Err(error: Error) {

    predicate IsFailure() {
      Err?
    }

    function PropagateFailure<U>(): Result<U>
      requires Err?
    {
      Err(error)
    }

    function Extract(): T
      requires Ok?
    {
      value
    }
  }
}
