/** Optional values and failure-carrying results shared by every module. */
module Wrappers {

  /** A value that may be absent; stands for Java's `null` returns. */
  datatype Option<+T> = None | Some(value: T)

  /** The run-time exceptions of the modelled code that the model keeps. */
  datatype Error =
    | StringIndexOutOfBounds   // java.lang.StringIndexOutOfBoundsException
    | ArrayIndexOutOfBounds    // java.lang.ArrayIndexOutOfBoundsException
    | ListIndexOutOfBounds     // an out-of-range YailList access
    | IndexError               // Python's IndexError

  /** Either a value or the exception the modelled code throws instead. */
  datatype Result<+T> = Ok(value: T) | Err(error: Error) {

    predicate IsFailure() {
      Err?
    }

    function PropagateFailure<U>(): Result<U>
      requires Err?
    {
      Err(error)
    }

    function Extract(): T
      requires Ok?
    {
      value
    }
  }
}
