/** Results shared by the extractors and the pipeline. */
module Outcomes {

  datatype Option<+T> = None | Some(value: T)

  /** The Python exceptions that can escape an extractor. */
  datatype Error =
    | NotJson    // json.load rejects the file
    | IllTyped   // the document has an unexpected shape: AttributeError or TypeError while walking it

  /** A value, or the exception that was raised instead of returning one. */
  datatype Result<+T> = Ok(value: T) | Err(error: Error) {
    predicate IsFailure() {
      Err?
    }

    function PropagateFailure<U>(): Result<U>
      requires Err?
    {
      Err(error)
    }

    function Extract(): T
      requires Ok?
    {
      value
    }
  }
}
