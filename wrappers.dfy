/** Failure-carrying values: Python's None and the exceptions the pipeline lets escape. */
module Wrappers {

  datatype Option<+T> = None | Some(value: T)

  /** The uncaught Python exceptions that can end the pipeline. */
  datatype PyError =
    | IndexError         // a list subscript past the end (`lst[0]`, `lst[1]`)
    | AttributeError     // a string method called on a cell that is not a string
    | ValueError         // pandas refusing a column or index of the wrong length
    | ZeroDivisionError  // a truth threshold taken over an empty list

  datatype Result<+T> = Success(value: T) | Failure(error: PyError)
}
