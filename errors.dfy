/**
 * The closed set of error categories that the sqlite helpers and the ntuple
 * exception type share, and the outcome of an operation that either returns
 * a value or raises an exception of one category. Messages are not modelled.
 */
module Errors {

  datatype ErrorCode = LogicError | SQLExecutionError | OtherError | Unknown

  datatype Result<+T> = Success(value: T) | Failure(code: ErrorCode)
}
