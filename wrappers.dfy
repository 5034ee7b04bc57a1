/** Failure-carrying values shared by every module of the model: a lookup
    that may miss (`Option`) and an operation that may raise (`Result`). */
module Wrappers {

  datatype Option<+T> = None | Some(value: T)

  /** A Python exception, named by its class and carrying its message key. */
  datatype Error =
    | KeyError(key: string)
    | ValueError(message: string)
    | IndexError(message: string)
    | AttributeError(message: string)
    | UnboundLocalError(name: string)
    | EmptyDataError(message: string)
    | ParserError(message: string)

  datatype Result<+T> = Success(value: T) | Failure(error: Error)
}
