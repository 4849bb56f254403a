/** What the other modules share: the optional value, the fallible result, and the name of a node or database. */
module Wrappers {
  type Uuid = string

  datatype Option<+T> = None | Some(value: T)

  datatype Result<+T, +E> = Success(value: T) | Failure(error: E)
}
