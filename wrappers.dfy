/** Optional values (C# nullable references) and results of queries that may be refused. */
module Wrappers {

  /** A C# reference that may be null. */
  datatype Option<+T> = None | Some(value: T)

  /** The result of a read-only action: a view model, or the failure the action answers with. */
  datatype Result<+T, +E> = Success(value: T) | Failure(error: E)
}
