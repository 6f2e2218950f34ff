/** Optional values and the results of calls. */
module Wrappers {

  datatype Option<+T> = None | Some(value: T)

  datatype Result<+T> = Success(value: T) | Failure

  /** What a Go call can do: return, return an error, or stop with a run-time fault. */
  datatype Outcome<+T> = Done(value: T) | Error | Panic
}
