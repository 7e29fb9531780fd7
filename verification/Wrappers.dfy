/** The small result types that the other modules share. */
module Wrappers {

  datatype Option<+T> = None | Some(value: T)

  datatype Result<+T, +E> = Ok(value: T) | Err(error: E)

  /** What one poll of an asynchronous operation reports. */
  datatype Poll<+T> = Pending | Ready(value: T)

  predicate Succeeded<T, E>(r: Poll<Result<T, E>>) {
    r.Ready? && r.value.Ok?
  }
}
