/** Failure-carrying return values used by every module of the model. */
module Wrappers {

  /** A value that may be absent: Rust's `Option`, JavaScript's `undefined`/`null`. */
  datatype Option<+T> = None | Some(value: T)

  /** The outcome of an operation that can fail: Rust's `Result`, a thrown JavaScript error. */
  datatype Result<+T, +E> = Ok(value: T) | Err(error: E)

  /** Converts an absent value into the given error. */
  function OkOr<T, E>(o: Option<T>, e: E): (r: Result<T, E>)
    ensures r.Ok? <==> o.Some?
    ensures r.Ok? ==> r.value == o.value
    ensures r.Err? ==> r.error == e
  {
    match o
    case Some(v) => Ok(v)
    case None => Err(e)
  }
}
