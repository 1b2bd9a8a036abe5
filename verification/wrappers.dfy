/** Option and Result values shared by every module of the model. */
module Wrappers {

  datatype Option<+T> = None | Some(value: T)

  /** The one failure the model reports: a batch asked to hold more instances than it was sized for. */
  datatype Error = CapacityExceeded(batch: string, capacity: nat)

  datatype Result<+T> = Success(value: T) | Failure(error: Error) {
    predicate IsFailure() {
      Failure?
    }

    function PropagateFailure<U>(): Result<U>
      requires Failure?
    {
      Failure(error)
    }

    function Extract(): T
      requires Success?
    {
      value
    }
  }

  /** The singleton set of an optional value, empty for None. */
  function AsSet<T>(o: Option<T>): set<T>
  {
    match o
    case None => {}
    case Some(v) => {v}
  }
}
