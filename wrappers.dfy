/** Optional values, outcomes with an error, and single-valued reactive results. */
module Wrappers {

  /** A value that may be absent (`java.util.Optional`, a nullable reference). */
  datatype Option<+T> = None | Some(value: T) {
    function GetOr(default: T): T {
      match this
      case Some(v) => v
      case None => default
    }
  }

  /** A value or the exception a synchronous call throws instead of returning. */
  datatype Result<+T, +E> = Success(value: T) | Failure(error: E)

  /** What a `Mono` ends with: completion without a value, exactly one value, or an error signal.
      A `Mono` never carries more than one value, which the shape of this type makes explicit. */
  datatype Mono<+T, +E> = Empty | Just(value: T) | Error(error: E)

  /** The `Mono` that a blocking call's outcome corresponds to. */
  function ToMono<T, E>(r: Result<T, E>): (m: Mono<T, E>)
    ensures m.Just? <==> r.Success?
    ensures m.Just? ==> m.value == r.value
    ensures m.Error? ==> r.Failure? && m.error == r.error
  {
    match r
    case Success(v) => Just(v)
    case Failure(e) => Error(e)
  }
}
