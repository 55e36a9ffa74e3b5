/** The two value types through which the model reports what the Python
    code would raise: a missing value (`None`, a failed parse) and a
    result that is either the value computed or the exception that ended
    the computation. Both support `:-`, which stops at the first failure
    just as the exception unwinds the Python function. */
module Wrappers {

  datatype Option<+T> = None | Some(value: T) {

    predicate IsFailure() { None? }

    function PropagateFailure<U>(): Option<U>
      requires None?
    { None }

    function Extract(): T
      requires Some?
    { value }

    /** The present value as a success, a missing one as `error`. */
    function ToResult<E>(error: E): (r: Result<T, E>)
      ensures r.Success? <==> Some?
      ensures Some? ==> r.value == value
      ensures None? ==> r.error == error
    {
      if Some? then Success(value) else Failure(error)
    }
  }

  datatype Result<+R, +E> = Success(value: R) | Failure(error: E) {

    predicate IsFailure() { Failure? }

    function PropagateFailure<U>(): Result<U, E>
      requires Failure?
    { Failure(error) }

    function Extract(): R
      requires Success?
    { value }
  }
}
