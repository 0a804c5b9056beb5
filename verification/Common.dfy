/** Option, Result and absolute value, shared by every component. */
module Common {

  datatype Option<+T> = None | Some(value: T)

  /** A Python call that returns a value or raises; messages are not modelled. */
  datatype Result<+T> = Success(value: T) | Failure
  {
    predicate IsFailure() { Failure? }

    function PropagateFailure<U>(): Result<U>
      requires Failure?
    {
      Failure
    }

    function Extract(): T
      requires Success?
    {
      value
    }
  }

  function Abs(x: real): (r: real)
    ensures r >= 0.0 && (r == x || r == -x)
  {
    if x < 0.0 then -x else x
  }
}
