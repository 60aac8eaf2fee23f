/**
 * Failure-carrying results shared by every module.
 *
 * A Rust `panic!`, a failed `unwrap`/`expect` or an out-of-bounds index
 * aborts the program; the model returns `Err` with the panic's message
 * instead.  A loop that the source would keep running forever is cut off
 * by a fuel argument and reports `OutOfFuel`.
 */
module Wrappers {

  /** The messages of the runtime's own panics. */
  const IndexOutOfBounds: string := "index out of bounds"
  const UnwrapNone: string := "called `Option::unwrap()` on a `None` value"
  const SubtractOverflow: string := "attempt to subtract with overflow"
  const DivideByZero: string := "attempt to divide by zero"
  /** `unimplemented!()`. */
  const NotImplemented: string := "not implemented"

  datatype Option<T> = None | Some(value: T)

  datatype Result<T> = Ok(value: T) | Err(error: string) | OutOfFuel {
    predicate IsFailure() { !Ok? }

    function PropagateFailure<U>(): Result<U>
      requires !Ok?
    {
      if Err? then Err(error) else OutOfFuel
    }

    function Extract(): T
      requires Ok?
    {
      value
    }
  }
}
