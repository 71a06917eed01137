/** Small datatypes shared by the other modules. */
module Common {

  /** The source's `None`-or-value results. */
  datatype Option<+T> = None | Some(value: T)

  /** A returned value, or the exception that was raised instead. */
  datatype Result<+T, +E> = Ok(value: T) | Err(error: E)
  {
    predicate IsFailure() { Err? }
    function PropagateFailure<U>(): Result<U, E> requires Err? { Err(error) }
    function Extract(): T requires Ok? { value }
  }

  /**
   How a statement or a call on a state ended: it went on, it raised, or the process died in it.
   The state is the one it left behind; with `:-`, whatever does not go on ends its caller too.
   */
  datatype Step<+S> = Go(plan: S) | Exc(plan: S) | Dead(plan: S)
  {
    predicate IsFailure() { !Go? }
    function PropagateFailure(): Step<S> requires !Go? { this }
    function Extract(): S requires Go? { plan }
  }

  /** What is done so far, and then the result of the rest: the new state and what it adds. */
  function Then<S, T>(soFar: seq<T>, rest: (S, seq<T>)): (S, seq<T>) { (rest.0, soFar + rest.1) }
}
