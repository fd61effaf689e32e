/** Failure-carrying datatypes shared by the container and its cursors. */
module Wrappers {

  /** A storage slot: `None` is the empty (null) slot, `Some(v)` holds an element. */
  datatype Option<+T> = None | Some(value: T)

  /** The exceptions the container and its cursors throw. */
  datatype Error =
    | IllegalArgument   // construction with a non-positive capacity
    | IndexOutOfBounds  // an index outside its valid range
    | NoSuchElement     // a cursor's `next` with nothing left
    | IllegalState      // a cursor's `remove` without an unconsumed `next`

  /** The outcome of an operation that returns a value or throws. */
  datatype Result<+R> = Ok(value: R) | Err(error: Error)

  /** The outcome of a check that returns nothing or throws. */
  datatype Outcome = Pass | Fail(error: Error)
}
