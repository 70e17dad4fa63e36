/** The optional value used wherever the source has `None` or a failed match. */
module Wrappers {

  datatype Option<+T> = None | Some(value: T) {

    /** `None` short-circuits a `:-` binding. */
    predicate IsFailure() {
      None?
    }

    function PropagateFailure<U>(): Option<U>
      requires None?
    {
      None
    }

    function Extract(): T
      requires Some?
    {
      value
    }
  }
}
