/** The optional value used wherever the source returns `null` for "no result". */
module Wrappers {

  datatype Option<+T> = None | Some(value: T) {

    /** True if is None, so that `:-` propagates the absence. */
    predicate IsFailure() {
      None?
    }

    function PropagateFailure<U>(): Option<U>
      requires None?
    {
      None
    }

    function Extract(): T
      requires Some?
    {
      value
    }
  }
}
