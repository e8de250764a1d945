/** The single failure-compatible outcome used by the decoder: the source
    raises whatever exception numpy, `int()` or `datetime` raise, and the
    model collapses all of them into `None`. */
module Wrappers {

  datatype Option<+T> = None | Some(value: T) {

    predicate IsFailure() {
      None?
    }

    function PropagateFailure<U>(): Option<U>
      requires None?
    {
      None
    }

    function Extract(): T
      requires Some?
    {
      value
    }
  }
}
