// Shared result types.

module Wrappers {

  /** An optional value; `None` is also how a failed assertion of the modelled code is reported,
      so that `:-` chains stop at the first failure. */
  datatype Option<+T> = None | Some(value: T) {
    predicate IsFailure() { None? }

    function PropagateFailure<U>(): Option<U>
      requires None?
    {
      None
    }

    function Extract(): T
      requires Some?
    {
      value
    }
  }
}
