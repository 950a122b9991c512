/** Failure-compatible Option, used by every decoder of the save file: `None`
    is a buffer underrun (or an integrity failure) that aborts the decode. */
module Wrappers {

  datatype Option<+T> = None | Some(value: T) {

    /** A missing value stops the decode at the first `:-` that meets it. */
    predicate IsFailure() {
      None?
    }

    /** Converts a None to an Option of another value type. */
    function PropagateFailure<U>(): Option<U>
      requires None?
    {
      None
    }

    /** The decoded value, once the decode has not failed. */
    function Extract(): T
      requires Some?
    {
      value
    }
  }
}
