/** The failure-compatible Option type the decoders return: `None` is the
    buffer underrun, `Some` carries the decoded value and the unread bytes. */
module Wrappers {

  datatype Option<+T> = None | Some(value: T) {

    /** A decoder that returned `None` stops the `:-` chain. */
    predicate IsFailure() {
      None?
    }

    /** Converts a None to an Option of another value type. */
    function PropagateFailure<U>(): Option<U>
      requires None?
    {
      None
    }

    /** The decoded value and the unread bytes carried by `Some`. */
    function Extract(): T
      requires Some?
    {
      value
    }
  }
}
