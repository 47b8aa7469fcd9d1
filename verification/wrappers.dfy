/** Failure-compatible wrapper used where the modelled code has an
    "absent" or "not applicable" outcome. */
module Wrappers {

  /** A value that may be missing: an LLVM `dyn_cast` that failed, a global
      without an initializer, a map lookup that found nothing. */
  datatype Option<+T> = None | Some(value: T) {

    /** True if is None */
    predicate IsFailure() {
      None?
    }

    /** Converts a None to an Option of another value type. */
    function PropagateFailure<U>(): Option<U>
      requires None?
    {
      None
    }

    /** Returns the value held by Some. */
    function Extract(): T
      requires Some?
    {
      value
    }
  }
}
