/** Return shapes of the container's operations. */
module Outcomes {

  /** A value or nothing: what emplace_front and emplace_back return
      (present on success, absent on a duplicate). The source returns a
      writable reference to the stored element; here it is the value. */
  datatype Option<T> = None | Some(value: T)

  /** The bounds-checked element access `at`: the element, or the
      out-of-range condition it raises. */
  datatype Checked<T> = Ok(value: T) | OutOfRange
}
