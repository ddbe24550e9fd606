/** Optional values and error-or-value results shared by every phase of the model. */
module Wrappers {

  /** A Python value that may be `None`. */
  datatype Option<+T> = None | Some(value: T)

  /** The outcome of a computation that may raise. */
  datatype Result<+T, +E> = Ok(value: T) | Err(error: E)

  /** The presence of a key in a Python dict, independent of the value stored under it. */
  datatype Field<+T> = Absent | Present(value: T)

  /** Python truthiness of an optional integer: present and non-zero. */
  predicate TruthyInt(v: Option<int>) {
    v.Some? && v.value != 0
  }
}
