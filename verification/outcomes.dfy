/**
 Failure-carrying values shared by the whole model, and the dynamically typed
 values that the source keeps in its metadata dictionaries.
 */
module Outcomes {

  /** A value that may be absent: a missing dictionary key, a `None` argument,
      an embedding call that failed. */
  datatype Option<+T> = None | Some(value: T) {

    /** The value, or `default` when absent (Python's `d.get(key, default)`). */
    function GetOr(default: T): T {
      match this
      case Some(v) => v
      case None => default
    }
  }

  /** The outcome of an operation that raises in the source. */
  datatype Result<+T, +E> = Success(value: T) | Failure(error: E)

  /** The values the model needs to distinguish inside a metadata dictionary. */
  datatype Value = IntValue(n: int) | TextValue(s: string)

  type Metadata = map<string, Value>
}
