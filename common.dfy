/** Values shared by every part of the model: nullable references and thrown errors. */
module Common {

  /** A .NET reference that may be null. */
  datatype Option<+T> = None | Some(value: T) {
    /** The value, or `default` for null. */
    function GetOr(default: T): T {
      if Some? then value else default
    }
  }

  /** The outcome of an operation that returns a value or throws. */
  datatype Result<+T, +E> = Success(value: T) | Failure(error: E)

  /**
   * The `HasValue()` string extension, applied to a reference that may be
   * null. The extension lives in a library outside this model, so its meaning
   * on non-null strings is the parameter `hasValue`; on null it is false.
   */
  predicate HasValue(s: Option<string>, hasValue: string -> bool) {
    s.Some? && hasValue(s.value)
  }
}
