/** Values shared by every module of the model. */
module Prelude {

  /** A value that may be absent: a missing request field, a failed lookup. */
  datatype Option<+T> = None | Some(value: T)

  /** Identifier of a stored user record: its position in the store, in insertion order. */
  type UserId = nat

  /**
   * JavaScript truthiness of an optional string field of a request body:
   * a missing field and the empty string are both falsy.
   */
  predicate Truthy(field: Option<string>)
  {
    field.Some? && field.value != ""
  }
}
