/** Nullable values, as the page and the client module pass them around. */
module Wrappers {

  /** A JavaScript value that is either null (None) or present (Some). */
  datatype Option<+T> = None | Some(value: T)

  /** A nullable string is truthy in JavaScript exactly when it is non-null and non-empty;
      `if (x)`, `!x` and `x || d` on a `string | null` all test this. */
  predicate Present(s: Option<string>) {
    s.Some? && s.value != ""
  }
}
