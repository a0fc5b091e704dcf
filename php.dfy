/** PHP's reading of a string as a boolean, shared by `empty()`, `!` and `if`. */
module Php {
  /** A string is falsy in PHP exactly when it is "" or "0". */
  predicate Truthy(s: string) { s != "" && s != "0" }
}
