/** Optional values: the model's rendering of C# `null`, of nullable value
    types (`DateTime?`) and of TypeScript's `null`/`undefined`. */
module Wrappers {

  datatype Option<+T> = None | Some(value: T) {

    /** `x ?? other` between two nullable values. */
    function Or(other: Option<T>): Option<T> {
      if Some? then this else other
    }
  }
}
