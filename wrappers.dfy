/** Optional values: the model's rendering of SQL NULL and of JavaScript's
    null/undefined. */
module Wrappers {

  datatype Option<+T> = None | Some(value: T) {

    /** The value, or `default` when absent (SQL COALESCE, JavaScript `??`). */
    function GetOr(default: T): T {
      match this
      case Some(v) => v
      case None => default
    }

    /** This option if present, otherwise `other` (JavaScript `a ?? b` on nullable values). */
    function OrElse(other: Option<T>): Option<T> {
      if this.Some? then this else other
    }
  }
}
