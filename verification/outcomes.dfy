/** Optional values and the failures that stand in for PHP exceptions. */
module Outcomes {

  datatype Option<+T> = None | Some(value: T)

  /** The failure kinds of the attribute protocol.
      `Missing` and `Unknown` are both raised as `OutOfBoundsException`:
      `Missing` when a store key or attribute has no value, `Unknown` when an
      attribute name is not registered in the schema.
      `Other` is any other exception, e.g. one thrown by a user callback. */
  datatype Failure = Missing | Unknown | Other(reason: string)

  /** True for the failures PHP raises as `OutOfBoundsException`, which are the
      only ones any `catch` of the library intercepts. */
  predicate OutOfBounds(f: Failure) {
    f.Missing? || f.Unknown?
  }

  datatype Result<+T> = Ok(value: T) | Fail(failure: Failure)
}
