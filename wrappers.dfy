/** Small helper datatypes shared by the other modules. */
module Wrappers {

  /** A value that may be absent, in place of Python's `None`. */
  datatype Option<+T> = None | Some(value: T)

  function Min(a: int, b: int): int { if a <= b then a else b }

  function Max(a: int, b: int): int { if a <= b then b else a }
}
