/** Small shared vocabulary: optional values, results with an error side, and
    integer minimum/maximum. */
module Base {

  datatype Option<+T> = None | Some(value: T)

  /** The outcome of a parse: a value, or the list of problems found. */
  datatype Result<+T, +E> = Ok(value: T) | Err(error: E)

  function Min(a: int, b: int): int { if a <= b then a else b }

  function Max(a: int, b: int): int { if a >= b then a else b }
}
