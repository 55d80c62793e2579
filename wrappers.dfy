/** Option, the model's stand-in for Python's `None`-or-value results, and the built-ins `max` and `min`. */
module Wrappers {
  datatype Option<+T> = None | Some(value: T)

  function Max(a: int, b: int): int { if a >= b then a else b }

  function Min(a: int, b: int): int { if a <= b then a else b }
}
