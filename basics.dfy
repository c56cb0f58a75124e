/** Small value-level helpers shared by the three guards. */
module Basics {

  /** An optional value; `None` stands for JavaScript's `null`/`undefined`. */
  datatype Option<+T> = None | Some(value: T)

  /** `Math.max` on two integers. */
  function Max(a: int, b: int): (m: int) {
    if a >= b then a else b
  }

  /** `Math.min` on two integers. */
  function Min(a: int, b: int): (m: int) {
    if a <= b then a else b
  }
}
