/** Optional values, outcomes, and the Java exceptions the modelled code throws. */
module Wrappers {

  /** A value or Java's `null`. */
  datatype Option<+T> = None | Some(value: T)

  /** The exception kinds thrown by the modelled code. */
  datatype Exception =
    | IllegalArgument          // IllegalArgumentException: bad ordinal, bad token, bad error code
    | FrozenInstance           // RuntimeException from verify$Not$Frozen
    | NoSuchElement            // NoSuchElementException from an exhausted iterator
    | UnsupportedOperation     // UnsupportedOperationException from Iterator.remove
    | IndexOutOfBounds         // ArrayIndexOutOfBoundsException
    | NegativeArraySize        // NegativeArraySizeException

  /** A normal return with a value, or a thrown exception. */
  datatype Result<+T> = Success(value: T) | Failure(error: Exception)

  /**
   * Java's integer division `a / b`, which truncates toward zero: `r * b`
   * lies between zero and `a`, less than one divisor away from `a`.
   */
  function JavaDiv(a: int, b: int): (r: int)
    requires b > 0
    ensures a >= 0 ==> 0 <= r && 0 <= a - r * b < b
    ensures a < 0 ==> r <= 0 && -b < a - r * b <= 0
  {
    if a >= 0 then a / b else -((-a) / b)
  }

  /** Java's remainder `a % b`, whose sign follows the dividend. */
  function JavaRem(a: int, b: int): (r: int)
    requires b > 0
    ensures JavaDiv(a, b) * b + r == a
    ensures a >= 0 ==> 0 <= r < b
    ensures a < 0 ==> -b < r <= 0
  {
    if a >= 0 then a % b else -((-a) % b)
  }
}
