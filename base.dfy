/**
 * Shared vocabulary of the model: optional values, results, the APR status
 * codes the C functions return, bytes, and C's integer division.
 */
module Base {

  datatype Option<+T> = None | Some(value: T)

  datatype Result<+T> = Ok(value: T) | Err(status: Status)

  /** The apr_status_t values the modelled functions return. */
  datatype Status = Success | ENoMem | ENotImpl | EGeneral | EInval | ENoEnt

  type byte = b: int | 0 <= b < 256

  /** INT_MAX of the 32-bit C int the source compares against. */
  const INT_MAX: int := 0x7fff_ffff

  /**
   * C's `/` on integers for a positive divisor: the quotient is truncated
   * toward zero (Dafny's `/` is Euclidean and rounds down for negatives).
   */
  function CDiv(a: int, b: int): int
    requires b > 0
  {
    if a >= 0 then a / b else -((-a) / b)
  }

  /** C's `%` for a positive divisor: the remainder takes the sign of `a`. */
  function CMod(a: int, b: int): (r: int)
    requires b > 0
    ensures a == b * CDiv(a, b) + r
    ensures a >= 0 ==> 0 <= r < b
    ensures a < 0 ==> -b < r <= 0
  {
    a - b * CDiv(a, b)
  }

  /** On non-negative operands C's division agrees with Dafny's. */
  lemma CDivNonNegative(a: int, b: int)
    requires a >= 0 && b > 0
    ensures CDiv(a, b) == a / b && CMod(a, b) == a % b
  {
  }
}
