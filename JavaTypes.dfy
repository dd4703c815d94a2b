/**
 * The few pieces of the JVM's integer semantics the model needs: Kotlin's
 * Int and Long, the two's-complement wrap-around of Int and Long arithmetic, Java's
 * integer division (which truncates toward zero) and the exception an array
 * index out of bounds raises.
 */
module JavaTypes {

  /** Kotlin's Int: a signed 32-bit integer. */
  type Int32 = x: int | -0x8000_0000 <= x < 0x8000_0000

  /** Kotlin's Long: a signed 64-bit integer. */
  type Int64 = x: int | -0x8000_0000_0000_0000 <= x < 0x8000_0000_0000_0000

  predicate InIntRange(x: int) {
    -0x8000_0000 <= x < 0x8000_0000
  }

  /** The Int result of an operation whose exact value is x: x modulo 2^32, read as signed. */
  function WrapInt(x: int): (r: Int32)
    ensures InIntRange(x) ==> r == x
    ensures (x - r) % 0x1_0000_0000 == 0
  {
    (x + 0x8000_0000) % 0x1_0000_0000 - 0x8000_0000
  }

  predicate InLongRange(x: int) {
    -0x8000_0000_0000_0000 <= x < 0x8000_0000_0000_0000
  }

  /** The Long result of an operation whose exact value is x: x modulo 2^64, read as signed. */
  function WrapLong(x: int): (r: Int64)
    ensures InLongRange(x) ==> r == x
    ensures (x - r) % 0x1_0000_0000_0000_0000 == 0
  {
    (x + 0x8000_0000_0000_0000) % 0x1_0000_0000_0000_0000 - 0x8000_0000_0000_0000
  }

  /** Java's `a / b` for a positive divisor: the quotient rounded toward zero. */
  function TruncDiv(a: int, b: int): (q: int)
    requires b > 0
    ensures a >= 0 ==> b * q <= a < b * q + b
    ensures a < 0 ==> b * q - b < a <= b * q
  {
    if a >= 0 then a / b else -((-a) / b)
  }

  /** The one exception the modelled code can raise. */
  datatype Exception = ArrayIndexOutOfBounds(index: int)

  /** A value, or the exception that replaced it. */
  datatype Result<T> = Success(value: T) | Failure(error: Exception)
}
