/** The .NET exceptions the modelled code throws, the results that carry them, and C#'s `int`. */
module Exceptions {

  datatype Exception =
    | ArgumentException
    | ArgumentNullException(paramName: string)
    | ArgumentOutOfRangeException(paramName: string)
    | InvalidOperationException
    | NotSupportedException
    | IndexOutOfRangeException
    | NullReferenceException

  /** A value, or the exception thrown instead of producing it. */
  datatype Result<+T> = Ok(value: T) | Throw(exception: Exception)

  /** A `void` call that either returns normally or throws. */
  datatype Outcome = Done | Fail(exception: Exception)

  /** C#'s `int` (System.Int32). */
  const Int32Min: int := -0x8000_0000
  const Int32Max: int := 0x7fff_ffff

  type Int32 = x: int | Int32Min <= x <= Int32Max

  /** Two's-complement wrap-around of an unchecked C# `int` addition. */
  function Wrap32(x: int): (r: Int32)
    ensures (r - x) % 0x1_0000_0000 == 0
    ensures Int32Min <= x <= Int32Max ==> r == x
  {
    (x - Int32Min) % 0x1_0000_0000 + Int32Min
  }

  /** `Math.Min` and `Math.Max` on `int`. */
  function Min(a: int, b: int): int { if a <= b then a else b }

  function Max(a: int, b: int): int { if a >= b then a else b }
}
