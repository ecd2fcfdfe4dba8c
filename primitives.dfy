/** Host-language primitives the two value types are built from: the 32- and 64-bit
    integer ranges of their parameters, C#'s truncating integer division, and the
    exceptions their operations raise, modelled as a failure result. */
module Primitives {

  const Int32Min: int := -0x8000_0000
  const Int32Max: int := 0x7fff_ffff
  const Int64Min: int := -0x8000_0000_0000_0000
  const Int64Max: int := 0x7fff_ffff_ffff_ffff

  /** A C# `int`. */
  type Int32 = x: int | Int32Min <= x <= Int32Max

  /** A C# `long`, e.g. the tick count of a `TimeSpan`. */
  type Int64 = x: int | Int64Min <= x <= Int64Max

  /** Unary minus on a C# `int` in an unchecked context: `-int.MinValue` wraps to itself. */
  function Neg32(x: Int32): (r: Int32)
    ensures x != Int32Min ==> r == -x
    ensures x == Int32Min ==> r == x
    ensures (r + x) % 0x1_0000_0000 == 0
  {
    if x == Int32Min then x else -x
  }

  /** C#'s `/` on integers, which truncates toward zero (Dafny's `/` is Euclidean). */
  function TruncDiv(a: int, b: int): (q: int)
    requires b > 0
    ensures a >= 0 ==> q == a / b
    ensures a < 0 ==> q == -((-a) / b)
  {
    if a >= 0 then a / b else -((-a) / b)
  }

  /** C#'s `%` on integers: the remainder takes the sign of the dividend. */
  function TruncRem(a: int, b: int): (r: int)
    requires b > 0
    ensures a == TruncDiv(a, b) * b + r
    ensures a >= 0 ==> 0 <= r < b
    ensures a < 0 ==> -b < r <= 0
  {
    a - TruncDiv(a, b) * b
  }

  /** The exceptions the modelled operations throw. */
  datatype Error =
    | ArgumentOutOfRange   // System.ArgumentOutOfRangeException
    | Overflow             // System.OverflowException

  /** The value an operation returns, or the exception it throws instead. */
  datatype Result<+T> = Ok(value: T) | Err(error: Error) {
    predicate IsFailure() { Err? }

    function PropagateFailure<U>(): Result<U>
      requires Err?
    {
      Err(error)
    }

    function Extract(): T
      requires Ok?
    {
      value
    }
  }
}
