/** Basic types shared by every module of the compressor model. */
module Common {

  /** A .NET `byte`: an integer in [0, 256). */
  type byte = b: int | 0 <= b < 256

  /** A possibly-missing value; `None` stands for an exception raised by the
      .NET stream or string routines. Failure-compatible, so `:-` can be used. */
  datatype Option<+T> = None | Some(value: T) {

    predicate IsFailure() {
      None?
    }

    function PropagateFailure<U>(): Option<U>
      requires None?
    {
      None
    }

    function Extract(): T
      requires Some?
    {
      value
    }
  }

  /** A value read from a byte stream together with the stream position
      just after it. */
  datatype Parsed<+T> = Parsed(value: T, next: nat)

  function Min(a: int, b: int): int {
    if a <= b then a else b
  }

  /** 2 to the power n. */
  function Pow2(n: nat): (r: nat)
    ensures r >= 1
  {
    if n == 0 then 1 else 2 * Pow2(n - 1)
  }
}
