/** C integer operations whose results differ from Dafny's Euclidean ones. */
module CArithmetic {

  /** C's `/` on a positive divisor: truncates toward zero. */
  function TruncDiv(a: int, b: int): (q: int)
    requires b > 0
  {
    if a >= 0 then a / b else -((-a) / b)
  }

  /** C's `%` on a positive divisor: takes the sign of the dividend. */
  function TruncMod(a: int, b: int): (r: int)
    requires b > 0
  {
    if a >= 0 then a % b else -((-a) % b)
  }

  const SIZE_T := 0x1_0000_0000_0000_0000

  /** Arithmetic on size_t. */
  function Wrap(n: int): (r: nat)
    ensures r < SIZE_T
  {
    n % SIZE_T
  }

  lemma WrapSmall(t: nat)
    ensures t < SIZE_T ==> Wrap(t) == t
  {
  }

  /** Conversion of a wider signed integer to a 32-bit `int`. */
  function ToInt32(a: int): (r: int)
    ensures -0x8000_0000 <= r < 0x8000_0000
    ensures -0x8000_0000 <= a < 0x8000_0000 ==> r == a
  {
    (a + 0x8000_0000) % 0x1_0000_0000 - 0x8000_0000
  }
}
