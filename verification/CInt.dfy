/** C's int arithmetic, where the source depends on it. */
module CInt {
  /** The value of x as a signed 32-bit integer. */
  function ToInt(x: int): (r: int)
    ensures -0x8000_0000 <= r < 0x8000_0000 && (r - x) % 0x1_0000_0000 == 0
  {
    var w := x % 0x1_0000_0000;
    if w < 0x8000_0000 then w else w - 0x1_0000_0000
  }

  /** The quotient, rounded towards zero. */
  function Quo(x: int, m: int): int
    requires m > 0
  {
    if x >= 0 then x / m else -((-x) / m)
  }

  /** The remainder, with the sign of the dividend. */
  function Rem(x: int, m: int): (r: int)
    requires m > 0
    ensures -m < r < m && x == m * Quo(x, m) + r && (x >= 0 ==> r >= 0) && (x <= 0 ==> r <= 0)
  {
    if x >= 0 then x % m else -((-x) % m)
  }
}
