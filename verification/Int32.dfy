/** The 32-bit signed int of the program. */
module Int32 {
  const INT_MAX := 0x7FFF_FFFF

  // Two's-complement wrap-around.
  function ToInt32(x: int): (n: int)
  {
    (x + 0x8000_0000) % 0x1_0000_0000 - 0x8000_0000
  }

  // Division truncating towards zero.
  function QuotTrunc(x: int, y: int): (n: int)
    requires y > 0
  {
    if x >= 0 then x / y else -(-x / y)
  }
}
