/** The integer types of the C++ implementation, where their width matters. */
module Machine {
  /** The number of values of the 64-bit `size_t`. */
  const SIZE_T: nat := 0x1_0000_0000_0000_0000

  type SizeT = n: nat | n < SIZE_T

  /** The largest 32-bit `int`. */
  const INT_MAX: int := 0x7FFF_FFFF

  /** Addition on `size_t`, which wraps around. */
  function WrapAdd(a: SizeT, b: SizeT): (r: SizeT)
    ensures r == (a + b) % SIZE_T
  {
    if a + b < SIZE_T then a + b else a + b - SIZE_T
  }
}
