/** Fixed-width machine integers of the IA-32 target, written as ranges of `int`
    with explicit wrap-around. */
module Words {
  const TWO31: int := 0x8000_0000
  const TWO32: int := 0x1_0000_0000
  const TWO63: int := 0x8000_0000_0000_0000
  const TWO64: int := 0x1_0000_0000_0000_0000

  type u32 = x: int | 0 <= x < 0x1_0000_0000
  type u64 = x: int | 0 <= x < 0x1_0000_0000_0000_0000
  type i32 = x: int | -0x8000_0000 <= x < 0x8000_0000
  type i64 = x: int | -0x8000_0000_0000_0000 <= x < 0x8000_0000_0000_0000

  /** Conversions reduce modulo 2^N and keep every value already in range;
      the signed ones pick the representative in two's complement. */
  function ToU32(x: int): (r: u32)
    ensures 0 <= x < TWO32 ==> r == x
  {
    x % TWO32
  }

  function ToU64(x: int): (r: u64)
    ensures 0 <= x < TWO64 ==> r == x
    ensures -TWO64 <= x < 0 ==> r == x + TWO64
  {
    x % TWO64
  }

  function ToI32(x: int): (r: i32)
    ensures -TWO31 <= x < TWO31 ==> r == x
  {
    var r := x % TWO32;
    if r < TWO31 then r else r - TWO32
  }

  function ToI64(x: int): (r: i64)
    ensures -TWO63 <= x < TWO63 ==> r == x
    ensures TWO63 <= x < TWO64 ==> r == x - TWO64
  {
    var r := x % TWO64;
    if r < TWO63 then r else r - TWO64
  }

  function Pow2(n: nat): nat {
    if n == 0 then 1 else 2 * Pow2(n - 1)
  }
}
