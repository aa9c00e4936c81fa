/** Numbers of a fixed width. */
module Numbers {
  const U64_MAX: nat := 0xFFFF_FFFF_FFFF_FFFF
  const U256_LIMIT: nat := 0x1_0000_0000_0000_0000_0000_0000_0000_0000_0000_0000_0000_0000_0000_0000_0000_0000

  type u16 = n: int | 0 <= n < 0x1_0000
  type u64 = n: int | 0 <= n <= 0xFFFF_FFFF_FFFF_FFFF
  type u112 = n: int | 0 <= n < 0x1_0000_0000_0000_0000_0000_0000_0000
  type u256 = n: int | 0 <= n < 0x1_0000_0000_0000_0000_0000_0000_0000_0000_0000_0000_0000_0000_0000_0000_0000_0000
  type i32 = n: int | -0x8000_0000 <= n < 0x8000_0000

  /** A wrapping increment. */
  function Succ(sequence: u64): u64 {
    if sequence == U64_MAX then 0 else sequence + 1
  }
}
