/** The machine numbers the programs work with. */
module Words {

  const INT_MAX: int := 0x7FFF_FFFF
  const UINT64_MAX: int := 0xFFFF_FFFF_FFFF_FFFF

  type Byte = b: int | 0 <= b < 256

  type Int = n: int | -INT_MAX - 1 <= n <= INT_MAX

  type Size = n: int | 0 <= n <= UINT64_MAX
}
