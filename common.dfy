/** Machine integer ranges, error wrappers and exact ratios shared by the model. */
module Common {

  const TWO_32: nat := 0x1_0000_0000
  const TWO_64: nat := 0x1_0000_0000_0000_0000

  /** uint32_t and uint64_t as ranges of the unbounded integers. */
  type U32 = x: int | 0 <= x < 0x1_0000_0000
  type U64 = x: int | 0 <= x < 0x1_0000_0000_0000_0000

  const UINT32_MAX: U32 := 0xFFFF_FFFF
  const UINT64_MAX: U64 := 0xFFFF_FFFF_FFFF_FFFF

  datatype Option<+T> = None | Some(value: T)

  /** An exception of the source (std::map::at on a missing key) is a Failure. */
  datatype Result<+T, +E> = Success(value: T) | Failure(error: E)

  /** The operands of the source's `float(num) / den`, kept exact. */
  datatype Fraction = Fraction(num: nat, den: nat)
}
