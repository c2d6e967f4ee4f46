/**
 * The integer widths of an LP64 target (64-bit size_t and uintptr_t, 32-bit int,
 * 64-bit long long) and the errno values the source stores.
 */
module CLimits {
  const SIZE_MAX: int := 0xFFFF_FFFF_FFFF_FFFF
  const UINTPTR_MAX: int := 0xFFFF_FFFF_FFFF_FFFF
  const INT_MIN: int := -0x8000_0000
  const INT_MAX: int := 0x7FFF_FFFF
  const LLONG_MIN: int := -0x8000_0000_0000_0000
  const LLONG_MAX: int := 0x7FFF_FFFF_FFFF_FFFF

  /** sizeof(size_t): the bookkeeping overhead SafeMalloc keeps free below SIZE_MAX. */
  const SIZEOF_SIZE_T: int := 8

  /** Linux values of the two errno codes the source uses. */
  const EINVAL: int := 22
  const EOVERFLOW: int := 75

  type SizeT = x: int | 0 <= x <= 0xFFFF_FFFF_FFFF_FFFF
  type UIntPtr = x: int | 0 <= x <= 0xFFFF_FFFF_FFFF_FFFF
  type Int32 = x: int | -0x8000_0000 <= x <= 0x7FFF_FFFF
  type Int64 = x: int | -0x8000_0000_0000_0000 <= x <= 0x7FFF_FFFF_FFFF_FFFF
}
