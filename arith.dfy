/**
 * The range checks of SafeAddInt, SafeCastLongLongToInt and SafePointerOffset, on
 * mathematical integers with the C bounds written out.
 */
module CheckedArith {
  import opened Wrappers
  import opened CLimits

  /**
   * The manual pre-check of SafeAddInt: it compares against INT_MAX - b and INT_MIN - b,
   * neither of which can overflow for the sign of b tested, before adding.
   */
  function AddChecked(a: Int32, b: Int32): (r: Option<Int32>)
    ensures r.Some? <==> INT_MIN <= a + b <= INT_MAX
    ensures r.Some? ==> r.value == a + b
  {
    if (b > 0 && a > INT_MAX - b) || (b < 0 && a < INT_MIN - b) then None
    else Some(a + b)
  }

  /** SafeCastLongLongToInt: a long long narrows to int only when it is in int's range. */
  function CastChecked(v: Int64): (r: Option<Int32>)
    ensures r.Some? <==> INT_MIN <= v <= INT_MAX
    ensures r.Some? ==> r.value == v
  {
    if v > INT_MAX || v < INT_MIN then None
    else Some(v as Int32)
  }

  /** The uintptr_t sum of the source, reduced modulo 2^64. */
  function WrappingAdd(a: UIntPtr, b: SizeT): (r: UIntPtr)
    ensures r < a <==> a + b > UINTPTR_MAX
    ensures a + b <= UINTPTR_MAX ==> r == a + b
  {
    if a + b > UINTPTR_MAX then a + b - (UINTPTR_MAX + 1) else a + b
  }

  /**
   * SafePointerOffset: base + offset, or NULL (address 0) when base is NULL, when the
   * offset runs past the base region, or when the address sum wraps.
   */
  function OffsetChecked(base: UIntPtr, baseSize: SizeT, offset: SizeT): (p: UIntPtr)
    ensures p != 0 <==> base != 0 && offset <= baseSize && base + offset <= UINTPTR_MAX
    ensures p != 0 ==> p == base + offset
  {
    if base == 0 then 0
    else if offset > baseSize || WrappingAdd(base, offset) < base then 0
    else base + offset
  }

  lemma AddExamples()
    ensures AddChecked(5, 3) == Some(8)
    ensures AddChecked(INT_MAX, 1) == None
  {
  }

  lemma CastExamples()
    ensures CastChecked(42) == Some(42)
    ensures CastChecked(INT_MAX) == Some(INT_MAX)
    ensures CastChecked(INT_MAX + 1) == None
  {
  }
}
