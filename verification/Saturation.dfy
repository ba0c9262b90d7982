/** The saturating helpers of arm_math.h and the software __SSAT of cmsis_gcc.h. */
module Saturation {
  import opened CInt

  /** Bitwise exclusive or with a sign word: 0 leaves the operand, -1 complements it. */
  function XorSign(a: int32, sign: int): int32
    requires sign == 0 || sign == -1
  {
    if sign == 0 then a else -1 - a
  }

  /** The test compares the high word with the sign extension of the low word; the result
      is the nearest Q31 value for every 64-bit input. */
  function ClipQ63ToQ31(x: int64): (r: int32)
    ensures r == Clamp(x, -0x8000_0000, 0x7FFF_FFFF)
  {
    if ToInt32(x / 0x1_0000_0000) != ToInt32(x) / 0x8000_0000 then
      XorSign(0x7FFF_FFFF, ToInt32(x / 0x8000_0000_0000_0000))
    else
      ToInt32(x)
  }

  function QAdd(x: int32, y: int32): (r: int32)
    ensures r == Clamp(x + y, -0x8000_0000, 0x7FFF_FFFF)
  {
    ClipQ63ToQ31(x + y)
  }

  function QSub(x: int32, y: int32): (r: int32)
    ensures r == Clamp(x - y, -0x8000_0000, 0x7FFF_FFFF)
  {
    ClipQ63ToQ31(x - y)
  }

  /** A width outside 1..32 leaves the value alone. */
  function SSat(val: int32, sat: uint32): (r: int32)
    ensures 1 <= sat <= 32 ==> r == Clamp(val, -Pow2(sat - 1), Pow2(sat - 1) - 1)
    ensures !(1 <= sat <= 32) ==> r == val
  {
    if 1 <= sat <= 32 then
      Pow2AtMost31(sat - 1);
      var max: int32 := Pow2(sat - 1) - 1;
      var min: int32 := -1 - max;
      if val > max then max else if val < min then min else val
    else
      val
  }

  lemma Pow2AtMost31(n: nat)
    requires n <= 31
    ensures Pow2(n) <= 0x8000_0000
  {
    Pow2Values();
    Pow2Sum(n, 31 - n);
    assert Pow2(n) * 1 <= Pow2(n) * Pow2(31 - n);
  }
}
