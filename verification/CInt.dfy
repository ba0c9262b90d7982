/** The C integer types and conversions the headers rely on, over Dafny's unbounded `int`.

    A value stored in a variable of a fixed-width type is an element of the subset type
    of the same name, so that every such store is an overflow obligation.  Where the C
    code converts on purpose, the conversion is one of the `To...` functions.  A right
    shift of a signed value by n is the floor quotient by 2^n, which is what Dafny's `/`
    computes for a positive divisor; C's own `/` truncates and is `DivTrunc`. */
module CInt {

  type int8 = x: int | -0x80 <= x < 0x80
  type int16 = x: int | -0x8000 <= x < 0x8000
  type int32 = x: int | -0x8000_0000 <= x < 0x8000_0000
  type int64 = x: int | -0x8000_0000_0000_0000 <= x < 0x8000_0000_0000_0000
  type uint8 = x: int | 0 <= x < 0x100
  type uint16 = x: int | 0 <= x < 0x1_0000
  type uint32 = x: int | 0 <= x < 0x1_0000_0000

  /** Two's complement narrowing to 8, 16, 32 and 64 bits. */
  function ToInt8(x: int): int8 { (x + 0x80) % 0x100 - 0x80 }

  function ToInt16(x: int): int16 { (x + 0x8000) % 0x1_0000 - 0x8000 }

  function ToInt32(x: int): int32 { (x + 0x8000_0000) % 0x1_0000_0000 - 0x8000_0000 }

  function ToInt64(x: int): int64 {
    (x + 0x8000_0000_0000_0000) % 0x1_0000_0000_0000_0000 - 0x8000_0000_0000_0000
  }

  function ToUint16(x: int): uint16 { x % 0x1_0000 }

  function ToUint32(x: int): uint32 { x % 0x1_0000_0000 }

  /** Division as C defines it: the quotient is rounded towards zero. */
  function DivTrunc(a: int, b: int): int
    requires b > 0
  {
    if a >= 0 then a / b else -(-a / b)
  }

  function Abs(x: int): nat { if x < 0 then -x else x }

  function Min(x: int, y: int): int { if x < y then x else y }

  function Max(x: int, y: int): int { if x < y then y else x }

  function Clamp(x: int, lo: int, hi: int): int
    requires lo <= hi
  {
    if x < lo then lo else if x > hi then hi else x
  }

  function Pow2(n: nat): (r: int)
    ensures r >= 1
  {
    if n == 0 then 1 else 2 * Pow2(n - 1)
  }

  lemma {:induction false} Pow2Sum(a: nat, b: nat)
    ensures Pow2(a + b) == Pow2(a) * Pow2(b)
  {
    if a == 0 {
    } else {
      Pow2Sum(a - 1, b);
    }
  }

  lemma Pow2Values()
    ensures Pow2(8) == 0x100 && Pow2(14) == 0x4000 && Pow2(15) == 0x8000 && Pow2(16) == 0x1_0000
    ensures Pow2(30) == 0x4000_0000 && Pow2(31) == 0x8000_0000 && Pow2(32) == 0x1_0000_0000
  {
    assert Pow2(8) == 0x100;
    assert Pow2(16) == 0x1_0000 by { Pow2Sum(8, 8); }
    assert Pow2(30) == 0x4000_0000 by { Pow2Sum(14, 16); }
  }

  /** Uniqueness of quotient and remainder. */
  lemma DivModUnique(x: int, d: int, q: int, r: int)
    requires d > 0 && 0 <= r < d && x == q * d + r
    ensures x / d == q && x % d == r
  {
    var e := x / d - q;
    assert e * d == r - x % d;
    assert e >= 1 ==> e * d >= d;
    assert e <= -1 ==> e * d <= -d;
  }

  /** A quotient is below k when the dividend is below k divisors. */
  lemma DivBelow(x: int, d: int, k: int)
    requires d > 0 && 0 <= x < d * k
    ensures 0 <= x / d < k
  {
    var q := x / d;
    assert q >= k ==> d * q >= d * k;
    assert q <= -1 ==> d * q <= -d;
  }

  // Products of variables, one identity at a time, for the places where the solver
  // needs them named.

  lemma MulAssoc(a: int, b: int, c: int)
    ensures a * (b * c) == a * b * c
  {
  }

  lemma MulAdd(a: int, b: int, c: int)
    ensures a * (b + c) == a * b + a * c
  {
  }

  lemma MulSub(a: int, b: int, c: int)
    ensures a * (b - c) == a * b - a * c
  {
  }

  lemma MulLe(a: int, b: int, c: int)
    requires a <= b && c >= 0
    ensures a * c <= b * c
  {
  }
}
