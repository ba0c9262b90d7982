/** `arm_linear_interp_q31`, `_q15` and `_q7`: a table of equidistant samples read at a
    12.20 coordinate.

    Masking off and shifting down the upper 12 bits is the floor quotient by 2^20, masking
    the lower 20 bits the remainder. */
module LinearInterp {
  import opened CInt

  /** Between two neighbouring entries; the weights add up to 2^20 - 1. */
  function Cell(y0: int, y1: int, fract: int): int {
    (y0 * (0xF_FFFF - fract) + y1 * fract) / 0x10_0000
  }

  function InterpQ15(table: seq<int16>, x: int32): int16
    requires 1 <= |table| <= 0x8000_0000
  {
    var n := |table|;
    var index := x / 0x10_0000;
    if index >= n - 1 then table[n - 1]
    else if index < 0 then table[0]
    else
      var fract := x % 0x10_0000;
      CellBounds(table[index], table[index + 1], fract);
      Cell(table[index], table[index + 1], fract)
  }

  /** The accumulator of the Q7 form is 32 bits wide. */
  function InterpQ7(table: seq<int8>, x: int32): int8
    requires 1 <= |table| <= 0x1_0000_0000
  {
    var n := |table|;
    if x < 0 then table[0]
    else
      var index: uint32 := x / 0x10_0000 % 0x1000;
      if index >= n - 1 then table[n - 1]
      else
        var fract := x % 0x10_0000;
        CellBounds(table[index], table[index + 1], fract);
        ProductBound(table[index], 0xF_FFFF - fract);
        ProductBound(table[index + 1], fract);
        var y: int32 := table[index] * (0xF_FFFF - fract);
        var y': int32 := y + table[index + 1] * fract;
        y' / 0x10_0000
  }

  lemma ProductBound(y: int8, w: int)
    requires 0 <= w <= 0xF_FFFF
    ensures -0x800_0000 <= y * w <= 0x800_0000
  {
    MulLe(-0x80, y, w);
    MulLe(y, 0x80, w);
  }

  /** An interpolated value lies between its neighbours or, when both are positive, one below
      the smaller of them: the weights fall one short of a full step. */
  lemma CellBounds(y0: int, y1: int, fract: int)
    requires 0 <= fract <= 0xF_FFFF
    requires -0x10_0000 < y0 < 0x10_0000 && -0x10_0000 < y1 < 0x10_0000
    ensures Min(y0, y1) - (if Min(y0, y1) > 0 then 1 else 0) <= Cell(y0, y1, fract) <= Max(y0, y1)
  {
    var lo, hi, w := Min(y0, y1), Max(y0, y1), 0xF_FFFF - fract;
    MulLe(lo, y0, w);
    MulLe(lo, y1, fract);
    MulLe(y0, hi, w);
    MulLe(y1, hi, fract);
    assert lo * w + lo * fract == lo * 0xF_FFFF;
    assert hi * w + hi * fract == hi * 0xF_FFFF;
  }

  /** Compared with the exact linear interpolation, whose weights add up to 2^20, a cell is
      less than two units low and less than one unit high. */
  lemma CellNearExact(y0: int, y1: int, fract: int)
    requires 0 <= fract <= 0xF_FFFF && -0x10_0000 < y0 < 0x10_0000
    ensures -0x20_0000 < Cell(y0, y1, fract) * 0x10_0000 - (y0 * (0x10_0000 - fract) + y1 * fract) < 0x10_0000
  {
    Weighted(y0, y1, fract, 0xF_FFFF);
    Weighted(y0, y1, fract, 0x10_0000);
  }

  // ---- Order ----

  ghost predicate Sorted(table: seq<int>) {
    forall i, j | 0 <= i <= j < |table| :: table[i] <= table[j]
  }

  ghost predicate Bounded(table: seq<int>) {
    forall i | 0 <= i < |table| :: -0x10_0000 < table[i] < 0x10_0000
  }

  /** The common form of the two functions. */
  function Interp(table: seq<int>, x: int): int
    requires |table| >= 1
  {
    var n, index := |table|, x / 0x10_0000;
    if index >= n - 1 then table[n - 1]
    else if index < 0 then table[0]
    else Cell(table[index], table[index + 1], x % 0x10_0000)
  }

  lemma InterpQ15Is(table: seq<int16>, x: int32)
    requires 1 <= |table| <= 0x8000_0000
    ensures InterpQ15(table, x) == Interp(table, x)
  {
  }

  lemma InterpQ7Is(table: seq<int8>, x: int32)
    requires 1 <= |table| <= 0x1_0000_0000
    ensures InterpQ7(table, x) == Interp(table, x)
  {
  }

  /** Inside the table both functions return the floor of the weighted sum of the two entries around
      the coordinate, weighted by its fraction ... */
  lemma InterpFloor(table: seq<int>, x: int)
    requires 0 <= x / 0x10_0000 < |table| - 1
    ensures var k, f := x / 0x10_0000, x % 0x10_0000;
            0 <= table[k] * (0xF_FFFF - f) + table[k + 1] * f - Interp(table, x) * 0x10_0000 < 0x10_0000
  {
  }

  /** ... and so less than two units below and less than one unit above the exact linear
      interpolation. */
  lemma InterpQ15Accuracy(table: seq<int16>, x: int32)
    requires 1 <= |table| <= 0x8000_0000 && 0 <= x / 0x10_0000 < |table| - 1
    ensures var k, f := x / 0x10_0000, x % 0x10_0000;
            -0x20_0000 < InterpQ15(table, x) * 0x10_0000 - (table[k] * (0x10_0000 - f) + table[k + 1] * f)
                       < 0x10_0000
  {
    CellNearExact(table[x / 0x10_0000], table[x / 0x10_0000 + 1], x % 0x10_0000);
  }

  lemma InterpQ7Accuracy(table: seq<int8>, x: int32)
    requires 1 <= |table| <= 0x1_0000_0000 && 0 <= x / 0x10_0000 < |table| - 1
    ensures var k, f := x / 0x10_0000, x % 0x10_0000;
            -0x20_0000 < InterpQ7(table, x) * 0x10_0000 - (table[k] * (0x10_0000 - f) + table[k + 1] * f)
                       < 0x10_0000
  {
    InterpQ7Is(table, x);
    CellNearExact(table[x / 0x10_0000], table[x / 0x10_0000 + 1], x % 0x10_0000);
  }

  /** Outside the table all three widths return the entry at the end. */
  lemma InterpClamps(q15: seq<int16>, q7: seq<int8>, q31: seq<int32>, x: int32)
    requires 1 <= |q15| <= 0x8000_0000 && 1 <= |q7| <= 0x1_0000_0000 && 1 <= |q31| <= 0x8000_0000
    ensures x < 0 ==> InterpQ15(q15, x) == q15[0] && InterpQ7(q7, x) == q7[0] && InterpQ31(q31, x) == q31[0]
    ensures x >= (|q15| - 1) * 0x10_0000 ==> InterpQ15(q15, x) == q15[|q15| - 1]
    ensures x >= (|q7| - 1) * 0x10_0000 ==> InterpQ7(q7, x) == q7[|q7| - 1]
    ensures x >= (|q31| - 1) * 0x10_0000 ==> InterpQ31(q31, x) == q31[|q31| - 1]
  {
  }

  /** The value a cell starts with; its predecessor ends no higher. */
  function Start(y: int): int { y * 0xF_FFFF / 0x10_0000 }

  lemma CellMonotone(y0: int, y1: int, f: int, f': int)
    requires y0 <= y1 && 0 <= f <= f' <= 0xF_FFFF
    ensures Start(y0) <= Cell(y0, y1, f) <= Cell(y0, y1, f') <= Start(y1)
  {
    var M := 0xF_FFFF;
    MulLe(0, f, y1 - y0);
    MulLe(f, f', y1 - y0);
    MulLe(f', M, y1 - y0);
    Weighted(y0, y1, f, M);
    Weighted(y0, y1, f', M);
  }

  lemma Weighted(y0: int, y1: int, f: int, M: int)
    ensures y0 * (M - f) + y1 * f == y0 * M + f * (y1 - y0)
  {
  }

  /** For a nondecreasing table the result is nondecreasing over all coordinates from 0 on,
      across cell boundaries and into the clamped top. */
  lemma MonotoneFromZero(table: seq<int>, x: int, x': int)
    requires |table| >= 1 && Sorted(table) && Bounded(table) && 0 <= x <= x'
    ensures Interp(table, x) <= Interp(table, x')
  {
    var n, k, k' := |table|, x / 0x10_0000, x' / 0x10_0000;
    if k < n - 1 {
      if k == k' {
        CellMonotone(table[k], table[k + 1], x % 0x10_0000, x' % 0x10_0000);
      } else {
        CellMonotone(table[k], table[k + 1], x % 0x10_0000, 0xF_FFFF);
        if k' < n - 1 {
          CellMonotone(table[k'], table[k' + 1], 0, x' % 0x10_0000);
          assert table[k + 1] <= table[k'];
        }
      }
    }
  }

  /** Over negative coordinates too, a nondecreasing table gives a nondecreasing result
      exactly when it has one entry or starts at or below zero: otherwise the step from
      -2^-20 to 0 goes down. */
  lemma MonotoneEverywhere(table: seq<int>)
    requires |table| >= 1 && Sorted(table) && Bounded(table)
    ensures (forall x: int32, x': int32 | x <= x' :: Interp(table, x) <= Interp(table, x'))
            <==> |table| == 1 || table[0] <= 0
  {
    if |table| == 1 || table[0] <= 0 {
      forall x: int32, x': int32 | x <= x' ensures Interp(table, x) <= Interp(table, x') {
        if x >= 0 {
          MonotoneFromZero(table, x, x');
        } else if x' >= 0 {
          MonotoneFromZero(table, 0, x');
        }
      }
    } else {
      var before: int32, origin: int32 := -1, 0;
      assert Interp(table, before) == table[0];
      assert Interp(table, origin) == table[0] - 1;
    }
  }

  // ---- Q31 ----

  function InterpQ31(table: seq<int32>, x: int32): int32
    requires 1 <= |table| <= 0x8000_0000
  {
    var n := |table|;
    var index := x / 0x10_0000;
    if index >= n - 1 then table[n - 1]
    else if index < 0 then table[0]
    else
      var fract: int32 := x % 0x10_0000 * 0x800;
      CellQ31Fits(table[index], table[index + 1], x % 0x10_0000);
      var y: int32 := table[index] * (0x7FFF_FFFF - fract) / 0x1_0000_0000;
      var y': int32 := y + table[index + 1] * fract / 0x1_0000_0000;
      2 * y'
  }

  /** No step of the Q31 form overflows, not even for a table of full-scale entries. */
  lemma CellQ31Fits(y0: int32, y1: int32, low: int)
    requires 0 <= low <= 0xF_FFFF
    ensures var a, b := y0 * (0x7FFF_FFFF - low * 0x800) / 0x1_0000_0000, y1 * (low * 0x800) / 0x1_0000_0000;
            -0x4000_0000 <= a + b < 0x4000_0000 && -0x8000_0000 <= a < 0x8000_0000
  {
    var f := low * 0x800;
    var w := 0x7FFF_FFFF - f;
    MulLe(-0x8000_0000, y0, w);
    MulLe(y0, 0x7FFF_FFFF, w);
    MulLe(-0x8000_0000, y1, f);
    MulLe(y1, 0x7FFF_FFFF, f);
    assert y0 * w + y1 * f <= 0x7FFF_FFFF * 0x7FFF_FFFF;
    assert (-0x8000_0000 * w) / 0x1_0000_0000 == -(w + 1) / 2 == low * 0x400 - 0x4000_0000;
    assert (-0x8000_0000 * f) / 0x1_0000_0000 == -(low * 0x400);
  }

  /** The weighted sum of the Q31 cell at full precision, scaled by 2^31. */
  function WeightedQ31(y0: int, y1: int, low: int): int {
    y0 * (0x7FFF_FFFF - low * 0x800) + y1 * (low * 0x800)
  }

  function CellQ31(y0: int, y1: int, low: int): int {
    2 * (y0 * (0x7FFF_FFFF - low * 0x800) / 0x1_0000_0000 + y1 * (low * 0x800) / 0x1_0000_0000)
  }

  /** The two separate truncations and the final doubling lose less than 4 units, and only
      downwards. */
  lemma CellQ31Accuracy(y0: int, y1: int, low: int)
    ensures CellQ31(y0, y1, low) % 2 == 0
    ensures 0 <= WeightedQ31(y0, y1, low) - CellQ31(y0, y1, low) * 0x8000_0000 < 4 * 0x8000_0000
  {
    LostInShift(y0 * (0x7FFF_FFFF - low * 0x800));
    LostInShift(y1 * (low * 0x800));
  }

  /** What the Q31 function returns for a coordinate within the table. */
  lemma InterpQ31Accuracy(table: seq<int32>, x: int32)
    requires 1 <= |table| <= 0x8000_0000 && 0 <= x / 0x10_0000 < |table| - 1
    ensures var k, low := x / 0x10_0000, x % 0x10_0000;
            0 <= WeightedQ31(table[k], table[k + 1], low) - InterpQ31(table, x) * 0x8000_0000 < 4 * 0x8000_0000
  {
    CellQ31Accuracy(table[x / 0x10_0000], table[x / 0x10_0000 + 1], x % 0x10_0000);
  }

  lemma LostInShift(p: int)
    ensures 0 <= p - p / 0x1_0000_0000 * 0x1_0000_0000 < 0x1_0000_0000
  {
  }

  /** Unlike the narrower forms the Q31 form is not monotone: on a table that is constantly
      -1 the result goes down from -2 at 0 to -4 at 2^-20. */
  lemma Q31NotMonotone(table: seq<int32>)
    requires table == [-1, -1]
    ensures Sorted(table) && InterpQ31(table, 0) == -2 && InterpQ31(table, 1) == -4
  {
  }

  /** It never goes down by more than that, though. */
  lemma Q31NearlyMonotone(table: seq<int32>, x: int32, x': int32)
    requires 1 <= |table| <= 0x8000_0000 && Sorted(table) && 0 <= x <= x'
    ensures InterpQ31(table, x) <= InterpQ31(table, x') + 2
  {
    var n, k, k' := |table|, x / 0x10_0000, x' / 0x10_0000;
    if k < n - 1 {
      var low, low' := x % 0x10_0000, x' % 0x10_0000;
      if k == k' {
        WeightedMonotone(table[k], table[k + 1], low, low');
        NearlyOrdered(table[k], table[k + 1], low, table[k'], table[k' + 1], low');
      } else {
        WeightedMonotone(table[k], table[k + 1], low, 0xF_FFFF);
        if k' < n - 1 {
          assert table[k + 1] <= table[k'];
          WeightedMonotone(table[k'], table[k' + 1], 0, low');
          NearlyOrdered(table[k], table[k + 1], low, table[k'], table[k' + 1], low');
        } else {
          NearlyBelow(table[k], table[k + 1], low, table[n - 1]);
        }
      }
    }
  }

  lemma NearlyOrdered(y0: int, y1: int, low: int, z0: int, z1: int, low': int)
    requires WeightedQ31(y0, y1, low) <= WeightedQ31(z0, z1, low')
    ensures CellQ31(y0, y1, low) <= CellQ31(z0, z1, low') + 2
  {
    CellQ31Accuracy(y0, y1, low);
    CellQ31Accuracy(z0, z1, low');
    EvenGap(WeightedQ31(y0, y1, low), CellQ31(y0, y1, low), WeightedQ31(z0, z1, low'), CellQ31(z0, z1, low'));
  }

  lemma EvenGap(w: int, r: int, w': int, r': int)
    requires w <= w' && r * 0x8000_0000 <= w && w' < (r' + 4) * 0x8000_0000 && r % 2 == 0 && r' % 2 == 0
    ensures r <= r' + 2
  {
  }

  lemma NearlyBelow(y0: int, y1: int, low: int, top: int)
    requires WeightedQ31(y0, y1, low) <= top * 0x7FFF_FFFF && top >= -0x8000_0000
    ensures CellQ31(y0, y1, low) <= top + 2
  {
    CellQ31Accuracy(y0, y1, low);
    BelowTop(WeightedQ31(y0, y1, low), CellQ31(y0, y1, low), top);
  }

  lemma BelowTop(w: int, r: int, top: int)
    requires r * 0x8000_0000 <= w <= top * 0x7FFF_FFFF && top >= -0x8000_0000
    ensures r <= top + 2
  {
  }

  lemma WeightedMonotone(y0: int, y1: int, low: int, low': int)
    requires y0 <= y1 && 0 <= low <= low' <= 0xF_FFFF
    ensures y0 * 0x7FFF_FFFF <= WeightedQ31(y0, y1, low) <= WeightedQ31(y0, y1, low') <= y1 * 0x7FFF_FFFF
  {
    var M := 0x7FFF_FFFF;
    MulLe(0, low * 0x800, y1 - y0);
    MulLe(low * 0x800, low' * 0x800, y1 - y0);
    MulLe(low' * 0x800, M, y1 - y0);
    Weighted(y0, y1, low * 0x800, M);
    Weighted(y0, y1, low' * 0x800, M);
  }
}
