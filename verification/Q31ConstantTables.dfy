/** On which constant tables `arm_linear_interp_q31` is monotone. */
module Q31ConstantTables {
  import opened CInt
  import opened LinearInterp
  import opened Q31Monotonicity
  import opened BitLoops

  /** What the first product starts with, and what the second product has in excess of a multiple
      of 2^32. */
  function Room(y: int): int { y * 0x7FFF_FFFF % WORD }

  function Excess(y: int, low: int): int { 0x800 * (y * low % GRID) }

  /** A cell between equal entries never goes down exactly when there is always room for the
      excess. */
  lemma ConstantExactly(y: int)
    ensures Rises(y, y) <==> AlwaysRoom(y)
  {
    if low :| 0 <= low <= LAST && Excess(y, low) > Room(y) {
      LostConstant(y, low);
      LostConstant(y, 0);
      CutBoth(y, y, low);
      CutBoth(y, y, 0);
      Weighted(y, y, low * 0x800, 0x7FFF_FFFF);
      Weighted(y, y, 0, 0x7FFF_FFFF);
      if Rises(y, y) {
        CellRises(y, y, 0, low);
        assert false;
      }
    } else {
      forall low | 0 <= low < LAST ensures StepRises(y, y, low) {
        LostConstant(y, low);
        LostConstant(y, low + 1);
        assert Excess(y, low) <= Room(y) && Excess(y, low + 1) <= Room(y);
      }
    }
  }

  lemma LostConstant(y: int, low: int)
    ensures Lost(y, y, low) == Room(y) + if Excess(y, low) <= Room(y) then 0 else WORD
  {
    SplitEntry(y, 0, y, low);
    CutMultiple(y * low);
    CutDifference(y * 0x7FFF_FFFF, 0x800 * (y * low));
  }

  lemma CutMultiple(x: int)
    ensures 0x800 * x % WORD == 0x800 * (x % GRID)
  {
    DivModUnique(0x800 * x, WORD, x / GRID, 0x800 * (x % GRID));
  }

  lemma CutDifference(c: int, p: int)
    ensures (c - p) % WORD + p % WORD == c % WORD + if p % WORD <= c % WORD then 0 else WORD
  {
  }

  /** The largest power of two that divides y. */
  function LowBit(y: int): (b: int)
    requires y != 0
    ensures b >= 1
    decreases Abs(y)
  {
    if y % 2 == 1 then 1 else 2 * LowBit(y / 2)
  }

  /** The entries, of those that are even or not negative, at which a constant table is monotone. */
  predicate Steady(y: int) {
    if y == 0 || y == 1 then true
    else if y % 2 == 1 then false
    else if y > 0 then y <= 0x800 * LowBit(y)
    else y % GRID == 0
  }

  lemma ConstantTables(y: int32)
    requires y >= 0 || y % 2 == 0
    ensures Rises(y, y) <==> Steady(y)
  {
    ConstantExactly(y);
    if y == 0 {
    } else if y % 2 == 1 {
      OddTables(y);
    } else {
      EvenTables(y);
    }
  }

  /** In terms of the function: constant tables of two entries or more, from coordinate 0 on. */
  lemma ConstantTablesMonotone(table: seq<int32>, y: int32)
    requires 2 <= |table| <= 0x8000_0000 && (forall k | 0 <= k < |table| :: table[k] == y)
    requires y >= 0 || y % 2 == 0
    ensures (forall x: int32, x': int32 | 0 <= x <= x' :: InterpQ31(table, x) <= InterpQ31(table, x')) <==> Steady(y)
  {
    MonotoneFromZeroQ31(table);
    ConstantTables(y);
    assert table[0] == y && table[1] == y;
    if AllCellsRise(table) {
      assert Rises(table[0], table[1]);
    }
  }

  /** Of the negative odd entries, those near -2^31 are steady and those near 0 are not; in between
      `ConstantExactly` decides each. */
  lemma NegativeOddTables(y: int32)
    requires y < 0 && y % 2 == 1
    ensures y <= -0x8000_0000 + 0x800 ==> Rises(y, y)
    ensures y >= -0xF_FE00 ==> !Rises(y, y)
  {
    ConstantExactly(y);
    OddRoom(y);
    if y >= -0xF_FE00 {
      DivModUnique(y * 1, GRID, -1, GRID + y);
      assert Excess(y, 1) > Room(y);
    }
  }

  ghost predicate AlwaysRoom(y: int) { forall low | 0 <= low <= LAST :: Excess(y, low) <= Room(y) }

  lemma OddTables(y: int)
    requires 0 < y < 0x8000_0000 && y % 2 == 1
    ensures AlwaysRoom(y) <==> y == 1
  {
    OddRoom(y);
    if y == 1 {
      OneHasRoom();
    } else {
      var low := OddPasses(y);
    }
  }

  lemma EvenTables(y: int)
    requires -0x8000_0000 <= y < 0x8000_0000 && y % 2 == 0 && y != 0
    ensures AlwaysRoom(y) <==> if y > 0 then y <= 0x800 * LowBit(y) else y % GRID == 0
  {
    EvenRoom(y);
    var s, o := OddPart(y);
    if s >= 21 {
      MultipleOfGrid(y, s, o);
    } else {
      EvenExcess(y, s, o);
      var low := LargestExcess(y, s, o);
      LargestDecides(y, low, Pow2(s));
    }
  }

  lemma LargestDecides(y: int, low: int, b: int)
    requires 1 <= b <= 0x10_0000 && 0 <= low <= LAST && Excess(y, low) == WORD - 0x800 * b
    requires forall k :: Excess(y, k) <= WORD - 0x800 * b
    requires -0x8000_0000 <= y < 0x8000_0000 && y != 0 && y % GRID != 0
    requires Room(y) == if y > 0 then WORD - y else -y
    ensures AlwaysRoom(y) <==> y > 0 && y <= 0x800 * b
  {
    if y < 0 {
      assert y != -0x8000_0000;
    }
    if WORD - 0x800 * b <= Room(y) {
      forall k | 0 <= k <= LAST ensures Excess(y, k) <= Room(y) {
        assert Excess(y, k) <= WORD - 0x800 * b;
      }
    }
  }

  lemma SameFactor(x: int, y: int, b: int)
    requires b >= 1 && x * b == y * b
    ensures x == y
  {
    MulSub(b, x, y);
    assert x > y ==> b * (x - y) >= 1;
    assert x < y ==> b * (x - y) <= -1;
  }

  lemma OddRoom(y: int)
    requires -0x8000_0000 <= y < 0x8000_0000 && y % 2 == 1
    ensures Room(y) == 0x8000_0000 - y
  {
    DivModUnique(y * 0x7FFF_FFFF, WORD, y / 2, 0x8000_0000 - y);
  }

  lemma EvenRoom(y: int)
    requires -0x8000_0000 <= y < 0x8000_0000 && y % 2 == 0
    ensures Room(y) == if y > 0 then WORD - y else -y
  {
    if y > 0 {
      DivModUnique(y * 0x7FFF_FFFF, WORD, y / 2 - 1, WORD - y);
    } else {
      DivModUnique(y * 0x7FFF_FFFF, WORD, y / 2, -y);
    }
  }

  lemma OneHasRoom()
    ensures forall low | 0 <= low <= LAST :: Excess(1, low) <= 0x7FFF_FFFF
  {
  }

  /** An odd entry other than 1 has a multiple in the upper half of the grid. */
  lemma OddPasses(y: int) returns (low: int)
    requires 1 < y < 0x8000_0000 && y % 2 == 1
    ensures 0 <= low <= LAST && Excess(y, low) > 0x8000_0000 - y
  {
    var a := y % GRID;
    if a == 1 {
      low := LAST;
    } else if a >= 0x10_0000 {
      low := 1;
    } else {
      low := (0x10_0000 + a - 1) / a;
      CeilingMultiple(0x10_0000, a);
    }
    ReduceFactor(y, a, low);
  }

  lemma CeilingMultiple(x: int, a: int)
    requires 3 <= a < x == 0x10_0000
    ensures var q := (x + a - 1) / a; x <= a * q < x + a && 0 <= q <= LAST
  {
    var q := (x + a - 1) / a;
    DivBelow(x + a - 1, a, LAST);
  }

  lemma ReduceFactor(y: int, a: int, low: int)
    requires a == y % GRID && 0 <= a * low < GRID
    ensures y * low % GRID == a * low
  {
    var n := y / GRID;
    assert y * low == n * low * GRID + a * low;
    DivModUnique(y * low, GRID, n * low, a * low);
  }

  /** The exponent of the low bit, and the odd factor. */
  lemma OddPart(y: int) returns (s: nat, o: int)
    requires y != 0
    ensures y == o * Pow2(s) && o % 2 == 1 && LowBit(y) == Pow2(s)
    decreases Abs(y)
  {
    if y % 2 == 1 {
      s, o := 0, y;
    } else {
      var h;
      h, o := OddPart(y / 2);
      s := h + 1;
      TwiceProduct(y, o, Pow2(h), Pow2(s));
    }
  }

  lemma TwiceProduct(y: int, o: int, p: int, q: int)
    requires y % 2 == 0 && y / 2 == o * p && q == 2 * p
    ensures y == o * q
  {
    MulAssoc(o, 2, p);
  }

  lemma GridSplit(s: nat)
    requires s <= 21
    ensures GRID == Pow2(s) * Pow2(21 - s)
  {
    GridIsPower(20);
    Pow2Sum(s, 21 - s);
  }

  lemma GridIsPower(n: nat)
    requires n == 20
    ensures Pow2(n) == 0x10_0000 && Pow2(n + 1) == GRID
  {
    Pow2Values();
    Pow2Sum(4, 16);
  }

  lemma MultipleOfGrid(y: int, s: nat, o: int)
    requires s >= 21 && y == o * Pow2(s) && y < 0x8000_0000
    ensures y % GRID == 0 && y < 0x800 * Pow2(s)
    ensures forall low :: Excess(y, low) == 0
  {
    GridSplit(21);
    Pow2Sum(21, s - 21);
    GridMultiple(y, o, Pow2(s - 21), Pow2(s));
    forall low ensures Excess(y, low) == 0 {
      MultipleOfMultiple(y, low);
    }
  }

  lemma GridMultiple(y: int, o: int, p: int, q: int)
    requires p >= 1 && q == GRID * p && y == o * q
    ensures y % GRID == 0 && q >= GRID
  {
    assert y == o * p * GRID;
    DivModUnique(y, GRID, o * p, 0);
  }

  lemma MultipleOfMultiple(y: int, low: int)
    requires y % GRID == 0
    ensures y * low % GRID == 0
  {
    var n := y / GRID;
    assert y * low == n * low * GRID;
    DivModUnique(y * low, GRID, n * low, 0);
  }

  /** All multiples of the entry are multiples of its low bit. */
  lemma EvenExcess(y: int, s: nat, o: int)
    requires s <= 20 && y == o * Pow2(s)
    ensures forall low :: Excess(y, low) <= WORD - 0x800 * Pow2(s)
  {
    GridSplit(s);
    forall low ensures Excess(y, low) <= WORD - 0x800 * Pow2(s) {
      MultipleExcess(y, low, o, Pow2(s), Pow2(21 - s));
    }
  }

  lemma MultipleExcess(y: int, low: int, o: int, b: int, g: int)
    requires b >= 1 && g >= 1 && b * g == GRID && y == o * b
    ensures Excess(y, low) <= WORD - 0x800 * b
  {
    ScaledRemainder(o * low, b, g);
    RegroupFactors(o, b, low);
  }

  lemma RegroupFactors(o: int, b: int, low: int)
    ensures o * b * low == b * (o * low)
  {
  }

  lemma ScaledRemainder(x: int, b: int, g: int)
    requires b >= 1 && g >= 1
    ensures b * g >= 1 && b * x % (b * g) <= b * g - b
  {
    var q, r := x / g, x % g;
    MulLe(1, g, b);
    MulLe(0, r, b);
    MulLe(r + 1, g, b);
    assert b * x == q * (b * g) + b * r;
    DivModUnique(b * x, b * g, q, b * r);
  }

  /** And one of them is as close to the top of the grid as that allows. */
  lemma LargestExcess(y: int, s: nat, o: int) returns (low: int)
    requires 1 <= s <= 20 && y == o * Pow2(s) && o % 2 == 1
    ensures 0 <= low <= LAST && Excess(y, low) == WORD - 0x800 * Pow2(s)
    ensures y % GRID != 0 && Pow2(s) <= 0x10_0000
  {
    GridFactors(s);
    var q;
    low, q := MinusInverse(o, 21 - s);
    TopMultiple(y, o, low, q, Pow2(s), Pow2(21 - s));
    OddMultiple(y, o, Pow2(s), Pow2(21 - s));
  }

  lemma GridFactors(s: nat)
    requires 1 <= s <= 20
    ensures GRID == Pow2(s) * Pow2(21 - s)
    ensures Pow2(s) <= 0x10_0000 && 2 <= Pow2(21 - s) <= 0x10_0000 && Pow2(21 - s) % 2 == 0
  {
    GridSplit(s);
    GridIsPower(20);
    Pow2Monotone(s, 20);
    Pow2Monotone(21 - s, 20);
    assert Pow2(21 - s) == 2 * Pow2(20 - s);
  }

  lemma TopMultiple(y: int, o: int, low: int, q: int, b: int, g: int)
    requires b >= 1 && g >= 2 && b * g == GRID && y == o * b && o * low + 1 == q * g
    ensures y * low % GRID == GRID - b
  {
    assert y * low == b * (o * low);
    assert b * (o * low) == b * (q * g) - b;
    assert b * (q * g) == q * GRID;
    MulLe(1, g, b);
    DivModUnique(y * low, GRID, q - 1, GRID - b);
  }

  lemma OddMultiple(y: int, o: int, b: int, g: int)
    requires b >= 1 && g % 2 == 0 && b * g == GRID && y == o * b && o % 2 == 1
    ensures y % GRID != 0
  {
    if y % GRID == 0 {
      var n := y / GRID;
      assert y == n * g * b;
      SameFactor(o, n * g, b);
      EvenProduct(n, g);
      assert false;
    }
  }

  lemma EvenProduct(n: int, g: int)
    requires g % 2 == 0
    ensures n * g % 2 == 0
  {
    assert n * g == n * (g / 2) * 2;
    DivModUnique(n * g, 2, n * (g / 2), 0);
  }

  /** An odd number has an inverse modulo every power of two; here the one for -1. */
  lemma {:induction false} MinusInverse(o: int, k: nat) returns (l: int, q: int)
    requires o % 2 == 1
    ensures 0 <= l < Pow2(k) && o * l + 1 == q * Pow2(k)
  {
    if k == 0 {
      l, q := 0, 1;
    } else {
      l, q := MinusInverse(o, k - 1);
      InverseStep(o, l, q, Pow2(k - 1));
      l, q := if q % 2 == 0 then l else l + Pow2(k - 1), if q % 2 == 0 then q / 2 else (q + o) / 2;
    }
  }

  lemma InverseStep(o: int, l: int, q: int, p: int)
    requires o % 2 == 1 && o * l + 1 == q * p
    ensures q % 2 == 0 ==> o * l + 1 == q / 2 * (2 * p)
    ensures q % 2 == 1 ==> o * (l + p) + 1 == (q + o) / 2 * (2 * p)
  {
    MulAdd(o, l, p);
    MulAdd(p, q, o);
    MulAssoc(q / 2, 2, p);
    MulAssoc((q + o) / 2, 2, p);
  }
}
