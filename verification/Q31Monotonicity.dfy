/** For which tables `arm_linear_interp_q31` is monotone.

    Both products of a cell are cut to a multiple of 2^32 on their own.  From one fraction to the
    next the exact sum grows by 2^11 times the difference of the entries, and the result goes down
    exactly when the two cuts together grow by more than that. */
module Q31Monotonicity {
  import opened CInt
  import opened LinearInterp

  const WORD: int := 0x1_0000_0000
  const LAST: int := 0xF_FFFF  // the largest fraction
  const CELLS: int := 0x800    // a coordinate that is not negative selects one of so many cells
  const GRID: int := 0x20_0000

  function First(y0: int, low: int): int { y0 * (0x7FFF_FFFF - low * 0x800) }

  function Second(y1: int, low: int): int { y1 * (low * 0x800) }

  /** What is cut off the two products. */
  function Lost(y0: int, y1: int, low: int): int { First(y0, low) % WORD + Second(y1, low) % WORD }

  ghost predicate StepRises(y0: int, y1: int, low: int) {
    Lost(y0, y1, low + 1) - Lost(y0, y1, low) <= 0x800 * (y1 - y0)
  }

  /** The cell between two entries never goes down. */
  ghost predicate Rises(y0: int, y1: int) {
    forall low | 0 <= low < LAST :: StepRises(y0, y1, low)
  }

  lemma CutBoth(y0: int, y1: int, low: int)
    ensures WeightedQ31(y0, y1, low) == 0x8000_0000 * CellQ31(y0, y1, low) + Lost(y0, y1, low)
  {
    Cut(First(y0, low));
    Cut(Second(y1, low));
  }

  lemma Cut(p: int)
    ensures p == WORD * (p / WORD) + p % WORD && 0 <= p % WORD < WORD
  {
  }

  lemma WeightedStep(y0: int, y1: int, low: int)
    ensures WeightedQ31(y0, y1, low + 1) - WeightedQ31(y0, y1, low) == 0x800 * (y1 - y0)
  {
    Weighted(y0, y1, low * 0x800, 0x7FFF_FFFF);
    Weighted(y0, y1, (low + 1) * 0x800, 0x7FFF_FFFF);
    MulAdd(y1 - y0, low * 0x800, 0x800);
  }

  /** One step of the fraction. */
  lemma StepExactly(y0: int, y1: int, low: int)
    ensures CellQ31(y0, y1, low) <= CellQ31(y0, y1, low + 1) <==> StepRises(y0, y1, low)
  {
    CutBoth(y0, y1, low);
    CutBoth(y0, y1, low + 1);
    WeightedStep(y0, y1, low);
  }

  lemma {:induction false} CellRises(y0: int, y1: int, low: int, low': int)
    requires Rises(y0, y1) && 0 <= low <= low' <= LAST
    ensures CellQ31(y0, y1, low) <= CellQ31(y0, y1, low')
    decreases low' - low
  {
    if low == low' {
    } else {
      assert StepRises(y0, y1, low);
      StepExactly(y0, y1, low);
      CellRises(y0, y1, low + 1, low');
    }
  }

  /** At the entry itself. */
  function StartQ31(y: int): int { 2 * (y * 0x7FFF_FFFF / WORD) }

  lemma CellEnds(y0: int, y1: int)
    ensures CellQ31(y0, y1, 0) == StartQ31(y0)
    ensures y0 <= y1 ==> CellQ31(y0, y1, LAST) <= StartQ31(y1)
  {
    assert Second(y1, 0) == 0;
    assert First(y0, LAST) == y0 * 0x7FF && Second(y1, LAST) == y1 * 0x7FFF_F800;
    JoinQuotients(y0 * 0x7FF, y1 * 0x7FFF_F800, y1 * 0x7FFF_FFFF);
  }

  lemma JoinQuotients(p: int, q: int, sum: int)
    ensures p + q <= sum ==> p / WORD + q / WORD <= sum / WORD
  {
    Cut(p);
    Cut(q);
    Cut(sum);
  }

  lemma StartOrdered(y: int, y': int)
    requires y <= y'
    ensures StartQ31(y) <= StartQ31(y')
  {
    JoinQuotients(y * 0x7FFF_FFFF, 0, y' * 0x7FFF_FFFF);
  }

  lemma StartBelow(y: int32)
    ensures StartQ31(y) <= y
    ensures y <= StartQ31(y) <==> y <= 0 && y % 2 == 0
  {
  }

  // ---- Whole tables ----

  ghost predicate AllCellsRise(table: seq<int32>) {
    forall k | 0 <= k < |table| - 1 && k < CELLS :: Rises(table[k], table[k + 1])
  }

  /** For nondecreasing tables, over all coordinates from 0 on: at the nodes and into the clamped
      top the result never goes down, so all depends on the cells. */
  lemma MonotoneFromZeroQ31(table: seq<int32>)
    requires 1 <= |table| <= 0x8000_0000 && Sorted(table)
    ensures (forall x: int32, x': int32 | 0 <= x <= x' :: InterpQ31(table, x) <= InterpQ31(table, x'))
            <==> AllCellsRise(table)
  {
    if AllCellsRise(table) {
      forall x: int32, x': int32 | 0 <= x <= x' ensures InterpQ31(table, x) <= InterpQ31(table, x') {
        Ordered(table, x, x');
      }
    } else {
      var k :| 0 <= k < |table| - 1 && k < CELLS && !Rises(table[k], table[k + 1]);
      var low :| 0 <= low < LAST && !StepRises(table[k], table[k + 1], low);
      var x: int32, x': int32 := k * 0x10_0000 + low, k * 0x10_0000 + low + 1;
      StepExactly(table[k], table[k + 1], low);
      InsideCell(table, x, k, low);
      InsideCell(table, x', k, low + 1);
    }
  }

  lemma InsideCell(table: seq<int32>, x: int32, k: int, low: int)
    requires 0 <= k < |table| - 1 && |table| <= 0x8000_0000
    requires x == k * 0x10_0000 + low && 0 <= low <= LAST
    ensures InterpQ31(table, x) == CellQ31(table[k], table[k + 1], low)
  {
    assert x / 0x10_0000 == k && x % 0x10_0000 == low;
  }

  lemma Ordered(table: seq<int32>, x: int32, x': int32)
    requires 1 <= |table| <= 0x8000_0000 && Sorted(table) && AllCellsRise(table) && 0 <= x <= x'
    ensures InterpQ31(table, x) <= InterpQ31(table, x')
  {
    var n, k, k' := |table|, x / 0x10_0000, x' / 0x10_0000;
    if k < n - 1 {
      var low, low' := x % 0x10_0000, x' % 0x10_0000;
      InsideCell(table, x, k, low);
      assert Rises(table[k], table[k + 1]);
      if k == k' {
        InsideCell(table, x', k, low');
        CellRises(table[k], table[k + 1], low, low');
      } else {
        CellRises(table[k], table[k + 1], low, LAST);
        CellEnds(table[k], table[k + 1]);
        if k' < n - 1 {
          StartOrdered(table[k + 1], table[k']);
          InsideCell(table, x', k', low');
          assert Rises(table[k'], table[k' + 1]);
          CellEnds(table[k'], table[k' + 1]);
          CellRises(table[k'], table[k' + 1], 0, low');
        } else {
          StartBelow(table[k + 1]);
        }
      }
    }
  }

  /** Over the negative coordinates as well, which are clamped to the first entry: that entry must
      be even and not positive, or the only one. */
  lemma MonotoneEverywhereQ31(table: seq<int32>)
    requires 1 <= |table| <= 0x8000_0000 && Sorted(table)
    ensures (forall x: int32, x': int32 | x <= x' :: InterpQ31(table, x) <= InterpQ31(table, x'))
            <==> AllCellsRise(table) && (|table| == 1 || (table[0] <= 0 && table[0] % 2 == 0))
  {
    MonotoneFromZeroQ31(table);
    StartBelow(table[0]);
    if |table| > 1 {
      InsideCell(table, 0, 0, 0);
      CellEnds(table[0], table[1]);
      var before: int32, origin: int32 := -1, 0;
      assert InterpQ31(table, before) == table[0];
      if table[0] <= StartQ31(table[0]) && AllCellsRise(table) {
        forall x: int32, x': int32 | x <= x' ensures InterpQ31(table, x) <= InterpQ31(table, x') {
          if x < 0 <= x' {
            Ordered(table, 0, x');
          }
        }
      }
    }
  }

  // ---- Cells ----

  /** A cell whose entries have a multiple of 2^21 between them, or are one, never goes down: each
      step takes at most that multiple from the first product and gives it to the second. */
  lemma GridRises(y0: int, y1: int, n: int)
    requires y0 <= n * GRID <= y1
    ensures Rises(y0, y1)
  {
    forall low | 0 <= low < LAST ensures StepRises(y0, y1, low) {
      NextProducts(y0, y1, low);
      Falls(First(y0, low), First(y0, low + 1), n);
      Falls(Second(y1, low), Second(y1, low + 1), -n);
      StepExactly(y0, y1, low);
    }
  }

  lemma NextProducts(y0: int, y1: int, low: int)
    ensures First(y0, low + 1) == First(y0, low) - 0x800 * y0
    ensures Second(y1, low + 1) == Second(y1, low) + 0x800 * y1
  {
    MulSub(y0, 0x7FFF_FFFF - low * 0x800, 0x800);
    MulAdd(y1, low * 0x800, 0x800);
  }

  lemma Falls(p: int, p': int, n: int)
    requires p' >= p - n * WORD
    ensures p' / WORD >= p / WORD - n
  {
  }

  /** So tables whose entries are at least 2^21 apart are monotone from 0 on. */
  lemma SteepTablesRise(table: seq<int32>)
    requires forall k | 0 <= k < |table| - 1 :: table[k + 1] as int - table[k] >= GRID
    ensures AllCellsRise(table)
  {
    forall k | 0 <= k < |table| - 1 && k < CELLS ensures Rises(table[k], table[k + 1]) {
      GridRises(table[k], table[k + 1], table[k + 1] / GRID);
    }
  }

  /** Without such a multiple, with a and b the distances of the entries from the multiple below:
      as long as b * low stays below 2^21 the second product gives no more than that multiple at
      each step, so that the cell goes down once a * low exceeds what the first product starts
      with. */
  lemma FallsEarly(y0: int, y1: int, n: int, low: int)
    requires n * GRID < y0 <= y1 < (n + 1) * GRID && 0 <= low <= LAST
    requires (y1 - n * GRID) * low < GRID
    requires 0x800 * ((y0 - n * GRID) * low) > y0 * 0x7FFF_FFFF % WORD
    ensures !Rises(y0, y1)
  {
    var a, b, start := y0 - n * GRID, y1 - n * GRID, y0 * 0x7FFF_FFFF;
    SplitEntry(y0, n, a, low);
    SplitEntry(y1, n, b, low);
    MulLe(0, b, low);
    assert First(y0, low) == start - 0x800 * (y0 * low) && Second(y1, low) == 0x800 * (y1 * low);
    FirstFalls(start, n * low, a * low);
    SecondKeeps(n * low, b * low);
    assert CellQ31(y0, y1, 0) == 2 * (start / WORD);
    if Rises(y0, y1) {
      CellRises(y0, y1, 0, low);
      assert false;
    }
  }

  lemma SplitEntry(y: int, n: int, a: int, low: int)
    requires y == n * GRID + a
    ensures 0x800 * (y * low) == n * low * WORD + 0x800 * (a * low)
    ensures y * (low * 0x800) == 0x800 * (y * low)
    ensures y * (0x7FFF_FFFF - low * 0x800) == y * 0x7FFF_FFFF - 0x800 * (y * low)
  {
    assert y * low == n * low * GRID + a * low;
    MulSub(y, 0x7FFF_FFFF, low * 0x800);
  }

  lemma FirstFalls(start: int, m: int, al: int)
    requires 0x800 * al > start % WORD
    ensures (start - (m * WORD + 0x800 * al)) / WORD < start / WORD - m
  {
  }

  lemma SecondKeeps(m: int, bl: int)
    requires 0 <= bl < GRID
    ensures (m * WORD + 0x800 * bl) / WORD == m
  {
  }
}
