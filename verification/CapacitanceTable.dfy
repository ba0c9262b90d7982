/** The load capacitance of the 32 MHz crystal over temperature (board_utility.c): a table in
    steps of 5 degrees, read by a truncating linear fit, and normalised to the temperature of
    the factory measurement. */
module CapacitanceTable {
  import opened CInt

  const TEMP_MIN: int := -40
  const TEMP_MAX: int := 130
  const STEP: int := 5
  const SIZE: nat := 35

  /** The table index at or below a temperature; the outermost cells are extended. */
  function IndexBelow(iTemp: int): (i: nat)
    ensures i <= SIZE - 2
  {
    if iTemp >= TEMP_MAX then (TEMP_MAX - TEMP_MIN) / STEP - 1
    else if iTemp < TEMP_MIN then 0
    else (iTemp - TEMP_MIN) / STEP
  }

  /** The temperature of an entry. */
  function Node(i: int): int { TEMP_MIN + STEP * i }

  /** The difference quotient of a cell, rounded towards zero. */
  function Slope(table: seq<int32>, i: nat): int
    requires |table| == SIZE && i <= SIZE - 2
  {
    DivTrunc(table[i + 1] as int - table[i], STEP)
  }

  predicate InInt32(x: int) { -0x8000_0000 <= x < 0x8000_0000 }

  /** No step of the fit overflows at this temperature. */
  predicate Fits(table: seq<int32>, iTemp: int) {
    && |table| == SIZE
    && var i := IndexBelow(iTemp);
      && InInt32(table[i + 1] as int - table[i])
      && CellFits(Slope(table, i), Node(i), iTemp, table[i])
  }

  predicate CellFits(a: int, node: int, iTemp: int, y: int) {
    && InInt32(a * node)
    && InInt32(y - a * node)
    && InInt32(iTemp * a)
    && InInt32(iTemp * a + (y - a * node))
  }

  /** `iCapDeltaCalculation_MHz_x1000`: slope and offset of the cell, both in 32 bits. */
  function CapDelta(table: seq<int32>, iTemp: int32): (r: int32)
    requires Fits(table, iTemp)
    ensures r == table[IndexBelow(iTemp)] + Slope(table, IndexBelow(iTemp)) * (iTemp - Node(IndexBelow(iTemp)))
  {
    var indA := IndexBelow(iTemp);
    var a: int32 := Slope(table, indA);
    var b: int32 := table[indA] - a * Node(indA);
    MulSub(a, iTemp, Node(indA));
    iTemp * a + b
  }

  ghost predicate EntriesWithin(table: seq<int32>, bound: nat) {
    |table| == SIZE && forall i | 0 <= i < SIZE :: -(bound as int) <= table[i] <= bound
  }

  /** At the temperatures of the table nothing overflows for entries up to 40 million. */
  lemma FitsInside(table: seq<int32>, iTemp: int)
    requires EntriesWithin(table, 40_000_000) && TEMP_MIN <= iTemp <= TEMP_MAX
    ensures Fits(table, iTemp)
  {
    var i := IndexBelow(iTemp);
    CellFitsInside(Slope(table, i), Node(i), iTemp, table[i]);
  }

  lemma CellFitsInside(a: int, node: int, iTemp: int, y: int)
    requires -16_000_000 <= a <= 16_000_000 && -40_000_000 <= y <= 40_000_000
    requires -40 <= node <= iTemp <= 130 && iTemp - node <= STEP
    ensures CellFits(a, node, iTemp, y)
  {
    ScaledBound(a, node, 16_000_000, 130);
    ScaledBound(a, iTemp, 16_000_000, 130);
    ScaledBound(a, iTemp - node, 16_000_000, 5);
    MulSub(a, iTemp, node);
  }

  const REACH: int := 0x100_0000  // 2^31 / 128

  /** Tables that never overflow, whatever temperature 128ths of a degree in 32 bits express. */
  ghost predicate Tame(table: seq<int32>) {
    && EntriesWithin(table, 0x2000)
    && forall i | 0 <= i < SIZE - 1 :: -635 < table[i + 1] - table[i] < 635
  }

  lemma TameFits(table: seq<int32>, iTemp: int)
    requires Tame(table) && -REACH <= iTemp <= REACH
    ensures Fits(table, iTemp)
    ensures -2113954816 <= CapDelta(table, iTemp) <= 2113954816
    ensures -0x1000 <= iTemp <= 0x1000 ==> -600000 <= CapDelta(table, iTemp) <= 600000
  {
    var i := IndexBelow(iTemp);
    var a, m := Slope(table, i), Node(i);
    ScaledBound(a, m, 126, 130);
    ScaledBound(a, iTemp, 126, REACH);
    MulSub(a, iTemp, m);
    if -0x1000 <= iTemp <= 0x1000 {
      ScaledBound(a, iTemp, 126, 0x1000);
    }
  }

  lemma ScaledBound(x: int, y: int, X: nat, Y: nat)
    requires -(X as int) <= x <= X && -(Y as int) <= y <= Y
    ensures -(X * Y as int) <= x * y <= X * Y
    ensures x * y == y * x
  {
    var m: int := Abs(x);
    MulLe(-(Y as int), y, m);
    MulLe(y, Y, m);
    MulLe(m, X, Y);
    assert y * m == x * y || y * m == -(x * y);
    assert -(Y as int) * m == -(m * Y);
  }

  /** Inside the table the value lies between its two neighbouring entries. */
  lemma BetweenNeighbours(table: seq<int32>, iTemp: int32)
    requires Fits(table, iTemp) && TEMP_MIN <= iTemp <= TEMP_MAX
    ensures var i := IndexBelow(iTemp);
            Min(table[i], table[i + 1]) <= CapDelta(table, iTemp) <= Max(table[i], table[i + 1])
  {
    var i := IndexBelow(iTemp);
    Truncated(table[i + 1] - table[i], iTemp - Node(i));
  }

  lemma Truncated(diff: int, o: int)
    requires 0 <= o <= STEP
    ensures var a := DivTrunc(diff, STEP);
            && (diff >= 0 ==> 0 <= a * o <= diff)
            && (diff <= 0 ==> diff <= a * o <= 0)
            && (diff >= 0 ==> 0 <= diff * o - STEP * (a * o) <= 4 * o)
            && (diff <= 0 ==> 0 <= STEP * (a * o) - diff * o <= 4 * o)
  {
    var a := DivTrunc(diff, STEP);
    if diff >= 0 {
      MulLe(0, a, o);
      MulLe(o, STEP, a);
      MulLe(0, diff - STEP * a, o);
      MulLe(diff - STEP * a, 4, o);
    } else {
      MulLe(0, -a, o);
      MulLe(o, STEP, -a);
      MulLe(0, STEP * a - diff, o);
      MulLe(STEP * a - diff, 4, o);
    }
  }

  /** Five times the value differs by at most 4 per degree from the node from five times the exact
      linear interpolation, and towards the entry at the node: by less than 4 units inside a cell. */
  lemma NearExact(table: seq<int32>, iTemp: int32)
    requires Fits(table, iTemp) && TEMP_MIN <= iTemp <= TEMP_MAX
    ensures var i := IndexBelow(iTemp);
            var o := iTemp - Node(i);
            && 0 <= o <= STEP && (o == STEP <==> iTemp == TEMP_MAX)
            && var diff := table[i + 1] as int - table[i];
              var short := STEP * table[i] + diff * o - STEP * CapDelta(table, iTemp);
              if diff >= 0 then 0 <= short <= 4 * o else -4 * o <= short <= 0
  {
    var i := IndexBelow(iTemp);
    Truncated(table[i + 1] - table[i], iTemp - Node(i));
  }

  /** Every entry but the last is met exactly at its own temperature; the last one, reached by
      the slope of the cell below it, exactly when the last difference is a multiple of 5. */
  lemma ExactAtNodes(table: seq<int32>, k: nat)
    requires k < SIZE && Fits(table, Node(k))
    ensures CapDelta(table, Node(k)) == table[k] <==> k < SIZE - 1 || (table[k] - table[k - 1]) % STEP == 0
  {
    if k < SIZE - 1 {
      assert IndexBelow(Node(k)) == k;
    } else {
      assert IndexBelow(Node(k)) == k - 1;
      FiveTimesQuotient(table[k] - table[k - 1]);
    }
  }

  lemma FiveTimesQuotient(diff: int)
    ensures DivTrunc(diff, STEP) * STEP == diff <==> diff % STEP == 0
  {
  }

  /** Outside the table the first and the last cell are extended. */
  lemma OutsideTable(table: seq<int32>, iTemp: int32)
    requires Fits(table, iTemp)
    ensures iTemp < -40 ==> CapDelta(table, iTemp) == table[0] + DivTrunc(table[1] as int - table[0], 5) * (iTemp + 40)
    ensures iTemp >= 130 ==> CapDelta(table, iTemp) == table[33] + DivTrunc(table[34] as int - table[33], 5) * (iTemp - 125)
  {
  }

  /** From one degree to the next, inside a cell or across a node, the value moves by at most
      130. */
  lemma OneDegree(table: seq<int32>, iTemp: int)
    requires Tame(table) && -REACH <= iTemp < REACH
    ensures Fits(table, iTemp) && Fits(table, iTemp + 1)
    ensures Abs(CapDelta(table, iTemp + 1) - CapDelta(table, iTemp)) <= 130
  {
    TameFits(table, iTemp);
    TameFits(table, iTemp + 1);
    NextIndex(iTemp);
    if IndexBelow(iTemp + 1) == IndexBelow(iTemp) {
      OneDegreeInside(table, iTemp);
    } else {
      OneDegreeAcross(table, iTemp);
    }
  }

  lemma OneDegreeInside(table: seq<int32>, iTemp: int)
    requires Tame(table) && -REACH <= iTemp < REACH && Fits(table, iTemp) && Fits(table, iTemp + 1)
    requires IndexBelow(iTemp + 1) == IndexBelow(iTemp)
    ensures Abs(CapDelta(table, iTemp + 1) - CapDelta(table, iTemp)) <= 130
  {
    var i := IndexBelow(iTemp);
    WithinCell(table[i], Slope(table, i), iTemp - Node(i), CapDelta(table, iTemp), CapDelta(table, iTemp + 1));
  }

  lemma OneDegreeAcross(table: seq<int32>, iTemp: int)
    requires Tame(table) && -REACH <= iTemp < REACH && Fits(table, iTemp) && Fits(table, iTemp + 1)
    requires IndexBelow(iTemp + 1) == IndexBelow(iTemp) + 1 && iTemp == Node(IndexBelow(iTemp)) + 4
    ensures Abs(CapDelta(table, iTemp + 1) - CapDelta(table, iTemp)) <= 130
  {
    var i := IndexBelow(iTemp);
    ValueFrom(table, iTemp, i, 4);
    ValueFrom(table, iTemp + 1, i + 1, 0);
    AcrossNode(table[i], table[i + 1], CapDelta(table, iTemp), CapDelta(table, iTemp + 1));
  }

  lemma NextIndex(iTemp: int)
    ensures var i, j := IndexBelow(iTemp), IndexBelow(iTemp + 1);
            j == i || (j == i + 1 && iTemp + 1 == Node(j))
  {
  }

  lemma ValueFrom(table: seq<int32>, iTemp: int, i: nat, o: int)
    requires Fits(table, iTemp) && -REACH <= iTemp <= REACH && i == IndexBelow(iTemp) && iTemp == Node(i) + o
    ensures CapDelta(table, iTemp) == table[i] + DivTrunc(table[i + 1] as int - table[i], STEP) * o
  {
  }

  lemma WithinCell(y: int, a: int, o: int, before: int, after: int)
    requires -126 <= a <= 126 && before == y + a * o && after == y + a * (o + 1)
    ensures Abs(after - before) <= 130
  {
    MulAdd(a, o, 1);
  }

  lemma AcrossNode(y: int, y': int, before: int, after: int)
    requires -635 < y' - y < 635 && before == y + DivTrunc(y' - y, STEP) * 4 && after == y'
    ensures Abs(after - before) <= 130
  {
  }

  lemma {:induction false} Lipschitz(table: seq<int32>, u: int, v: int)
    requires Tame(table) && -REACH <= u <= v <= REACH
    ensures Fits(table, u) && Fits(table, v)
    ensures Abs(CapDelta(table, u) - CapDelta(table, v)) <= 130 * (v - u)
    decreases v - u
  {
    TameFits(table, u);
    TameFits(table, v);
    if u == v {
    } else {
      OneDegree(table, u);
      Lipschitz(table, u + 1, v);
    }
  }

  // ---- Normalisation to the factory measurement ----

  /** `i16GetAteTemp` for a flash word: bit 0 says valid, bits 16..1 hold 128ths of a degree. */
  function AteTemp(word: uint32): (t: int16)
    ensures -256 <= t <= 255
  {
    if word % 2 == 1 then DivTrunc(ToInt16(word / 2), 128) else 23
  }

  /** A word that holds v 128ths of a degree as documented, whatever is above bit 16, is decoded to
      the whole degrees of v; a word without the valid bit means 23 degrees. */
  lemma AteTempDecodes(word: uint32, v: int16, above: nat)
    ensures word == 1 + 2 * ToUint16(v) + 0x2_0000 * above ==> AteTemp(word) == DivTrunc(v, 128)
    ensures word % 2 == 0 ==> AteTemp(word) == 23
  {
    if word == 1 + 2 * ToUint16(v) + 0x2_0000 * above {
      assert word / 2 == ToUint16(v) + 0x1_0000 * above;
      assert ToInt16(word / 2) == v;
    }
  }

  /** What is subtracted for the factory temperature: 23 degrees is taken for the zero of the
      table. */
  function Norm(table: seq<int32>, ate: int16): int32
    requires ate != 23 ==> Fits(table, ate)
  {
    if ate != 23 then CapDelta(table, ate) else 0
  }

  /** No step of the compensation overflows. */
  predicate CompensationFits(table: seq<int32>, ateWord: uint32, iTemperature: int32) {
    && Fits(table, iTemperature)
    && (AteTemp(ateWord) != 23 ==> Fits(table, AteTemp(ateWord)))
    && InInt32(CapDelta(table, iTemperature) as int - Norm(table, AteTemp(ateWord)))
  }

  /** `Calculate_32MOscCapCompensation`. */
  function Compensation(table: seq<int32>, ateWord: uint32, iTemperature: int32): int32
    requires CompensationFits(table, ateWord, iTemperature)
  {
    CapDelta(table, iTemperature) as int - Norm(table, AteTemp(ateWord))
  }

  /** Small tables never overflow here either. */
  lemma TameCompensationFits(table: seq<int32>, ateWord: uint32, iTemperature: int32)
    requires Tame(table) && -REACH <= iTemperature <= REACH
    ensures CompensationFits(table, ateWord, iTemperature)
  {
    TameFits(table, AteTemp(ateWord));
    TameFits(table, iTemperature);
  }

  lemma CompensationLipschitz(table: seq<int32>, ateWord: uint32, u: int, v: int)
    requires Tame(table) && -REACH <= u <= REACH && -REACH <= v <= REACH
    ensures CompensationFits(table, ateWord, u) && CompensationFits(table, ateWord, v)
    ensures Abs(Compensation(table, ateWord, u) - Compensation(table, ateWord, v)) <= 130 * Abs(u - v)
  {
    TameCompensationFits(table, ateWord, u);
    TameCompensationFits(table, ateWord, v);
    Lipschitz(table, Min(u, v), Max(u, v));
  }

  /** Whatever the part, compensations differ as the table does. */
  lemma CompensationDiffers(table: seq<int32>, ateWord: uint32, u: int32, v: int32)
    requires CompensationFits(table, ateWord, u) && CompensationFits(table, ateWord, v)
    ensures Compensation(table, ateWord, u) as int - Compensation(table, ateWord, v)
            == CapDelta(table, u) as int - CapDelta(table, v)
  {
  }

  /** The compensation at the factory temperature is zero as documented, except that 23 degrees,
      also the default, is taken for the zero of the table, which it need not be. */
  lemma ZeroAtAteTemp(table: seq<int32>, ateWord: uint32)
    requires Fits(table, AteTemp(ateWord))
    ensures CompensationFits(table, ateWord, AteTemp(ateWord))
    ensures Compensation(table, ateWord, AteTemp(ateWord)) == 0
            <==> AteTemp(ateWord) != 23 || CapDelta(table, 23) == 0
  {
  }

  /** The table in use and its predecessor. */
  const NEW_TABLE: seq<int32> := [
    506, 687, 818, 900, 938, 933, 892, 819,
    720, 599, 461, 313, 158, 0, -156, -307,
    -451, -584, -705, -812, -903, -977, -1032, -1067,
    -1079, -1067, -1025, -950, -835, -673, -453, -163,
    212, 691, 1296]

  const OLD_TABLE: seq<int32> := [
    537, 714, 837, 909, 935, 922, 873, 796,
    694, 574, 440, 297, 149, 0, -147, -290,
    -425, -551, -667, -770, -860, -936, -998, -1042,
    -1069, -1076, -1061, -1019, -947, -837, -682, -472,
    -196, 161, 618]

  lemma NewEntries()
    ensures EntriesWithin(NEW_TABLE, 0x2000) && NEW_TABLE[12] == 158 && NEW_TABLE[13] == 0
  {
  }

  lemma NewSteps()
    ensures forall i | 0 <= i < SIZE - 1 :: -635 < NEW_TABLE[i + 1] as int - NEW_TABLE[i] < 635
  {
  }

  lemma OldEntries()
    ensures EntriesWithin(OLD_TABLE, 0x2000) && OLD_TABLE[12] == 149 && OLD_TABLE[13] == 0
  {
  }

  lemma OldSteps()
    ensures forall i | 0 <= i < SIZE - 1 :: -635 < OLD_TABLE[i + 1] as int - OLD_TABLE[i] < 635
  {
  }

  /** A table in steps of 5 degrees whose zero is at 25: two fifths of the entry for 20 degrees,
      up to truncation, are left at 23. */
  lemma ZeroAt25(table: seq<int32>)
    requires Tame(table) && table[13] == 0 && table[12] >= 0
    ensures Fits(table, 25) && CapDelta(table, 25) == 0
    ensures Fits(table, 23) && CapDelta(table, 23) == table[12] - 3 * (table[12] / 5)
  {
    TameFits(table, 25);
    TameFits(table, 23);
    ValueFrom(table, 25, 13, 0);
    ValueFrom(table, 23, 12, 3);
  }

  /** Both tables have their zero at 25 degrees, so that a part measured at 23 degrees keeps an
      offset of 65 or 62 at its own reference temperature. */
  lemma BuiltInOffsets()
    ensures Tame(NEW_TABLE) && Fits(NEW_TABLE, 25) && CapDelta(NEW_TABLE, 25) == 0
    ensures Fits(NEW_TABLE, 23) && CapDelta(NEW_TABLE, 23) == 65
    ensures Tame(OLD_TABLE) && Fits(OLD_TABLE, 25) && CapDelta(OLD_TABLE, 25) == 0
    ensures Fits(OLD_TABLE, 23) && CapDelta(OLD_TABLE, 23) == 62
  {
    NewEntries();
    NewSteps();
    OldEntries();
    OldSteps();
    ZeroAt25(NEW_TABLE);
    ZeroAt25(OLD_TABLE);
  }
}
