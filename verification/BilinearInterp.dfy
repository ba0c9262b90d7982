/** `arm_bilinear_interp_q7`: a table in row order, element (x, y) at x + y * numCols, read at
    a pair of 12.20 coordinates. */
module BilinearInterp {
  import opened CInt

  datatype Table = Table(numRows: uint16, numCols: uint16, data: seq<int8>)

  const ONE: int := 0xF_FFFF

  /** The range test of the code: it compares the column index with the number of rows and
      the row index with the number of columns. */
  predicate Accepted(t: Table, X: int32, Y: int32) {
    var rI, cI := X / 0x10_0000, Y / 0x10_0000;
    !(rI < 0 || rI > t.numRows - 1 || cI < 0 || cI > t.numCols - 1)
  }

  /** The first of the two entries read in each of two rows. */
  function Corner(t: Table, X: int32, Y: int32): int {
    X / 0x10_0000 + t.numCols * (Y / 0x10_0000)
  }

  /** The four reads stay inside the table. */
  predicate ReadsInside(t: Table, X: int32, Y: int32) {
    0 <= Corner(t, X, Y) && Corner(t, X, Y) + t.numCols + 1 < |t.data|
  }

  function InterpQ7(t: Table, X: int32, Y: int32): int8
    requires Accepted(t, X, Y) ==> ReadsInside(t, X, Y)
  {
    if !Accepted(t, X, Y) then 0
    else
      var xfract, yfract := X % 0x10_0000, Y % 0x10_0000;
      var i := Corner(t, X, Y);
      var x1, x2 := t.data[i], t.data[i + 1];
      var y1, y2 := t.data[i + t.numCols], t.data[i + t.numCols + 1];
      AccumulatorBounds(x1, x2, y1, y2, xfract, yfract);
      Accumulator(x1, x2, y1, y2, xfract, yfract) / 0x100_0000_0000
  }

  /** The four products in the order of the code: the inner ones are 32 bits wide, the sum 64. */
  function Accumulator(x1: int8, x2: int8, y1: int8, y2: int8, xf: int, yf: int): int64
    requires 0 <= xf <= ONE && 0 <= yf <= ONE
  {
    InnerProduct(x1, ONE - xf);
    InnerProduct(x2, ONE - yf);
    InnerProduct(y1, ONE - xf);
    InnerProduct(y2, yf);
    var out1: int32, out2: int32 := x1 * (ONE - xf), x2 * (ONE - yf);
    var out3: int32, out4: int32 := y1 * (ONE - xf), y2 * yf;
    OuterProduct(out1, ONE - yf);
    OuterProduct(out2, xf);
    OuterProduct(out3, yf);
    OuterProduct(out4, xf);
    var acc: int64 := out1 * (ONE - yf);
    var acc2: int64 := acc + out2 * xf;
    var acc3: int64 := acc2 + out3 * yf;
    acc3 + out4 * xf
  }

  lemma InnerProduct(y: int8, w: int)
    requires 0 <= w <= ONE
    ensures -0x800_0000 <= y * w <= 0x800_0000
  {
    MulLe(-0x80, y, w);
    MulLe(y, 0x80, w);
  }

  lemma OuterProduct(out: int, w: int)
    requires -0x800_0000 <= out <= 0x800_0000 && 0 <= w <= ONE
    ensures -0x80_0000_0000_0000 <= out * w <= 0x80_0000_0000_0000
  {
    MulLe(-0x800_0000, out, w);
    MulLe(out, 0x800_0000, w);
  }

  /** Linear interpolation without the final shift. */
  function Lerp(a: int, b: int, f: int): int { a * (ONE - f) + b * f }

  /** The accumulator is interpolation in x of both rows and then in y, and equally in y of
      both columns and then in x. */
  lemma TwoStepInterpolation(x1: int8, x2: int8, y1: int8, y2: int8, xf: int, yf: int)
    requires 0 <= xf <= ONE && 0 <= yf <= ONE
    ensures Accumulator(x1, x2, y1, y2, xf, yf) == Lerp(Lerp(x1, x2, xf), Lerp(y1, y2, xf), yf)
    ensures Accumulator(x1, x2, y1, y2, xf, yf) == Lerp(Lerp(x1, y1, yf), Lerp(x2, y2, yf), xf)
  {
    FourTerms(x1, x2, y1, y2, ONE - xf, xf, ONE - yf, yf);
  }

  lemma FourTerms(a: int, b: int, c: int, d: int, u: int, x: int, v: int, y: int)
    ensures a * u * v + b * v * x + c * u * y + d * y * x == (a * u + b * x) * v + (c * u + d * x) * y
    ensures a * u * v + b * v * x + c * u * y + d * y * x == (a * v + c * y) * u + (b * v + d * y) * x
  {
    assert b * v * x == b * x * v && d * y * x == d * x * y;
    assert a * u * v == a * v * u && c * u * y == c * y * u;
  }

  lemma LerpBounds(a: int, b: int, f: int, lo: int, hi: int)
    requires 0 <= f <= ONE && lo <= a <= hi && lo <= b <= hi
    ensures lo * ONE <= Lerp(a, b, f) <= hi * ONE
  {
    var w := ONE - f;
    MulLe(lo, a, w);
    MulLe(lo, b, f);
    MulLe(a, hi, w);
    MulLe(b, hi, f);
    assert lo * w + lo * f == lo * ONE && hi * w + hi * f == hi * ONE;
  }

  /** The result lies between the smallest and the largest of the four corners, or one below
      the smallest when all are positive; in particular the cast to 8 bits never wraps. */
  lemma AccumulatorBounds(x1: int8, x2: int8, y1: int8, y2: int8, xf: int, yf: int)
    requires 0 <= xf <= ONE && 0 <= yf <= ONE
    ensures var lo, hi := Min(Min(x1, x2), Min(y1, y2)), Max(Max(x1, x2), Max(y1, y2));
            lo - (if lo > 0 then 1 else 0) <= Accumulator(x1, x2, y1, y2, xf, yf) / 0x100_0000_0000 <= hi
  {
    var lo, hi := Min(Min(x1, x2), Min(y1, y2)), Max(Max(x1, x2), Max(y1, y2));
    TwoStepInterpolation(x1, x2, y1, y2, xf, yf);
    LerpBounds(x1, x2, xf, lo, hi);
    LerpBounds(y1, y2, xf, lo, hi);
    LerpBounds(Lerp(x1, x2, xf), Lerp(y1, y2, xf), yf, lo * ONE, hi * ONE);
    ShiftBounds(lo, hi, Lerp(Lerp(x1, x2, xf), Lerp(y1, y2, xf), yf));
  }

  lemma ShiftBounds(lo: int8, hi: int8, acc: int)
    requires lo * ONE * ONE <= acc <= hi * ONE * ONE
    ensures lo - (if lo > 0 then 1 else 0) <= acc / 0x100_0000_0000 <= hi
  {
  }

  /** The entry in a column and a row. */
  function Entry(t: Table, col: int, row: int): int8
    requires 0 <= col + t.numCols * row < |t.data|
  {
    t.data[col + t.numCols * row]
  }

  /** At an accepted interior point of a full table the result is the interpolation between the
      four surrounding entries of the two-dimensional table. */
  lemma InterpIsTwoStep(t: Table, X: int32, Y: int32)
    requires |t.data| == t.numRows * t.numCols && Interior(t, X, Y) && Accepted(t, X, Y)
    ensures ReadsInside(t, X, Y)
    ensures var c, r, xf, yf := X / 0x10_0000, Y / 0x10_0000, X % 0x10_0000, Y % 0x10_0000;
            && 0 <= c + t.numCols * r && c + 1 + t.numCols * (r + 1) < |t.data|
            && InterpQ7(t, X, Y)
               == Lerp(Lerp(Entry(t, c, r), Entry(t, c + 1, r), xf),
                       Lerp(Entry(t, c, r + 1), Entry(t, c + 1, r + 1), xf), yf) / 0x100_0000_0000
  {
    InteriorReadsInside(t, X, Y);
    var c, r := X / 0x10_0000, Y / 0x10_0000;
    MulAdd(t.numCols, r, 1);
    TwoStepInterpolation(Entry(t, c, r), Entry(t, c + 1, r), Entry(t, c, r + 1), Entry(t, c + 1, r + 1),
                         X % 0x10_0000, Y % 0x10_0000);
  }

  /** Wherever the test rejects a point, the result is zero. */
  lemma RejectedIsZero(t: Table, X: int32, Y: int32)
    requires X < 0 || Y < 0 || X / 0x10_0000 >= t.numRows || Y / 0x10_0000 >= t.numCols
    ensures InterpQ7(t, X, Y) == 0
  {
  }

  // ---- The range test ----

  /** What the test should accept: the cell to the right of and below (x, y) exists. */
  predicate Interior(t: Table, X: int32, Y: int32) {
    0 <= X / 0x10_0000 < t.numCols - 1 && 0 <= Y / 0x10_0000 < t.numRows - 1
  }

  /** Inside a full table the reads are safe. */
  lemma InteriorReadsInside(t: Table, X: int32, Y: int32)
    requires |t.data| == t.numRows * t.numCols && Interior(t, X, Y)
    ensures ReadsInside(t, X, Y)
  {
    var cI := Y / 0x10_0000;
    MulLe(cI + 2, t.numRows, t.numCols);
    MulLe(0, cI, t.numCols);
  }

  /** The number of indices below n that twelve bits, one of them the sign, can express. */
  function Reached(n: int): int { Min(n, 0x800) }

  /** The test by itself keeps the reads inside a full table exactly when the table is empty or
      numRows + numCols^2 < numRows * numCols, as far as the coordinates reach; no square table
      is one of them. */
  lemma AcceptedReadsInside(t: Table)
    requires |t.data| == t.numRows * t.numCols
    ensures (forall X: int32, Y: int32 | Accepted(t, X, Y) :: ReadsInside(t, X, Y))
            <==> t.numRows == 0 || t.numCols == 0
                 || Reached(t.numRows) + t.numCols * Reached(t.numCols) < t.numRows * t.numCols
  {
    var rows, cols := t.numRows as int, t.numCols as int;
    if rows == 0 || cols == 0 {
    } else if Reached(rows) + cols * Reached(cols) < rows * cols {
      forall X: int32, Y: int32 | Accepted(t, X, Y) ensures ReadsInside(t, X, Y) {
        LastRow(cols, Y / 0x10_0000);
      }
    } else {
      var X: int32, Y: int32 := (Reached(rows) - 1) * 0x10_0000, (Reached(cols) - 1) * 0x10_0000;
      LargestAccepted(t, X, Y);
      assert Accepted(t, X, Y);
    }
  }

  lemma LastRow(cols: int, row: int)
    requires 0 <= row < Reached(cols)
    ensures 0 <= cols * row <= cols * Reached(cols) - cols
  {
    MulLe(0, row, cols);
    MulLe(row + 1, Reached(cols), cols);
  }

  lemma LargestAccepted(t: Table, X: int32, Y: int32)
    requires t.numRows >= 1 && t.numCols >= 1
    requires X == (Reached(t.numRows) - 1) * 0x10_0000 && Y == (Reached(t.numCols) - 1) * 0x10_0000
    ensures Accepted(t, X, Y)
    ensures Corner(t, X, Y) + t.numCols == Reached(t.numRows) - 1 + t.numCols * Reached(t.numCols)
  {
    assert X / 0x10_0000 == Reached(t.numRows) - 1 && Y / 0x10_0000 == Reached(t.numCols) - 1;
    MulSub(t.numCols, Reached(t.numCols), 1);
  }

  /** Every interior point is accepted exactly when there is none or the table is close to square,
      as far as the coordinates reach. */
  lemma InteriorAccepted(t: Table)
    ensures (forall X: int32, Y: int32 | Interior(t, X, Y) :: Accepted(t, X, Y))
            <==> t.numRows < 2 || t.numCols < 2
                 || (Reached(t.numCols - 1) <= t.numRows && Reached(t.numRows - 1) <= t.numCols)
  {
    if t.numRows >= 2 && t.numCols >= 2 {
      var X: int32, Y: int32 := (Reached(t.numCols - 1) - 1) * 0x10_0000, (Reached(t.numRows - 1) - 1) * 0x10_0000;
      assert X / 0x10_0000 == Reached(t.numCols - 1) - 1 && Y / 0x10_0000 == Reached(t.numRows - 1) - 1;
      assert Interior(t, X, Y);
    }
  }
}
