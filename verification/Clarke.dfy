/** The Q31 Clarke transform and its inverse, with the exact fixed-point constants. */
module Clarke {
  import opened CInt
  import opened Saturation

  const INV_SQRT3: int := 0x24F3_4E8B      // 1/sqrt(3) in 2.30
  const TWO_INV_SQRT3: int := 0x49E6_9D16  // 2/sqrt(3) in 2.30
  const HALF_SQRT3: int := 0x6ED9_EBA1     // sqrt(3)/2 in 1.31
  const HALF: int := 0x4000_0000           // 1/2 in 1.31

  /** Returns (alpha, beta).  Both products are cast to 32 bits before the saturating add. */
  function Forward(Ia: int32, Ib: int32): (int32, int32) {
    var product1 := ToInt32(Ia * INV_SQRT3 / 0x4000_0000);
    var product2 := ToInt32(Ib * TWO_INV_SQRT3 / 0x4000_0000);
    (Ia, QAdd(product1, product2))
  }

  function Inverse(Ialpha: int32, Ibeta: int32): (int32, int32) {
    var product1 := ToInt32(Ialpha * HALF / 0x8000_0000);
    var product2 := ToInt32(Ibeta * HALF_SQRT3 / 0x8000_0000);
    (Ialpha, QSub(product2, product1))
  }

  /** The product with 2/sqrt(3) survives its cast exactly up to sqrt(3)/2 of full scale. */
  lemma CastIsExact(Ib: int32)
    ensures ToInt32(Ib * TWO_INV_SQRT3 / 0x4000_0000) == Ib * TWO_INV_SQRT3 / 0x4000_0000
            <==> -HALF_SQRT3 <= Ib <= HALF_SQRT3
  {
  }

  lemma FirstCastIsExact(Ia: int32)
    ensures ToInt32(Ia * INV_SQRT3 / 0x4000_0000) == Ia * INV_SQRT3 / 0x4000_0000
  {
  }

  /** A number scaled by m, clamped to what a Q31 result can express. */
  function Saturated(exact: int, m: int): int
    requires m > 0
  {
    Clamp(exact, -0x8000_0000 * m, 0x7FFF_FFFF * m)
  }

  /** The constants are the largest value below 1/sqrt(3), twice that one, and the value nearest to
      sqrt(3)/2: squared, they are next to 1/3, 4/3 and 3/4. */
  lemma Constants()
    ensures 3 * INV_SQRT3 * INV_SQRT3 < 0x1000_0000_0000_0000 < 3 * (INV_SQRT3 + 1) * (INV_SQRT3 + 1)
    ensures TWO_INV_SQRT3 == 2 * INV_SQRT3
    ensures (2 * HALF_SQRT3 - 1) * (2 * HALF_SQRT3 - 1) < 0xC000_0000_0000_0000
                                                        < (2 * HALF_SQRT3 + 1) * (2 * HALF_SQRT3 + 1)
  {
  }

  /** beta = Ia / sqrt(3) + 2 Ib / sqrt(3), saturated, but for less than two units, which are missing;
      as long as the cast is exact. */
  lemma ForwardAccuracy(Ia: int32, Ib: int32)
    requires -HALF_SQRT3 <= Ib <= HALF_SQRT3
    ensures var (alpha, beta) := Forward(Ia, Ib);
            && alpha == Ia
            && 0 <= Saturated(Ia * INV_SQRT3 + Ib * TWO_INV_SQRT3, 0x4000_0000) - beta * 0x4000_0000 < 2 * 0x4000_0000
  {
    var p1, p2 := Ia * INV_SQRT3 / 0x4000_0000, Ib * TWO_INV_SQRT3 / 0x4000_0000;
    CastIsExact(Ib);
    ForwardIs(Ia, Ib, p1, p2);
    ClampedSum(Ia * INV_SQRT3, Ib * TWO_INV_SQRT3);
  }

  lemma ClampedSum(x: int, y: int)
    ensures var sum := Clamp(x / 0x4000_0000 + y / 0x4000_0000, -0x8000_0000, 0x7FFF_FFFF);
            0 <= Saturated(x + y, 0x4000_0000) - sum * 0x4000_0000 < 2 * 0x4000_0000
  {
  }

  /** For all inputs of the inverse, Ib = -Ialpha / 2 + sqrt(3) / 2 Ibeta, saturated, within less than
      one unit. */
  lemma InverseAccuracy(Ialpha: int32, Ibeta: int32)
    ensures var (Ia, Ib) := Inverse(Ialpha, Ibeta);
            && Ia == Ialpha
            && Abs(Saturated(Ibeta * HALF_SQRT3 - Ialpha * HALF, 0x8000_0000) - Ib * 0x8000_0000) < 0x8000_0000
  {
    InverseIs(Ialpha, Ibeta);
    ClampedDifference(Ibeta * HALF_SQRT3, Ialpha * HALF);
  }

  lemma ClampedDifference(x: int, y: int)
    ensures var diff := Clamp(x / 0x8000_0000 - y / 0x8000_0000, -0x8000_0000, 0x7FFF_FFFF);
            Abs(Saturated(x - y, 0x8000_0000) - diff * 0x8000_0000) < 0x8000_0000
  {
  }

  /** The condition for the round trip, in terms of the inputs: the product with 2/sqrt(3) survives
      its cast, and Ib + Ia/2, which is sqrt(3)/2 times the exact beta, is at most sqrt(3)/2 of full
      scale, give or take the rounding. */
  predicate Survives(Ia: int32, Ib: int32) {
    -HALF_SQRT3 <= Ib <= HALF_SQRT3 && -HALF_SQRT3 - 1 <= Ib + Ia / 2 <= HALF_SQRT3 + 2
  }

  /** Ia always comes back exactly.  Ib comes back within three units in the last place for exactly
      the inputs that survive: beyond them the cast wraps or the sum clips, although the transform
      is documented to have no risk of overflow. */
  lemma RoundTrip(Ia: int32, Ib: int32)
    ensures var (Ialpha, Ibeta) := Forward(Ia, Ib);
            var (Ia', Ib') := Inverse(Ialpha, Ibeta);
            Ia' == Ia && (-3 <= Ib' - Ib <= 1 <==> Survives(Ia, Ib))
  {
    var p1, p2 := Ia * INV_SQRT3 / 0x4000_0000, Ib * TWO_INV_SQRT3 / 0x4000_0000;
    ForwardIs(Ia, Ib, p1, ToInt32(p2));
    var beta := Forward(Ia, Ib).1;
    InverseIs(Ia, beta);
    if -HALF_SQRT3 <= Ib <= HALF_SQRT3 {
      CastIsExact(Ib);
      if -0x8000_0000 <= p1 + p2 < 0x8000_0000 {
        ErrorBound(Ia, Ib, p1, p2, Ia * HALF / 0x8000_0000, beta * HALF_SQRT3 / 0x8000_0000);
        FittingSum(Ia, Ib, p1, p2);
      } else if p1 + p2 > 0 {
        ClippedAbove(Ia, Ib, p1, p2);
      } else {
        ClippedBelow(Ia, Ib, p1, p2);
      }
    } else {
      WrappedProduct(Ib, p2);
      WrappedError(Ia, Ib, p1, ToInt32(p2), Ia * HALF / 0x8000_0000, beta * HALF_SQRT3 / 0x8000_0000);
    }
  }

  lemma FittingSum(Ia: int32, Ib: int32, p1: int, p2: int)
    requires p1 == Ia * INV_SQRT3 / 0x4000_0000 && p2 == Ib * TWO_INV_SQRT3 / 0x4000_0000
    requires -0x8000_0000 <= p1 + p2 < 0x8000_0000
    ensures -HALF_SQRT3 - 1 <= Ib + Ia / 2 <= HALF_SQRT3 + 2
  {
  }

  /** Above the clip Ib' no longer depends on Ib. */
  lemma ClippedAbove(Ia: int32, Ib: int32, p1: int, p2: int)
    requires p1 == Ia * INV_SQRT3 / 0x4000_0000 && p2 == Ib * TWO_INV_SQRT3 / 0x4000_0000
    requires -HALF_SQRT3 <= Ib <= HALF_SQRT3 && p1 + p2 >= 0x8000_0000
    ensures 0x7FFF_FFFF * HALF_SQRT3 / 0x8000_0000 == HALF_SQRT3 - 1
    ensures Ia > 0 && Ib + Ia / 2 >= HALF_SQRT3 - 2
  {
  }

  lemma ClippedBelow(Ia: int32, Ib: int32, p1: int, p2: int)
    requires p1 == Ia * INV_SQRT3 / 0x4000_0000 && p2 == Ib * TWO_INV_SQRT3 / 0x4000_0000
    requires -HALF_SQRT3 <= Ib <= HALF_SQRT3 && p1 + p2 < -0x8000_0000
    ensures -0x8000_0000 * HALF_SQRT3 / 0x8000_0000 == -HALF_SQRT3
    ensures Ia < 0 && Ib + Ia / 2 <= -HALF_SQRT3 + 3
  {
  }

  lemma ForwardIs(Ia: int32, Ib: int32, p1: int, p2: int32)
    requires p1 == Ia * INV_SQRT3 / 0x4000_0000 && p2 == ToInt32(Ib * TWO_INV_SQRT3 / 0x4000_0000)
    ensures Forward(Ia, Ib) == (Ia, Clamp(p1 + p2, -0x8000_0000, 0x7FFF_FFFF))
  {
    FirstCastIsExact(Ia);
  }

  lemma InverseIs(Ialpha: int32, Ibeta: int32)
    ensures Inverse(Ialpha, Ibeta)
            == (Ialpha, Clamp(Ibeta * HALF_SQRT3 / 0x8000_0000 - Ialpha * HALF / 0x8000_0000,
                              -0x8000_0000, 0x7FFF_FFFF))
  {
    var q1, q2 := Ialpha * HALF / 0x8000_0000, Ibeta * HALF_SQRT3 / 0x8000_0000;
    assert ToInt32(q1) == q1 && ToInt32(q2) == q2;
  }

  /** The error of the unclipped difference. */
  lemma ErrorBound(Ia: int32, Ib: int32, p1: int, p2: int, q1: int, q2: int)
    requires -HALF_SQRT3 <= Ib <= HALF_SQRT3
    requires p1 == Ia * INV_SQRT3 / 0x4000_0000 && p2 == Ib * TWO_INV_SQRT3 / 0x4000_0000
    requires q1 == Ia * HALF / 0x8000_0000 && q2 == (p1 + p2) * HALF_SQRT3 / 0x8000_0000
    ensures -3 <= q2 - q1 - Ib <= 1
  {
    ErrorScaled(Ia, Ib, p1, p2, q1, q2,
                Ia * INV_SQRT3 % 0x4000_0000, Ib * TWO_INV_SQRT3 % 0x4000_0000,
                (p1 + p2) * HALF_SQRT3 % 0x8000_0000, Ia * HALF % 0x8000_0000);
  }

  /** The error times 2^61: what the constants miss, and the four truncations. */
  lemma ErrorScaled(Ia: int32, Ib: int32, p1: int, p2: int, q1: int, q2: int, r1: int, r2: int, r3: int, r4: int)
    requires -HALF_SQRT3 <= Ib <= HALF_SQRT3
    requires Ia * INV_SQRT3 == 0x4000_0000 * p1 + r1 && 0 <= r1 < 0x4000_0000
    requires Ib * TWO_INV_SQRT3 == 0x4000_0000 * p2 + r2 && 0 <= r2 < 0x4000_0000
    requires (p1 + p2) * HALF_SQRT3 == 0x8000_0000 * q2 + r3 && 0 <= r3 < 0x8000_0000
    requires Ia * HALF == 0x8000_0000 * q1 + r4 && 0 <= r4 <= 0x4000_0000
    ensures -3 <= q2 - q1 - Ib <= 1
  {
    ErrorInReals(Ia as real, Ib as real, p1 as real, p2 as real, q1 as real, q2 as real,
                 r1 as real, r2 as real, r3 as real, r4 as real);
  }

  /** The same over the reals, where the bounds are linear arithmetic. */
  lemma ErrorInReals(Ia: real, Ib: real, p1: real, p2: real, q1: real, q2: real,
                     r1: real, r2: real, r3: real, r4: real)
    requires -2147483648.0 <= Ia <= 2147483647.0
    requires -1859775393.0 <= Ib <= 1859775393.0
    requires Ia * 619925131.0 == 1073741824.0 * p1 + r1 && 0.0 <= r1 < 1073741824.0
    requires Ib * 1239850262.0 == 1073741824.0 * p2 + r2 && 0.0 <= r2 < 1073741824.0
    requires (p1 + p2) * 1859775393.0 == 2147483648.0 * q2 + r3 && 0.0 <= r3 < 2147483648.0
    requires Ia * 1073741824.0 == 2147483648.0 * q1 + r4 && 0.0 <= r4 <= 1073741824.0
    ensures -4.0 < q2 - q1 - Ib < 2.0
  {
  }

  lemma WrappedProduct(Ib: int32, p2: int)
    requires p2 == Ib * TWO_INV_SQRT3 / 0x4000_0000 && !(-HALF_SQRT3 <= Ib <= HALF_SQRT3)
    ensures ToInt32(p2) == if Ib > 0 then p2 - 0x1_0000_0000 else p2 + 0x1_0000_0000
  {
  }

  lemma WrappedError(Ia: int32, Ib: int32, p1: int, wrapped: int, q1: int, q2: int)
    requires p1 == Ia * INV_SQRT3 / 0x4000_0000
    requires var p2 := Ib * TWO_INV_SQRT3 / 0x4000_0000;
             wrapped == if Ib > 0 then p2 - 0x1_0000_0000 else p2 + 0x1_0000_0000
    requires q1 == Ia * HALF / 0x8000_0000
    requires q2 == Clamp(p1 + wrapped, -0x8000_0000, 0x7FFF_FFFF) * HALF_SQRT3 / 0x8000_0000
    ensures if Ib > 0 then q2 - q1 < Ib - 4 && Ib > -0x8000_0000 + 4 else q2 - q1 > Ib + 4 && Ib < 0x7FFF_FFFF - 4
  {
  }
}
