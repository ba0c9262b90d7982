/** The Q31 Park transform and its inverse. */
module Park {
  import opened CInt
  import opened Saturation

  /** The 2.62 product cast to 1.31. */
  function Product(x: int32, y: int32): int32 { ToInt32(x * y / 0x8000_0000) }

  /** Returns (d, q). */
  function Forward(Ialpha: int32, Ibeta: int32, sinVal: int32, cosVal: int32): (int32, int32) {
    (QAdd(Product(Ialpha, cosVal), Product(Ibeta, sinVal)),
     QSub(Product(Ibeta, cosVal), Product(Ialpha, sinVal)))
  }

  /** Returns (alpha, beta). */
  function Inverse(Id: int32, Iq: int32, sinVal: int32, cosVal: int32): (int32, int32) {
    (QSub(Product(Id, cosVal), Product(Iq, sinVal)),
     QAdd(Product(Iq, cosVal), Product(Id, sinVal)))
  }

  /** Neither saturating operation of the forward transform clips. */
  ghost predicate ForwardFits(a: int32, b: int32, sin: int32, cos: int32) {
    && -0x8000_0000 <= Product(a, cos) + Product(b, sin) < 0x8000_0000
    && -0x8000_0000 <= Product(b, cos) - Product(a, sin) < 0x8000_0000
  }

  /** Neither saturating operation of the inverse transform clips. */
  ghost predicate InverseFits(d: int32, q: int32, sin: int32, cos: int32) {
    && -0x8000_0000 <= Product(d, cos) - Product(q, sin) < 0x8000_0000
    && -0x8000_0000 <= Product(q, cos) + Product(d, sin) < 0x8000_0000
  }

  /** y, scaled by 2^62, is within fewer than k units of the target. */
  ghost predicate Within(y: int, target: int, k: int) {
    Abs(y * 0x4000_0000_0000_0000 - target) < k * 0x4000_0000_0000_0000
  }

  /** A number scaled by 2^62, clamped to what a Q31 result can express. */
  function Saturated(exact: int): int { Clamp(exact, -0x4000_0000_0000_0000, 0x7FFF_FFFF * 0x8000_0000) }

  /** p, scaled by 2^31, is the saturated exact sum but for less than two units, which are missing. */
  ghost predicate FloorOfSum(p: int, exact: int) {
    0 <= Saturated(exact) - p * 0x8000_0000 < 2 * 0x8000_0000
  }

  /** p, scaled by 2^31, is within less than one unit of the saturated exact difference. */
  ghost predicate NearDifference(p: int, exact: int) {
    Abs(Saturated(exact) - p * 0x8000_0000) < 0x8000_0000
  }

  /** None of the four products is -1.0 * -1.0, the only one that does not fit. */
  predicate ProductsFit(x: int32, y: int32, sin: int32, cos: int32) {
    (x > -0x8000_0000 && y > -0x8000_0000) || (sin > -0x8000_0000 && cos > -0x8000_0000)
  }

  /** The rotation by the angle: d = alpha cos + beta sin, q = beta cos - alpha sin, saturated. */
  lemma ForwardAccuracy(a: int32, b: int32, sin: int32, cos: int32)
    requires ProductsFit(a, b, sin, cos)
    ensures var (d, q) := Forward(a, b, sin, cos);
            FloorOfSum(d, a * cos + b * sin) && NearDifference(q, b * cos - a * sin)
  {
    SumAccuracy(a, cos, b, sin);
    DifferenceAccuracy(b, cos, a, sin);
  }

  /** The rotation back: alpha = d cos - q sin, beta = q cos + d sin, saturated. */
  lemma InverseAccuracy(d: int32, q: int32, sin: int32, cos: int32)
    requires ProductsFit(d, q, sin, cos)
    ensures var (a, b) := Inverse(d, q, sin, cos);
            NearDifference(a, d * cos - q * sin) && FloorOfSum(b, q * cos + d * sin)
  {
    DifferenceAccuracy(d, cos, q, sin);
    SumAccuracy(q, cos, d, sin);
  }

  ghost predicate BothMinusOne(x: int32, y: int32) { x == -0x8000_0000 && y == -0x8000_0000 }

  lemma SumAccuracy(w: int32, x: int32, y: int32, z: int32)
    requires !BothMinusOne(w, x) && !BothMinusOne(y, z)
    ensures FloorOfSum(QAdd(Product(w, x), Product(y, z)), w * x + y * z)
  {
    ProductExact(w, x);
    ProductExact(y, z);
    ClampedSum(w * x, y * z);
  }

  lemma DifferenceAccuracy(w: int32, x: int32, y: int32, z: int32)
    requires !BothMinusOne(w, x) && !BothMinusOne(y, z)
    ensures NearDifference(QSub(Product(w, x), Product(y, z)), w * x - y * z)
  {
    ProductExact(w, x);
    ProductExact(y, z);
    ClampedDifference(w * x, y * z);
  }

  lemma ClampedSum(p: int, r: int)
    ensures FloorOfSum(Clamp(p / 0x8000_0000 + r / 0x8000_0000, -0x8000_0000, 0x7FFF_FFFF), p + r)
  {
  }

  lemma ClampedDifference(p: int, r: int)
    ensures NearDifference(Clamp(p / 0x8000_0000 - r / 0x8000_0000, -0x8000_0000, 0x7FFF_FFFF), p - r)
  {
  }

  /** A rotation and its inverse return the input scaled by sin^2 + cos^2, within fewer than
      4 and 5 units in the last place.  Saturation in the inverse does no harm when the pair
      does not exceed the unit circle. */
  lemma RoundTrip(a: int32, b: int32, sin: int32, cos: int32)
    requires sin > -0x8000_0000 && cos > -0x8000_0000
    requires ForwardFits(a, b, sin, cos)
    requires var (d, q) := Forward(a, b, sin, cos);
             sin * sin + cos * cos <= 0x4000_0000_0000_0000 || InverseFits(d, q, sin, cos)
    ensures var (d, q) := Forward(a, b, sin, cos);
            var (a', b') := Inverse(d, q, sin, cos);
            var norm := sin * sin + cos * cos;
            Within(a', a * norm, 4) && Within(b', b * norm, 5)
  {
    var (d, q) := Forward(a, b, sin, cos);
    var u, v := Product(d, cos) - Product(q, sin), Product(q, cos) + Product(d, sin);
    var r1, r2, r3, r4 := Remainder(a, cos), Remainder(b, sin), Remainder(b, cos), Remainder(a, sin);
    var r5, r6, r7, r8 := Remainder(d, cos), Remainder(q, sin), Remainder(q, cos), Remainder(d, sin);
    AlphaError(a, b, sin, cos, d, q, u, r1 + r2, r3 - r4, r5 - r6);
    BetaError(a, b, sin, cos, d, q, v, r1 + r2, r3 - r4, r7 + r8);
    var norm := sin * sin + cos * cos;
    assert norm >= 0;
    if norm <= 0x4000_0000_0000_0000 {
      ClampHarmless(u, a, norm, 4);
      ClampHarmless(v, b, norm, 5);
    }
  }

  /** What a product loses when it is cut to 1.31; only -1.0 * -1.0 would not fit. */
  function Remainder(x: int32, y: int32): (r: int)
    requires y > -0x8000_0000
    ensures x * y == Product(x, y) * 0x8000_0000 + r && 0 <= r < 0x8000_0000
  {
    ProductRange(x, y);
    assert ToInt32(x * y / 0x8000_0000) == x * y / 0x8000_0000;
    x * y % 0x8000_0000
  }

  /** The one overflow of the cast: -1.0 * -1.0 comes out as -1.0. */
  lemma ProductExact(x: int32, y: int32)
    ensures Product(x, y) == x * y / 0x8000_0000 <==> !(x == -0x8000_0000 && y == -0x8000_0000)
  {
    if y > -0x8000_0000 {
      ProductRange(x, y);
    } else if x > -0x8000_0000 {
      ProductRange(y, x);
    } else {
      assert x * y == 0x4000_0000_0000_0000;
    }
  }

  lemma ProductRange(x: int32, y: int32)
    requires y > -0x8000_0000
    ensures -0x4000_0000_0000_0000 <= x * y < 0x4000_0000_0000_0000
  {
    var m := Abs(y);
    MulLe(-0x8000_0000, x, m);
    MulLe(x, 0x8000_0000, m);
    assert x * m == x * y || x * m == -(x * y);
  }

  lemma AlphaError(a: int, b: int, s: int32, c: int32, d: int, q: int, u: int, G: int, H: int, F: int)
    requires a * c + b * s == d * 0x8000_0000 + G && 0 <= G <= 0xFFFF_FFFE
    requires b * c - a * s == q * 0x8000_0000 + H && -0x7FFF_FFFF <= H <= 0x7FFF_FFFF
    requires d * c - q * s == u * 0x8000_0000 + F && -0x7FFF_FFFF <= F <= 0x7FFF_FFFF
    ensures Within(u, a * (s * s + c * c), 4)
  {
    AlphaIdentity(a, b, s, c, d, q, u, G, H, F);
    TermBound(c, G, 0xFFFF_FFFE);
    TermBound(s, H, 0x7FFF_FFFF);
  }

  lemma AlphaIdentity(a: int, b: int, s: int, c: int, d: int, q: int, u: int, G: int, H: int, F: int)
    requires a * c + b * s == d * 0x8000_0000 + G
    requires b * c - a * s == q * 0x8000_0000 + H
    requires d * c - q * s == u * 0x8000_0000 + F
    ensures u * 0x4000_0000_0000_0000 - a * (s * s + c * c) == s * H - c * G - F * 0x8000_0000
  {
    assert c * (a * c + b * s) == c * d * 0x8000_0000 + c * G;
    assert s * (b * c - a * s) == s * q * 0x8000_0000 + s * H;
    assert c * (a * c + b * s) - s * (b * c - a * s) == a * (s * s + c * c);
  }

  lemma BetaError(a: int, b: int, s: int32, c: int32, d: int, q: int, v: int, G: int, H: int, F: int)
    requires a * c + b * s == d * 0x8000_0000 + G && 0 <= G <= 0xFFFF_FFFE
    requires b * c - a * s == q * 0x8000_0000 + H && -0x7FFF_FFFF <= H <= 0x7FFF_FFFF
    requires q * c + d * s == v * 0x8000_0000 + F && 0 <= F <= 0xFFFF_FFFE
    ensures Within(v, b * (s * s + c * c), 5)
  {
    BetaIdentity(a, b, s, c, d, q, v, G, H, F);
    TermBound(c, H, 0x7FFF_FFFF);
    TermBound(s, G, 0xFFFF_FFFE);
  }

  lemma BetaIdentity(a: int, b: int, s: int, c: int, d: int, q: int, v: int, G: int, H: int, F: int)
    requires a * c + b * s == d * 0x8000_0000 + G
    requires b * c - a * s == q * 0x8000_0000 + H
    requires q * c + d * s == v * 0x8000_0000 + F
    ensures v * 0x4000_0000_0000_0000 - b * (s * s + c * c) == -(c * H) - s * G - F * 0x8000_0000
  {
    assert s * (a * c + b * s) == s * d * 0x8000_0000 + s * G;
    assert c * (b * c - a * s) == c * q * 0x8000_0000 + c * H;
    assert s * (a * c + b * s) + c * (b * c - a * s) == b * (s * s + c * c);
  }

  lemma TermBound(x: int32, y: int, k: int)
    requires -k <= y <= k
    ensures -(0x8000_0000 * k) <= x * y <= 0x8000_0000 * k
  {
    var m := Abs(x);
    MulLe(-k, y, m);
    MulLe(y, k, m);
    MulLe(m, 0x8000_0000, k);
    assert y * m == x * y || y * m == -(x * y);
    assert k * m == m * k && -k * m == -(m * k);
  }

  lemma ClampHarmless(u: int, a: int32, norm: int, k: int)
    requires 0 <= norm <= 0x4000_0000_0000_0000 && Within(u, a * norm, k)
    ensures Within(Clamp(u, -0x8000_0000, 0x7FFF_FFFF), a * norm, k)
  {
    MulLe(-0x8000_0000, a, norm);
    MulLe(a, 0x7FFF_FFFF, norm);
  }
}
