/** `arm_recip_q31` and `arm_recip_q15`: normalise with `__CLZ`, look up a seed, refine it
    with two truncating Newton steps.

    The seed tables are extern, so they are a parameter; the theorems assume no more of
    them than positive entries. */
module Reciprocal {
  import opened CInt
  import opened Saturation
  import opened BitLoops

  const INDEX_MASK: nat := 0x3F

  lemma {:induction false} BitLengthAtMost(v: nat, n: nat)
    requires v < Pow2(n)
    ensures BitLength(v) <= n
  {
    if v == 0 {
    } else {
      BitLengthAtMost(v / 2, n - 1);
    }
  }

  /** Shifting left until the top bit arrives never leaves the range, and brings a positive
      input into its upper half. */
  lemma Normalised(input: int, width: nat)
    requires width >= 1 && Abs(input) < Pow2(width)
    ensures 0 <= width - BitLength(Abs(input)) <= width
    ensures var full := input * Pow2(width - BitLength(Abs(input)));
            && -Pow2(width) < full < Pow2(width)
            && (input > 0 ==> Pow2(width - 1) <= full)
            && (input < 0 ==> full < 0)
  {
    BitLengthAtMost(Abs(input), width);
    if input != 0 {
      var v, s := Abs(input), width - BitLength(Abs(input));
      BitLengthBrackets(v);
      Pow2Sum(BitLength(v), s);
      Pow2Sum(BitLength(v) - 1, s);
      ShiftBrackets(v, Pow2(BitLength(v) - 1), Pow2(BitLength(v)), Pow2(s));
      NegatedProduct(input, Pow2(s));
    }
  }

  lemma ShiftBrackets(v: int, lo: int, hi: int, p: int)
    requires lo <= v < hi && p >= 1
    ensures lo * p <= v * p < hi * p
  {
    MulLe(lo, v, p);
    MulLe(v + 1, hi, p);
  }

  lemma NegatedProduct(x: int, p: int)
    ensures (-x) * p == -(x * p)
  {
  }

  // ---- Q31 ----

  /** One pass of the loop body. */
  function NewtonQ31(d: int32, out: int32): int32 {
    var tempVal: uint32 := ToUint32(d * out / 0x8000_0000);
    var complement: uint32 := ToUint32(0x7FFF_FFFF - tempVal);
    ProductFits(out, complement);
    ClipQ63ToQ31(out * complement / 0x4000_0000)
  }

  lemma ProductFits(out: int32, v: uint32)
    ensures -0x8000_0000_0000_0000 <= out * v < 0x8000_0000_0000_0000
  {
    MulLe(-0x8000_0000, out, v);
    MulLe(out, 0x7FFF_FFFF, v);
  }

  /** The left shift that brings an input to full scale: `__CLZ(|in|) - 1`. */
  function SignBitsQ31(input: int32): nat
    requires input != -0x8000_0000
  {
    Pow2Values();
    BitLengthAtMost(Abs(input), 31);
    31 - BitLength(Abs(input))
  }

  /** The input shifted to 1.31 format. */
  function FullScaleQ31(input: int32): int32
    requires input != -0x8000_0000
  {
    Pow2Values();
    Normalised(input, 31);
    input * Pow2(SignBitsQ31(input))
  }

  function SeedQ31(input: int32, table: seq<int32>): int32
    requires input != -0x8000_0000 && |table| == INDEX_MASK + 1
  {
    table[FullScaleQ31(input) / 0x100_0000 % (INDEX_MASK + 1)]
  }

  /** The estimate after n passes. */
  function PassesFromQ31(d: int32, seed: int32, n: nat): int32 {
    if n == 0 then seed else NewtonQ31(d, PassesFromQ31(d, seed, n - 1))
  }

  method RecipQ31(input: int32, table: seq<int32>) returns (ret: uint32, dst: int32)
    requires input != -0x8000_0000 && |table| == INDEX_MASK + 1
    ensures ret == SignBitsQ31(input) + 1
    ensures dst == RecipQ31Value(input, table)
    ensures input > 0 && GoodSeeds(0x4000_0000, table) ==> PreciseQ31(input * dst * Pow2(ret))
  {
    if input > 0 && GoodSeeds(0x4000_0000, table) {
      RecipQ31Precise(input, table);
    }
    Pow2Values();
    ghost var seed := SeedQ31(input, table);
    var zeros: uint8;
    if input > 0 {
      zeros := Clz(input);
    } else {
      zeros := Clz(-input);
    }
    var signBits: uint32 := zeros - 1;
    assert signBits == SignBitsQ31(input);
    ghost var fullScale := FullScaleQ31(input);
    var d: int32 := input * Pow2(signBits);
    var index: uint32 := d / 0x100_0000 % (INDEX_MASK + 1);
    var out: int32 := table[index];
    for i := 0 to 2
      invariant out == PassesFromQ31(d, seed, i)
    {
      out := NewtonQ31(d, out);
    }
    dst := out;
    ret := signBits + 1;
  }

  // ---- The Newton step on either width ----

  /** For full scale M = 2h, with E the distance of d * out from T = h * M, an exact pass
      would square E / T; rounding costs less than 3 / h, and always on the low side. */
  lemma NewtonError(h: int, d: int, out: int, v: int, next: int)
    requires h >= 1 && h <= d < 2 * h && 0 < out < 2 * h
    requires v == 2 * h - 1 - d * out / (2 * h) && next == out * v / h
    ensures var T := 2 * h * h; var E, E' := T - d * out, T - d * next;
            E * E < T * E' < E * E + 6 * h * T
  {
    var p, t, r2 := d * out, d * out / (2 * h), out * v - h * next;
    var r := p - 2 * h * t;
    DivRemainder(p, 2 * h);
    DivRemainder(out * v, h);
    ComplementBounds(h, d, out);
    NewtonIdentity(h, d, out, t, r, v, next, r2);
    RoundingBounds(h, d, p, r, r2);
  }

  lemma DivRemainder(x: int, m: int)
    requires m > 0
    ensures 0 <= x - m * (x / m) < m
  {
  }

  /** The complement and the next estimate stay in range. */
  lemma PassRange(h: int, d: int, out: int, v: int, next: int)
    requires h >= 1 && h <= d < 2 * h && 0 < out < 2 * h
    requires v == 2 * h - 1 - d * out / (2 * h) && next == out * v / h
    ensures 0 <= d * out / (2 * h) < 2 * h && 0 < v < 2 * h && 1 <= next < 2 * h
  {
    ComplementBounds(h, d, out);
    AtLeastOne(h, out, v, next, out * v % h);
    NewtonError(h, d, out, v, next);
    NextInRange(h, d, next, 2 * h * h - d * out, 2 * h * h - d * next);
  }

  lemma ComplementBounds(h: int, d: int, out: int)
    requires h >= 1 && h <= d < 2 * h && 0 < out < 2 * h
    ensures 0 < d * out < 2 * h * (2 * h)
    ensures 0 <= d * out / (2 * h) < out
  {
    var M := 2 * h;
    MulLe(1, d, out);
    MulLe(d + 1, M, out);
    MulLe(out, M, M);
    DivBelow(d * out, M, out);
  }

  lemma NewtonIdentity(h: int, d: int, out: int, t: int, r: int, v: int, next: int, r2: int)
    requires d * out == 2 * h * t + r && v == 2 * h - 1 - t && out * v == h * next + r2
    ensures var T, p := 2 * h * h, d * out;
            T * (T - d * next) == (T - p) * (T - p) + p * (2 * h - r) + 2 * h * d * r2
  {
    var M, T, p := 2 * h, 2 * h * h, d * out;
    TimesNext(h, d, out, v, next, r2);
    TimesComplement(p, M, T, r, v);
    Square(T, p);
    MulSub(T, T, d * next);
    MulAssoc(M, d, r2);
  }

  lemma TimesNext(h: int, d: int, out: int, v: int, next: int, r2: int)
    requires out * v == h * next + r2
    ensures 2 * h * h * (d * next) == 2 * h * (d * out * v) - 2 * h * (d * r2)
  {
    var N := d * next;
    assert h * N == d * out * v - d * r2 by {
      assert d * (out * v) == d * (h * next) + d * r2;
    }
    MulAssoc(2 * h, h, N);
    MulSub(2 * h, d * out * v, d * r2);
  }

  lemma TimesComplement(p: int, M: int, T: int, r: int, v: int)
    requires M * M == 2 * T && M * v == M * M - M - (p - r)
    ensures M * (p * v) == 2 * T * p - p * (M - r) - p * p
  {
    SwapFactors(M, p, v);
    ExpandComplement(p, M, T, r);
  }

  lemma SwapFactors(a: int, b: int, c: int)
    ensures a * (b * c) == b * (a * c)
  {
  }

  lemma ExpandComplement(p: int, M: int, T: int, r: int)
    ensures p * (2 * T - M - (p - r)) == 2 * T * p - p * (M - r) - p * p
  {
  }

  lemma Square(T: int, p: int)
    ensures (T - p) * (T - p) == T * T - 2 * T * p + p * p
  {
  }

  lemma RoundingBounds(h: int, d: int, p: int, r: int, r2: int)
    requires h >= 1 && 0 < d < 2 * h && 0 < p < 2 * h * (2 * h) && 0 <= r < 2 * h && 0 <= r2 < h
    ensures 0 < p * (2 * h - r) + 2 * h * d * r2 < 6 * h * (2 * h * h)
  {
    FirstCut(2 * h, p, r);
    SecondCut(2 * h, h, d, r2);
    Cubes(h);
  }

  lemma Cubes(h: int)
    ensures 2 * h * (2 * h) * (2 * h) + 2 * h * (2 * h * h) == 6 * h * (2 * h * h)
  {
    var s := h * h;
    assert 2 * h * (2 * h) == 4 * s && 2 * h * h == 2 * s;
    assert 4 * s * (2 * h) == 8 * (s * h) && 2 * h * (2 * s) == 4 * (s * h) && 6 * h * (2 * s) == 12 * (s * h);
  }

  lemma FirstCut(M: int, p: int, r: int)
    requires 0 < p < M * M && 0 <= r < M
    ensures 0 < p * (M - r) < M * M * M
  {
    MulLe(1, M - r, p);
    MulLe(M - r, M, p);
    MulLe(p + 1, M * M, M);
  }

  lemma SecondCut(M: int, h: int, d: int, r2: int)
    requires 0 < d < M && 0 <= r2 < h
    ensures 0 <= M * d * r2 <= M * (M * h)
  {
    MulLe(d, M, r2);
    MulLe(r2, h, M);
    MulAssoc(M, d, r2);
    MulLe(d * r2, M * h, M);
  }

  lemma NextInRange(h: int, d: int, next: int, E: int, E': int)
    requires h >= 1 && h <= d && E' == 2 * h * h - d * next && E * E < 2 * h * h * E'
    ensures next < 2 * h
  {
    assert E * E >= 0;
    assert E' <= 0 ==> 2 * h * h * E' <= 0;
    assert next >= 2 * h ==> d * next >= h * (2 * h);
  }

  lemma AtLeastOne(h: int, out: int, v: int, next: int, r2: int)
    requires h >= 1 && 0 < v < 2 * h && 2 * h - v <= out
    requires out * v == h * next + r2 && r2 < h
    ensures next >= 1
  {
    MulLe(2 * h - v, out, v);
    Concave(2 * h, v);
    assert next <= 0 ==> h * next <= 0;
  }

  lemma Concave(M: int, v: int)
    requires 1 <= v <= M - 1
    ensures (M - v) * v >= M - 1
  {
    assert (M - v - 1) * (v - 1) >= 0;
  }

  /** How far the product of the input and its approximate reciprocal falls short of 1, in
      parts of 1. */
  ghost function RelError(h: int, product: int): real
    requires h >= 1
  {
    assert 2 * h * h >= 1;
    1.0 - product as real / (2 * h * h) as real
  }

  /** Quadratic convergence with its rounding term. */
  lemma NewtonConverges(h: int, d: int, out: int, v: int, next: int)
    requires h >= 1 && h <= d < 2 * h && 0 < out < 2 * h
    requires v == 2 * h - 1 - d * out / (2 * h) && next == out * v / h
    ensures 0 < v && 1 <= next < 2 * h
    ensures Converges(h, d, out, next)
  {
    NewtonError(h, d, out, v, next);
    PassRange(h, d, out, v, next);
    ErrorConverges(h, d, out, next);
  }

  /** From the integer form of the error to the relative one. */
  lemma ErrorConverges(h: int, d: int, out: int, next: int)
    requires h >= 1
    requires var T := 2 * h * h; var E, E' := T - d * out, T - d * next;
             E * E < T * E' < E * E + 6 * h * T
    ensures Converges(h, d, out, next)
  {
    var T, p, p' := 2 * h * h, d * out, d * next;
    ProductsConverge(h, T, p, p', T - p, T - p');
  }

  lemma ProductsConverge(h: int, T: int, p: int, p': int, E: int, E': int)
    requires h >= 1 && T == 2 * h * h && E == T - p && E' == T - p'
    requires E * E < T * E' < E * E + 6 * h * T
    ensures var e, e' := RelError(h, p), RelError(h, p');
            e * e < e' < e * e + 3.0 / h as real
  {
    Scaled(h, T, T as real, p);
    Scaled(h, T, T as real, p');
    InReals(h, T, E, E');
    CompareScaled(h as real, T as real, RelError(h, p), RelError(h, p'), E as real, E' as real);
  }

  lemma Scaled(h: int, T: int, TReal: real, product: int)
    requires h >= 1 && T == 2 * h * h && TReal == T as real
    ensures RelError(h, product) * TReal == (T - product) as real
  {
    assert TReal >= 1.0;
    assert product as real / TReal * TReal == product as real;
  }

  lemma InReals(h: int, T: int, E: int, E': int)
    requires h >= 1 && T == 2 * h * h && E * E < T * E' < E * E + 6 * h * T
    ensures T as real == 2.0 * h as real * h as real
    ensures E as real * E as real < T as real * E' as real < E as real * E as real + 6.0 * h as real * T as real
  {
    assert E as real * E as real == (E * E) as real;
    assert T as real * E' as real == (T * E') as real;
    assert 6.0 * h as real * T as real == (6 * h * T) as real;
  }

  lemma CompareScaled(H: real, T: real, e: real, e': real, E: real, E': real)
    requires H >= 1.0 && T == 2.0 * H * H && e * T == E && e' * T == E'
    requires E * E < T * E' < E * E + 6.0 * H * T
    ensures e * e < e' < e * e + 3.0 / H
  {
    SquareScaled(e, T, E);
    SquareScaledOnce(e', T, E');
    RoundingScaled(H, T);
    CancelFactor(e * e, e', 3.0 / H, T * T);
  }

  lemma CancelFactor(a: real, b: real, c: real, w: real)
    requires w > 0.0 && a * w < b * w < a * w + c * w
    ensures a < b < a + c
  {
    Distribute(b, a, w);
    Distribute(a, b, w);
    Distribute(a + c - b, -c, w);
    PositiveFactor(b - a, w);
    PositiveFactor(a + c - b, w);
  }

  lemma SquareScaled(e: real, T: real, E: real)
    requires e * T == E
    ensures e * e * (T * T) == E * E
  {
    assert e * e * (T * T) == e * T * (e * T);
  }

  lemma SquareScaledOnce(e: real, T: real, E: real)
    requires e * T == E
    ensures e * (T * T) == T * E
  {
    assert e * (T * T) == e * T * T;
  }

  lemma RoundingScaled(H: real, T: real)
    requires H > 0.0 && T == 2.0 * H * H
    ensures 3.0 / H * (T * T) == 6.0 * H * T && T * T > 0.0
  {
    assert 3.0 / H * H == 3.0;
    assert 3.0 / H * T == 3.0 / H * H * (2.0 * H) == 6.0 * H;
    assert 3.0 / H * (T * T) == 3.0 / H * T * T;
  }

  lemma Distribute(a: real, b: real, w: real)
    ensures (a - b) * w == a * w - b * w
  {
  }

  lemma PositiveFactor(x: real, w: real)
    requires x * w > 0.0 && w > 0.0
    ensures x > 0.0
  {
    assert x <= 0.0 ==> x * w <= 0.0;
  }

  /** Two passes from a seed whose error is e0. */
  ghost function TwoPassBound(e0: real, c: real): real { (e0 * e0 + c) * (e0 * e0 + c) + c }

  /** One pass, as far as the error is concerned. */
  ghost predicate Converges(h: int, d: int, out: int, next: int)
    requires h >= 1
  {
    var e, e' := RelError(h, d * out), RelError(h, d * next);
    e * e < e' < e * e + 3.0 / h as real
  }

  lemma TwoPasses(h: int, d: int, out0: int, out1: int, out2: int)
    requires h >= 1 && Converges(h, d, out0, out1) && Converges(h, d, out1, out2)
    ensures 0.0 < RelError(h, d * out2) < TwoPassBound(RelError(h, d * out0), 3.0 / h as real)
  {
    SquaredTwice(RelError(h, d * out0), RelError(h, d * out1), RelError(h, d * out2), 3.0 / h as real);
  }

  lemma SquaredTwice(e0: real, e1: real, e2: real, c: real)
    requires e0 * e0 < e1 < e0 * e0 + c && e1 * e1 < e2 < e1 * e1 + c
    ensures 0.0 < e2 < TwoPassBound(e0, c)
  {
    var b := e0 * e0 + c;
    assert e0 * e0 >= 0.0;
    assert e1 * e1 >= 0.0;
    assert (b - e1) * (b + e1) > 0.0;
  }

  // ---- The reciprocals ----

  /** For a normalised input and a positive estimate no conversion in the pass changes a
      value, and in particular the clip is never taken. */
  lemma NewtonQ31Exact(d: int32, out: int32)
    requires d >= 0x4000_0000 && out > 0
    ensures 1 <= out * (0x7FFF_FFFF - d * out / 0x8000_0000) / 0x4000_0000 < 0x8000_0000
    ensures NewtonQ31(d, out) == out * (0x7FFF_FFFF - d * out / 0x8000_0000) / 0x4000_0000
  {
    var t := d * out / 0x8000_0000;
    PassRange(0x4000_0000, d, out, 0x7FFF_FFFF - t, out * (0x7FFF_FFFF - t) / 0x4000_0000);
    assert ToUint32(0x7FFF_FFFF - ToUint32(t)) == 0x7FFF_FFFF - t;
  }

  lemma FullScalePositiveQ31(input: int32)
    requires input > 0
    ensures FullScaleQ31(input) >= 0x4000_0000
  {
    Pow2Values();
    Normalised(input, 31);
  }

  lemma PassesQ31(input: int32, table: seq<int32>) returns (d: int, out0: int, out1: int, out2: int)
    requires input > 0 && |table| == INDEX_MASK + 1 && PositiveSeeds(table)
    ensures d == FullScaleQ31(input) && out0 == SeedQ31(input, table) && out2 == RecipQ31Value(input, table)
    ensures out2 >= 1
    ensures Converges(0x4000_0000, d, out0, out1) && Converges(0x4000_0000, d, out1, out2)
  {
    FullScalePositiveQ31(input);
    d, out0 := FullScaleQ31(input), SeedQ31(input, table);
    out1 := NewtonQ31(d, out0);
    out2 := NewtonQ31(d, out1);
    assert PassesFromQ31(d, out0, 1) == out1;
    PassQ31(d, out0, out1);
    PassQ31(d, out1, out2);
  }

  lemma PassQ31(d: int32, out: int32, next: int32)
    requires d >= 0x4000_0000 && out > 0 && next == NewtonQ31(d, out)
    ensures Converges(0x4000_0000, d, out, next) && next >= 1
  {
    NewtonQ31Exact(d, out);
    NewtonConverges(0x4000_0000, d, out, 0x7FFF_FFFF - d * out / 0x8000_0000, next);
  }

  function RecipQ31Value(input: int32, table: seq<int32>): int32
    requires input != -0x8000_0000 && |table| == INDEX_MASK + 1
  {
    PassesFromQ31(FullScaleQ31(input), SeedQ31(input, table), 2)
  }

  ghost predicate PositiveSeeds(table: seq<int>) {
    forall i | 0 <= i < |table| :: table[i] > 0
  }

  /** For every positive input, dst * 2^ret approximates 2^62 / input from below, and the
      relative error is the seed's, squared twice, plus the rounding. */
  lemma RecipQ31Accuracy(input: int32, table: seq<int32>)
    requires input > 0 && |table| == INDEX_MASK + 1 && PositiveSeeds(table)
    ensures var e0 := RelError(0x4000_0000, FullScaleQ31(input) * SeedQ31(input, table));
            var product := input * RecipQ31Value(input, table) * Pow2(SignBitsQ31(input) + 1);
            0.0 < 1.0 - product as real / 0x4000_0000_0000_0000 as real
                < TwoPassBound(e0, 3.0 / 0x4000_0000 as real)
  {
    var d, out0, out1, out2 := PassesQ31(input, table);
    TwoPasses(0x4000_0000, d, out0, out1, out2);
    Denormalise(input, out2, Pow2(SignBitsQ31(input)), d);
  }

  lemma Denormalise(input: int, dst: int, p: int, d: int)
    requires d == input * p
    ensures 1.0 - (input * dst * (2 * p)) as real / 0x4000_0000_0000_0000 as real
            == RelError(0x4000_0000, d * dst)
  {
    assert input * dst * (2 * p) == 2 * (d * dst) by {
      assert input * dst * p == input * p * dst;
    }
  }

  /** A seed within one part in 64, as a 64-entry table affords, yields 23 correct bits. */
  lemma SeedWithin64th(e0: real)
    requires -1.0 / 64.0 <= e0 <= 1.0 / 64.0
    ensures TwoPassBound(e0, 3.0 / 0x4000_0000 as real) < 1.0 / 0x80_0000 as real
  {
    var c := 3.0 / 0x4000_0000 as real;
    SquareAtMost(e0, 1.0 / 64.0);
    SquareAtMost(e0 * e0 + c, 1.0 / 4096.0 + c);
  }

  lemma SquareAtMost(x: real, b: real)
    requires -b <= x <= b
    ensures 0.0 <= x * x <= b * b
  {
    assert (b - x) * (b + x) == b * b - x * x;
  }

  lemma RecipQ31Positive(input: int32, table: seq<int32>)
    requires input != -0x8000_0000 && |table| == INDEX_MASK + 1 && PositiveSeeds(table)
    ensures RecipQ31Value(input, table) >= 1
  {
    if input > 0 {
      var d, out0, out1, out2 := PassesQ31(input, table);
    } else {
      Pow2Values();
      Normalised(input, 31);
      var d, out0 := FullScaleQ31(input), SeedQ31(input, table);
      NewtonQ31Diverges(d, out0);
      NewtonQ31Diverges(d, NewtonQ31(d, out0));
      assert PassesFromQ31(d, out0, 1) == NewtonQ31(d, out0);
    }
  }

  lemma NewtonQ31Diverges(d: int32, out: int32)
    requires d <= 0 < out
    ensures NewtonQ31(d, out) >= 1
  {
    var t := d * out / 0x8000_0000;
    MulLe(-0x8000_0000, d, out);
    MulLe(d, 0, out);
    assert ToUint32(0x7FFF_FFFF - ToUint32(t)) == 0x7FFF_FFFF - t;
    MulLe(1, out, 0x7FFF_FFFF - t);
  }

  /** The code has a branch for inputs that are not positive, but the result is positive
      there too: it has the sign of the reciprocal exactly when the input is positive. */
  lemma RecipQ31Sign(input: int32, table: seq<int32>)
    requires input != -0x8000_0000 && |table| == INDEX_MASK + 1 && PositiveSeeds(table)
    ensures input * RecipQ31Value(input, table) > 0 <==> input > 0
  {
    RecipQ31Positive(input, table);
    PositiveTimes(input, RecipQ31Value(input, table));
  }

  lemma PositiveTimes(x: int, y: int)
    requires y >= 1
    ensures x * y > 0 <==> x > 0
  {
  }

  // ---- Which seed an input gets ----

  /** The half-open interval of normalised inputs that entry i of the table serves; the input has h
      as its top bit, and the six bits below it count the intervals. */
  predicate InInterval(h: int, i: int, d: int) { h + i * (h / 64) <= d < h + (i + 1) * (h / 64) }

  /** The seed is within one part in 64 of the reciprocal of d. */
  ghost predicate SeedFits(h: int, seed: int, d: int) { 64 * Abs(2 * h * h - d * seed) <= 2 * h * h }

  /** Every entry fits all inputs of its interval. */
  ghost predicate GoodSeeds(h: int, table: seq<int>) {
    forall i, d | 0 <= i < |table| && InInterval(h, i, d) :: SeedFits(h, table[i], d)
  }

  lemma SmallError(h: int, product: int)
    requires h >= 1 && 64 * Abs(2 * h * h - product) <= 2 * h * h
    ensures -1.0 / 64.0 <= RelError(h, product) <= 1.0 / 64.0
  {
    SmallQuotient(2 * h * h, product);
  }

  lemma SmallQuotient(T: int, p: int)
    requires T >= 1 && 64 * Abs(T - p) <= T
    ensures -1.0 / 64.0 <= 1.0 - p as real / T as real <= 1.0 / 64.0
  {
    assert 63 * T <= 64 * p <= 65 * T;
    NearOne(p as real, T as real, p as real / T as real);
  }

  lemma NearOne(p: real, T: real, q: real)
    requires T >= 1.0 && 63.0 * T <= 64.0 * p <= 65.0 * T && q == p / T
    ensures -1.0 / 64.0 <= 1.0 - q <= 1.0 / 64.0
  {
    assert q * T == p;
    AtLeast(q, 63.0 / 64.0, T);
    AtLeast(65.0 / 64.0, q, T);
  }

  lemma AtLeast(a: real, b: real, w: real)
    requires w > 0.0 && a * w >= b * w
    ensures a >= b
  {
    Distribute(a, b, w);
    assert a < b ==> (a - b) * w < 0.0;
  }

  lemma FitsPositive(h: int, seed: int, d: int)
    requires h >= 1 && d >= 1 && SeedFits(h, seed, d)
    ensures seed > 0
  {
    assert h * h >= 1;
    assert seed <= 0 ==> d * seed <= 0;
  }

  lemma GoodSeedsPositive(h: int, table: seq<int>)
    requires h >= 64 && GoodSeeds(h, table)
    ensures PositiveSeeds(table)
  {
    forall i | 0 <= i < |table| ensures table[i] > 0 {
      var w := h / 64;
      MulLe(0, i, w);
      MulAdd(w, i, 1);
      assert InInterval(h, i, h + i * w);
      FitsPositive(h, table[i], h + i * w);
    }
  }

  /** The index of a positive normalised input is that of its interval, ... */
  lemma IndexQ31(d: int)
    requires 0x4000_0000 <= d < 0x8000_0000
    ensures 0 <= d / 0x100_0000 % 64 < 64 && InInterval(0x4000_0000, d / 0x100_0000 % 64, d)
  {
  }

  lemma IndexQ15(d: int)
    requires 0x4000 <= d < 0x8000
    ensures 0 <= d / 0x100 % 64 < 64 && InInterval(0x4000, d / 0x100 % 64, d)
  {
  }

  /** ... and of a negative one the same, counted from the most negative number. */
  lemma NegativeSeed(q31: int32, table31: seq<int32>, q15: int16, table15: seq<int16>, i: nat)
    requires -0x8000_0000 < q31 && |table31| == 64 && -0x8000 < q15 && |table15| == 64 && i < 64
    ensures -0x8000_0000 + i * 0x100_0000 <= FullScaleQ31(q31) < -0x8000_0000 + (i + 1) * 0x100_0000
            ==> SeedQ31(q31, table31) == table31[i]
    ensures -0x8000 + i * 0x100 <= FullScaleQ15(q15) < -0x8000 + (i + 1) * 0x100
            ==> SeedQ15(q15, table15) == table15[i]
  {
    NegativeIndex(FullScaleQ31(q31), i, 0x100_0000);
    NegativeIndex(FullScaleQ15(q15), i, 0x100);
  }

  lemma NegativeIndex(d: int, i: nat, w: int)
    requires w >= 1 && i < 64
    ensures -128 * w + i * w <= d < -128 * w + (i + 1) * w ==> d / w % 64 == i
  {
    if -128 * w + i * w <= d < -128 * w + (i + 1) * w {
      MulAdd(w, i, 1);
      DivModUnique(d, w, i - 128, d - (i - 128) * w);
    }
  }

  lemma FittingSeedQ31(input: int32, table: seq<int32>)
    requires input > 0 && |table| == 64 && GoodSeeds(0x4000_0000, table)
    ensures SeedFits(0x4000_0000, SeedQ31(input, table), FullScaleQ31(input))
  {
    FullScalePositiveQ31(input);
    IndexQ31(FullScaleQ31(input));
  }

  /** A product with the reciprocal falls short of 1, scaled by 2^62 or 2^30, by less than one part in
      2^23 or 2^12. */
  ghost predicate PreciseQ31(product: int) {
    0.0 < 1.0 - product as real / 0x4000_0000_0000_0000 as real < 1.0 / 0x80_0000 as real
  }

  ghost predicate PreciseQ15(product: int) {
    0.0 < 1.0 - product as real / 0x4000_0000 as real < 1.0 / 0x1000 as real
  }

  /** With such a table every positive input gets its reciprocal to 23 bits. */
  lemma RecipQ31Precise(input: int32, table: seq<int32>)
    requires input > 0 && |table| == INDEX_MASK + 1 && GoodSeeds(0x4000_0000, table)
    ensures PreciseQ31(input * RecipQ31Value(input, table) * Pow2(SignBitsQ31(input) + 1))
  {
    GoodSeedsPositive(0x4000_0000, table);
    FittingSeedQ31(input, table);
    SmallError(0x4000_0000, FullScaleQ31(input) * SeedQ31(input, table));
    SeedWithin64th(RelError(0x4000_0000, FullScaleQ31(input) * SeedQ31(input, table)));
    RecipQ31Accuracy(input, table);
  }

  lemma FittingSeedQ15(input: int16, table: seq<int16>)
    requires input > 0 && |table| == 64 && GoodSeeds(0x4000, table)
    ensures SeedFits(0x4000, SeedQ15(input, table), FullScaleQ15(input))
  {
    FullScalePositiveQ15(input);
    IndexQ15(FullScaleQ15(input));
  }

  /** At the shorter width the rounding leaves 12 bits. */
  lemma RecipQ15Precise(input: int16, table: seq<int16>)
    requires input > 0 && |table| == INDEX_MASK + 1 && GoodSeeds(0x4000, table)
    ensures PreciseQ15(input * RecipQ15Value(input, table) * Pow2(SignBitsQ15(input) + 1))
  {
    GoodSeedsPositive(0x4000, table);
    FittingSeedQ15(input, table);
    SmallError(0x4000, FullScaleQ15(input) * SeedQ15(input, table));
    SeedWithin64thQ15(RelError(0x4000, FullScaleQ15(input) * SeedQ15(input, table)));
    RecipQ15Accuracy(input, table);
  }

  lemma SeedWithin64thQ15(e0: real)
    requires -1.0 / 64.0 <= e0 <= 1.0 / 64.0
    ensures TwoPassBound(e0, 3.0 / 0x4000 as real) < 1.0 / 0x1000 as real
  {
    var c := 3.0 / 0x4000 as real;
    SquareAtMost(e0, 1.0 / 64.0);
    SquareAtMost(e0 * e0 + c, 1.0 / 4096.0 + c);
  }

  /** Such tables exist: the truncated reciprocals of the middles of the intervals. */
  lemma GoodSeedsExist() returns (table31: seq<int32>, table15: seq<int16>)
    ensures |table31| == |table15| == INDEX_MASK + 1
    ensures GoodSeeds(0x4000_0000, table31) && GoodSeeds(0x4000, table15)
  {
    forall i: nat | i < 64 ensures 0 < MiddleSeed(0x4000_0000, i) < 0x8000_0000 && 0 < MiddleSeed(0x4000, i) < 0x8000 {
      MiddleSeedBounds(0x4000_0000, i);
      MiddleSeedBounds(0x4000, i);
    }
    table31 := seq(64, (i: nat) requires i < 64 => MiddleSeed(0x4000_0000, i));
    table15 := seq(64, (i: nat) requires i < 64 => MiddleSeed(0x4000, i));
    forall i, d | 0 <= i < 64 && InInterval(0x4000_0000, i, d) ensures SeedFits(0x4000_0000, table31[i], d) {
      MiddleSeedFits(0x4000_0000, i, d);
    }
    forall i, d | 0 <= i < 64 && InInterval(0x4000, i, d) ensures SeedFits(0x4000, table15[i], d) {
      MiddleSeedFits(0x4000, i, d);
    }
  }

  function Middle(h: int, i: nat): int { h + i * (h / 64) + h / 128 }

  function MiddleSeed(h: int, i: nat): int
    requires h >= 128
  {
    MulLe(0, i, h / 64);
    2 * h * h / Middle(h, i)
  }

  lemma MiddleSeedBounds(h: int, i: nat)
    requires h >= 128 && h % 128 == 0 && i < 64
    ensures h < Middle(h, i) < 2 * h && 0 < MiddleSeed(h, i) < 2 * h
    ensures 0 <= 2 * h * h - Middle(h, i) * MiddleSeed(h, i) < Middle(h, i)
  {
    var m := Middle(h, i);
    MulLe(0, i, h / 64);
    MulLe(i, 63, h / 64);
    QuotientBounds(2 * h * h, m);
    MulLe(h + 1, m, 2 * h);
    MulLe(1, h, h);
    MulLe(2, h, h);
    assert 2 * h * h == h * (2 * h);
    DivBelow(2 * h * h, m, 2 * h);
    assert m * 0 == 0;
  }

  lemma QuotientBounds(x: int, m: int)
    requires m > 0
    ensures 0 <= x - m * (x / m) < m
  {
  }

  lemma MiddleSeedFits(h: int, i: nat, d: int)
    requires h >= 128 && h % 128 == 0 && i < 64 && InInterval(h, i, d)
    ensures SeedFits(h, MiddleSeed(h, i), d)
  {
    MiddleSeedBounds(h, i);
    NearMiddle(h, i, d);
    FitsNearMiddle(h, h / 128, Middle(h, i), MiddleSeed(h, i), d);
  }

  lemma FitsNearMiddle(h: int, w: int, m: int, s: int, d: int)
    requires h >= 128 && h == 128 * w && h < m < 2 * h && 0 < s < 2 * h
    requires -w <= d - m <= w && 0 <= 2 * h * h - m * s < m
    ensures SeedFits(h, s, d)
  {
    DistanceScaled(d - m, s, w, 2 * h);
    MulSub(s, d, m);
    MulLe(128, h, h);
    assert 64 * (w * (2 * h)) == h * h && 2 * h * h == 2 * (h * h);
    Combine(h, h * h, m, m * s, s * (d - m), d * s);
  }

  lemma Combine(h: int, square: int, m: int, ms: int, distance: int, ds: int)
    requires 128 * h <= square && m < 2 * h && 0 <= 2 * square - ms < m
    requires -square <= 64 * distance <= square && ds == ms + distance
    ensures 64 * Abs(2 * square - ds) <= 2 * square
  {
  }

  lemma NearMiddle(h: int, i: nat, d: int)
    requires h >= 128 && h % 128 == 0 && InInterval(h, i, d)
    ensures -(h / 128) <= d - Middle(h, i) <= h / 128 && h == 128 * (h / 128)
  {
    MulAdd(h / 64, i, 1);
  }

  lemma DistanceScaled(x: int, s: int, w: int, k: int)
    requires -w <= x <= w && 0 < s < k
    ensures -(w * k) <= s * x <= w * k
  {
    MulLe(-w, x, s);
    MulLe(x, w, s);
    MulLe(s, k, w);
    assert -w * s == -(s * w);
  }

  // ---- Q15 ----

  /** One pass of the Q15 loop body: the product is taken in unsigned 32-bit arithmetic and
      the quotient is cast to 16 bits without a clip. */
  function NewtonQ15(d: int16, out: int16): int16 {
    var tempVal: uint32 := ToUint32(d * out / 0x8000);
    var complement: uint32 := ToUint32(0x7FFF - tempVal);
    ToInt16(ToUint32(out * complement) / 0x4000)
  }

  function SignBitsQ15(input: int16): nat
    requires input != -0x8000
  {
    Pow2Values();
    BitLengthAtMost(Abs(input), 15);
    15 - BitLength(Abs(input))
  }

  /** The input shifted to 1.15 format. */
  function FullScaleQ15(input: int16): int16
    requires input != -0x8000
  {
    Pow2Values();
    Normalised(input, 15);
    input * Pow2(SignBitsQ15(input))
  }

  function SeedQ15(input: int16, table: seq<int16>): int16
    requires input != -0x8000 && |table| == INDEX_MASK + 1
  {
    table[FullScaleQ15(input) / 0x100 % (INDEX_MASK + 1)]
  }

  function RecipQ15Value(input: int16, table: seq<int16>): int16
    requires input != -0x8000 && |table| == INDEX_MASK + 1
  {
    PassesFromQ15(FullScaleQ15(input), SeedQ15(input, table), 2)
  }

  /** The estimate after n passes. */
  function PassesFromQ15(d: int16, seed: int16, n: nat): int16 {
    if n == 0 then seed else NewtonQ15(d, PassesFromQ15(d, seed, n - 1))
  }

  method RecipQ15(input: int16, table: seq<int16>) returns (ret: uint32, dst: int16)
    requires input != -0x8000 && |table| == INDEX_MASK + 1
    ensures ret == SignBitsQ15(input) + 1
    ensures dst == RecipQ15Value(input, table)
    ensures input > 0 && GoodSeeds(0x4000, table) ==> PreciseQ15(input * dst * Pow2(ret))
  {
    if input > 0 && GoodSeeds(0x4000, table) {
      RecipQ15Precise(input, table);
    }
    Pow2Values();
    ghost var seed := SeedQ15(input, table);
    var zeros: uint8;
    if input > 0 {
      zeros := Clz(input);
    } else {
      zeros := Clz(-input);
    }
    var signBits: uint32 := zeros - 17;
    assert signBits == SignBitsQ15(input);
    ghost var fullScale := FullScaleQ15(input);
    var d: int16 := input * Pow2(signBits);
    var index: uint32 := d / 0x100 % (INDEX_MASK + 1);
    var out: int16 := table[index];
    for i := 0 to 2
      invariant out == PassesFromQ15(d, seed, i)
    {
      out := NewtonQ15(d, out);
    }
    dst := out;
    ret := signBits + 1;
  }

  /** For a normalised input and a positive estimate the unsigned product does not overflow
      and the 16-bit cast does not wrap. */
  lemma NewtonQ15Exact(d: int16, out: int16)
    requires d >= 0x4000 && out > 0
    ensures 1 <= out * (0x7FFF - d * out / 0x8000) / 0x4000 < 0x8000
    ensures NewtonQ15(d, out) == out * (0x7FFF - d * out / 0x8000) / 0x4000
  {
    var t := d * out / 0x8000;
    PassRange(0x4000, d, out, 0x7FFF - t, out * (0x7FFF - t) / 0x4000);
    assert ToUint32(0x7FFF - ToUint32(t)) == 0x7FFF - t;
    MulLe(0, out, 0x7FFF - t);
    MulLe(out, 0x8000, 0x7FFF - t);
    assert ToUint32(out * (0x7FFF - t)) == out * (0x7FFF - t);
  }

  lemma PassQ15(d: int16, out: int16, next: int16)
    requires d >= 0x4000 && out > 0 && next == NewtonQ15(d, out)
    ensures Converges(0x4000, d, out, next) && next >= 1
  {
    NewtonQ15Exact(d, out);
    NewtonConverges(0x4000, d, out, 0x7FFF - d * out / 0x8000, next);
  }

  lemma FullScalePositiveQ15(input: int16)
    requires input > 0
    ensures FullScaleQ15(input) >= 0x4000
  {
    Pow2Values();
    Normalised(input, 15);
  }

  lemma PassesQ15(input: int16, table: seq<int16>) returns (d: int, out0: int, out1: int, out2: int)
    requires input > 0 && |table| == INDEX_MASK + 1 && PositiveSeeds(table)
    ensures d == FullScaleQ15(input) && out0 == SeedQ15(input, table) && out2 == RecipQ15Value(input, table)
    ensures out2 >= 1
    ensures Converges(0x4000, d, out0, out1) && Converges(0x4000, d, out1, out2)
  {
    FullScalePositiveQ15(input);
    d, out0 := FullScaleQ15(input), SeedQ15(input, table);
    out1 := NewtonQ15(d, out0);
    out2 := NewtonQ15(d, out1);
    assert PassesFromQ15(d, out0, 1) == out1;
    PassQ15(d, out0, out1);
    PassQ15(d, out1, out2);
  }

  /** For every positive input, dst * 2^ret approximates 2^30 / input from below. */
  lemma RecipQ15Accuracy(input: int16, table: seq<int16>)
    requires input > 0 && |table| == INDEX_MASK + 1 && PositiveSeeds(table)
    ensures RecipQ15Value(input, table) >= 1
    ensures var e0 := RelError(0x4000, FullScaleQ15(input) * SeedQ15(input, table));
            var product := input * RecipQ15Value(input, table) * Pow2(SignBitsQ15(input) + 1);
            0.0 < 1.0 - product as real / 0x4000_0000 as real < TwoPassBound(e0, 3.0 / 0x4000 as real)
  {
    var d, out0, out1, out2 := PassesQ15(input, table);
    TwoPasses(0x4000, d, out0, out1, out2);
    DenormaliseQ15(input, out2, Pow2(SignBitsQ15(input)), d);
  }

  lemma DenormaliseQ15(input: int, dst: int, p: int, d: int)
    requires d == input * p
    ensures 1.0 - (input * dst * (2 * p)) as real / 0x4000_0000 as real == RelError(0x4000, d * dst)
  {
    assert input * dst * (2 * p) == 2 * (d * dst) by {
      assert input * dst * p == input * p * dst;
    }
  }

  /** The Q15 form has no clip.  For an input that is not positive, a pass from a positive estimate
      is exact precisely while the product is below 2^29; from there on the cast wraps. */
  lemma NewtonQ15NotPositive(d: int16, out: int16)
    requires d <= 0 < out
    ensures var product := out * (0x7FFF - d * out / 0x8000);
            NewtonQ15(d, out) == product / 0x4000 <==> product < 0x2000_0000
  {
    var t := d * out / 0x8000;
    MulLe(-0x8000, d, out);
    MulLe(d, 0, out);
    var v := 0x7FFF - t;
    MulLe(out, 0x7FFF, v);
    MulLe(0, out, v);
    assert ToUint32(0x7FFF - ToUint32(t)) == v;
    CastWraps(out * v);
  }

  lemma CastWraps(product: int)
    requires 0 <= product < 0x8000_0000
    ensures ToInt16(ToUint32(product) / 0x4000) == product / 0x4000 <==> product < 0x2000_0000
  {
  }

  lemma FullScaleNotPositiveQ15(input: int16)
    requires -0x8000 < input <= 0
    ensures FullScaleQ15(input) <= 0
  {
    Pow2Values();
    Normalised(input, 15);
  }

  /** In terms of the function's own input and table: its first pass. */
  lemma RecipQ15FirstPass(input: int16, table: seq<int16>)
    requires -0x8000 < input <= 0 && |table| == INDEX_MASK + 1 && PositiveSeeds(table)
    ensures var seed := SeedQ15(input, table);
            var product := seed * (0x7FFF - FullScaleQ15(input) * seed / 0x8000);
            PassesFromQ15(FullScaleQ15(input), seed, 1) == product / 0x4000 <==> product < 0x2000_0000
  {
    FullScaleNotPositiveQ15(input);
    FirstPassQ15(FullScaleQ15(input), SeedQ15(input, table));
    NewtonQ15NotPositive(FullScaleQ15(input), SeedQ15(input, table));
  }

  lemma FirstPassQ15(d: int16, seed: int16)
    ensures PassesFromQ15(d, seed, 1) == NewtonQ15(d, seed)
  {
    assert PassesFromQ15(d, seed, 0) == seed;
  }

  /** It does wrap: for -1 and a seed of 0x4000 the first pass turns the estimate negative. */
  lemma RecipQ15Wraps(input: int16, table: seq<int16>)
    requires input == -1 && |table| == INDEX_MASK + 1 && table[0] == 0x4000
    ensures SeedQ15(input, table) == 0x4000
    ensures PassesFromQ15(FullScaleQ15(input), SeedQ15(input, table), 1) == -0x6001
  {
    SeedOfMinusOne(input, table);
    WrappedFirstPass(FullScaleQ15(input), SeedQ15(input, table));
  }

  lemma WrappedFirstPass(d: int16, seed: int16)
    requires d == -0x4000 && seed == 0x4000
    ensures PassesFromQ15(d, seed, 1) == -0x6001
  {
    FirstPassQ15(d, seed);
    WrappedPass(d, seed);
  }

  lemma SeedOfMinusOne(input: int16, table: seq<int16>)
    requires input == -1 && |table| == INDEX_MASK + 1
    ensures FullScaleQ15(input) == -0x4000 && SeedQ15(input, table) == table[0]
  {
    FullScaleOfMinusOne(input);
  }

  lemma FullScaleOfMinusOne(input: int16)
    requires input == -1
    ensures FullScaleQ15(input) == -0x4000
  {
    Pow2Values();
    BitLengthUnique(Abs(input), 1);
  }

  lemma WrappedPass(d: int16, out: int16)
    requires d == -0x4000 && out == 0x4000
    ensures NewtonQ15(d, out) == -0x6001
  {
    assert d * out / 0x8000 == -0x2000;
    assert out * 0x9FFF / 0x4000 == 0x9FFF;
  }
}
