/** The on-chip temperature sensor (board_utility.c): two sums of eight 12-bit readings, one of
    the sensor and one of the supply voltage, turned into 128ths of a degree with the built-in
    calibration record. */
module TempSensor {
  import opened CInt
  import Tcxo

  const NB_SAMPLES: int := 8
  const READING_MAX: int := 4095

  // The calibration record; the two casts of its initialiser are written out.
  const TREF_SUM8: int := 21001           // sensor sum at the reference temperature
  const NLFIT_TOFFSET: int := 41
  const NLFIT_GAIN: int := 154 - 0x100
  const TREF: int := 3354                 // the reference temperature
  const VBATSUM_OFFSET: int := 3756
  const VBATSUM_GAIN: int := 1008
  const SLOPEFITINV_GAIN: int := 39453 - 0x1_0000
  const SLOPEFITINV_VBATGAIN: int := 1401

  type Reading = x: int | 0 <= x <= READING_MAX
  type Sum8 = x: int | 0 <= x <= 8 * READING_MAX

  // ---- The sums ----

  function Total(readings: seq<Reading>): (sum: nat)
    ensures sum <= READING_MAX * |readings|
  {
    if readings == [] then 0 else Total(readings[..|readings| - 1]) + readings[|readings| - 1]
  }

  lemma TotalNext(readings: seq<Reading>, k: nat)
    requires k < |readings|
    ensures Total(readings[..k + 1]) == Total(readings[..k]) + readings[k]
  {
    assert readings[..k + 1][..k] == readings[..k];
  }

  lemma AddNarrowed(a: nat, b: nat)
    ensures ToUint16(ToUint16(a) + b) == ToUint16(a + b)
  {
  }

  /** `compute_estimated_sum`, the converter's results being given: the sum is kept in 16 bits,
      which is enough for up to 16 samples. */
  method ComputeEstimatedSum(results: seq<Reading>, nbSamples: uint8) returns (estimatedSum: uint16)
    requires |results| == nbSamples
    ensures estimatedSum == ToUint16(Total(results))
    ensures nbSamples <= 16 ==> estimatedSum == Total(results)
  {
    var count: uint8 := 0;
    estimatedSum := 0;
    while count < nbSamples
      invariant count <= nbSamples
      invariant estimatedSum == ToUint16(Total(results[..count]))
    {
      TotalNext(results, count);
      AddNarrowed(Total(results[..count]), results[count]);
      estimatedSum := ToUint16(estimatedSum + results[count]);
      count := count + 1;
    }
    assert results[..count] == results;
  }

  // ---- The computation ----

  /** Distance of the supply sum from its calibration value. */
  function SupplyDiff(vbat: Sum8): (d: int16)
    ensures -30048 <= d <= 2712
  {
    vbat - VBATSUM_OFFSET * NB_SAMPLES
  }

  /** Coefficient 1, negative when the supply is below its calibration value. */
  function Coef1(vbat: Sum8): int32 { SLOPEFITINV_VBATGAIN * SupplyDiff(vbat) }

  /** Coefficient 2 before the division by the number of samples. */
  function Coef2Mult8(vbat: Sum8): (c: int32)
    ensures 262087 <= c <= 262787
  {
    0x4_0000 - Coef1(vbat) / 0x1_0000
  }

  predicate Bit2(x: int) { x / 4 % 2 == 1 }

  function Coef2(vbat: Sum8): (c: int32)
    ensures 32759 <= c <= 32849
  {
    var c: int32 := DivTrunc(Coef2Mult8(vbat), NB_SAMPLES);
    if Bit2(Coef2Mult8(vbat)) then
      if Coef1(vbat) < 0 then c - 1 else c + 1
    else c
  }

  function Coef3(vbat: Sum8): (c: int32)
    ensures -13074 <= c <= -13037
  {
    var p: int32 := SLOPEFITINV_GAIN * Coef2(vbat);
    p / 0x1_0000
  }

  /** The linear fit. */
  function LinearFit(vbat: Sum8, tsens: Sum8): (t: int32)
    ensures -15500 <= t <= 36900
  {
    Coef4Bound(tsens - TREF_SUM8, Coef3(vbat));
    var coef4: int32 := (tsens - TREF_SUM8) * Coef3(vbat);
    coef4 / 0x2000 + TREF
  }

  lemma Coef4Bound(dt: int, c: int)
    requires -21001 <= dt <= 11759 && -13074 <= c <= 0
    ensures -11759 * 13074 <= dt * c <= 21001 * 13074
  {
    MulLe(-21001, dt, -c);
    MulLe(dt, 11759, -c);
    assert dt * c == -(dt * -c);
    assert -21001 * -c == 21001 * c && 11759 * -c == -(11759 * c);
  }

  /** `compute_nlfit_corr`. */
  function NlfitCorr(input: int32): (r: int32)
    requires -0x8000 <= input < 0x1_0000
    ensures -7000 <= r <= 0
  {
    var d: int32 := Degrees(input);
    SquareBound(d);
    var coef: int32 := d * d;
    var scaled: int32 := NLFIT_GAIN * (coef / 0x40);
    ScaledBound(coef);
    scaled / 0x40
  }

  /** Whole degrees above the offset of the quadratic correction. */
  function Degrees(input: int): int { input / 0x80 - NLFIT_TOFFSET }

  /** The two shifts of the correction lose little. */
  lemma ScaledBound(coef: int)
    requires 0 <= coef <= 250000
    ensures var r := NLFIT_GAIN * (coef / 0x40) / 0x40;
            && -7000 <= r <= 0
            && -4032 <= 0x1000 * r - NLFIT_GAIN * coef <= 6426
  {
  }

  lemma SquareBound(d: int)
    requires -300 <= d <= 500
    ensures 0 <= d * d <= 250000
  {
    var m: int := Abs(d);
    MulLe(0, m, m);
    MulLe(m, 500, m);
    assert d * d == m * m;
  }

  /** Correction for the supply voltage. */
  function SupplyCorr(vbat: Sum8): (r: int32)
    ensures -7395 <= r <= 667
  {
    var p: int32 := VBATSUM_GAIN * SupplyDiff(vbat);
    DivTrunc(p, NB_SAMPLES) / 0x200
  }

  /** `temp_computation`. */
  function TempComputation(vbat: Sum8, tsens: Sum8): (t: int32)
    ensures t == LinearFit(vbat, tsens) + NlfitCorr(LinearFit(vbat, tsens)) - NlfitCorr(TREF) - SupplyCorr(vbat)
    ensures -23500 <= t <= 52000
  {
    var linear := LinearFit(vbat, tsens);
    var corrected: int32 := linear + NlfitCorr(linear);
    var relative: int32 := corrected - NlfitCorr(TREF);
    relative - SupplyCorr(vbat)
  }

  /** `get_temperature` as the driver calls it, the readings of the two channels being given. */
  method GetTemperature(sensor: seq<Reading>, supply: seq<Reading>, nbSamples: uint8)
    returns (temperature: int32)
    requires nbSamples == NB_SAMPLES && |sensor| == nbSamples && |supply| == nbSamples
    ensures temperature == TempComputation(Total(supply), Total(sensor))
  {
    var tsensSum8 := ComputeEstimatedSum(sensor, nbSamples);
    var vbatSum8 := ComputeEstimatedSum(supply, nbSamples);
    temperature := TempComputation(vbatSum8, tsensSum8);
  }

  // ---- What the result is ----

  /** At the reference sensor sum, the linear fit is the reference temperature at every supply
      voltage, and only the supply correction is left of the result; at the calibration point
      that is nothing. */
  lemma AtReference(vbat: Sum8)
    ensures LinearFit(vbat, TREF_SUM8) == TREF
    ensures TempComputation(vbat, TREF_SUM8) == TREF - SupplyCorr(vbat)
    ensures TempComputation(VBATSUM_OFFSET * NB_SAMPLES, TREF_SUM8) == TREF
  {
  }

  /** Coefficient 2 is meant to be rounded to nearest. It is, except when the bit worth one half
      is set and the supply is below its calibration value: then the positive quotient is
      moved down instead of up. */
  lemma RoundedToNearest(vbat: Sum8)
    ensures Abs(NB_SAMPLES * Coef2(vbat) - Coef2Mult8(vbat)) <= NB_SAMPLES / 2
            <==> !Bit2(Coef2Mult8(vbat)) || SupplyDiff(vbat) >= 0
    ensures Bit2(Coef2Mult8(vbat)) && SupplyDiff(vbat) < 0
            ==> 12 <= Coef2Mult8(vbat) - NB_SAMPLES * Coef2(vbat) <= 15
  {
  }

  /** The exception does occur: 200 below the calibration value the bit is set. */
  lemma RoundedAway(vbat: Sum8)
    requires vbat == 29848
    ensures Bit2(Coef2Mult8(vbat)) && SupplyDiff(vbat) == -200
    ensures Abs(NB_SAMPLES * Coef2(vbat) - Coef2Mult8(vbat)) > NB_SAMPLES / 2
  {
  }

  /** Every shift cuts downwards and nothing else is lost: each stage is the floor of the one before it,
      scaled as the comments of the code say. */
  lemma EveryShiftIsFloor(vbat: Sum8, tsens: Sum8, linear: int32)
    requires -15500 <= linear <= 36900
    ensures 0 <= 1401 * (vbat - 30048) - 0x1_0000 * (0x4_0000 - Coef2Mult8(vbat)) < 0x1_0000
    ensures 0 <= -26083 * Coef2(vbat) - 0x1_0000 * Coef3(vbat) < 0x1_0000
    ensures 0 <= (tsens - 21001) * Coef3(vbat) - 0x2000 * (LinearFit(vbat, tsens) - 3354) < 0x2000
    ensures 0 <= 126 * (vbat - 30048) - 0x200 * SupplyCorr(vbat) < 0x200
    ensures var d, scaled := Degrees(linear), Degrees(linear) * Degrees(linear) / 64;
            0 <= linear - 128 * (d + 41) < 128 && 0 <= -102 * scaled - 64 * NlfitCorr(linear) < 64
  {
  }

  /** The linear fit over the reals, in 128ths of a degree. */
  function ExactSlope(vbat: int): real {
    SLOPEFITINV_GAIN as real
    * (1.0 - SLOPEFITINV_VBATGAIN as real * (vbat - VBATSUM_OFFSET * NB_SAMPLES) as real / 0x4_0000_0000 as real)
    / 0x4000 as real
  }

  function ExactLinearFit(vbat: int, tsens: int): real {
    TREF as real + (tsens - TREF_SUM8) as real * ExactSlope(vbat)
  }

  /** The quadratic correction for a temperature in 128ths of a degree, over the reals. */
  function ExactNlfit(t: real): real { NLFIT_GAIN as real * Square(ExactDegrees(t)) / 0x1000 as real }

  function ExactDegrees(t: real): real { t / 128.0 - NLFIT_TOFFSET as real }

  function Square(x: real): real { x * x }

  function ExactSupplyCorr(vbat: int): real {
    VBATSUM_GAIN as real * (vbat - VBATSUM_OFFSET * NB_SAMPLES) as real / 0x1000 as real
  }

  /** The whole formula over the reals. */
  function ExactTemperature(vbat: int, tsens: int): real {
    var t := ExactLinearFit(vbat, tsens);
    t + ExactNlfit(t) - ExactNlfit(TREF as real) - ExactSupplyCorr(vbat)
  }

  /** The truncated slope, misrounding included, is within two 8192ths of the real one. */
  lemma SlopeAccuracy(vbat: Sum8)
    ensures -2.0 < Coef3(vbat) as real - 0x2000 as real * ExactSlope(vbat) < 2.0
  {
  }

  lemma LinearAccuracy(vbat: Sum8, tsens: Sum8)
    ensures -7.0 < LinearFit(vbat, tsens) as real - ExactLinearFit(vbat, tsens) < 6.0
  {
    SlopeAccuracy(vbat);
    FitError(tsens - TREF_SUM8, Coef3(vbat), ExactSlope(vbat));
  }

  lemma FitError(dt: int, c: int, slope: real)
    requires -21001 <= dt <= 21001 && -2.0 < c as real - 0x2000 as real * slope < 2.0
    ensures -7.0 < (dt * c / 0x2000) as real - dt as real * slope < 6.0
  {
    var e := c as real - 0x2000 as real * slope;
    ErrorBound(dt as real, e);
    var p := dt * c;
    assert p as real == dt as real * c as real;
    assert dt as real * c as real == dt as real * e + 0x2000 as real * (dt as real * slope);
    assert 0 <= p - p / 0x2000 * 0x2000 < 0x2000;
  }

  lemma ErrorBound(x: real, e: real)
    requires -21001.0 <= x <= 21001.0 && -2.0 < e < 2.0
    ensures -42002.0 <= x * e <= 42002.0
  {
    assert x >= 0.0 ==> -2.0 * x <= x * e <= 2.0 * x;
    assert x <= 0.0 ==> 2.0 * x <= x * e <= -2.0 * x;
  }

  /** The quadratic correction of a linear fit, against the real formula at a temperature that
      the fit approximates: cutting to whole degrees costs most. */
  lemma NlfitAccuracy(linear: int32, t: real)
    requires -15500 <= linear <= 36900 && -7.0 <= linear as real - t <= 6.0
    ensures -14.0 < NlfitCorr(linear) as real - ExactNlfit(t) < 15.0
  {
    var d, u := Degrees(linear), ExactDegrees(t);
    NlfitTruncation(linear);
    DegreesGap(linear, t);
    SquareGap(u, d as real);
    assert (d * d) as real == Square(d as real);
  }

  /** The two shifts of the correction alone. */
  lemma NlfitTruncation(linear: int32)
    requires -0x8000 <= linear < 0x1_0000
    ensures var d := Degrees(linear);
            -1.0 < NlfitCorr(linear) as real - NLFIT_GAIN as real * (d * d) as real / 0x1000 as real < 1.6
  {
    var d := Degrees(linear);
    SquareBound(d);
    ScaledBound(d * d);
  }

  lemma DegreesGap(linear: int, t: real)
    requires -15500 <= linear <= 36900 && -7.0 <= linear as real - t <= 6.0
    ensures -163 <= Degrees(linear) <= 247
    ensures -0.05 <= ExactDegrees(t) - Degrees(linear) as real <= 1.05
  {
    var q := linear / 0x80;
    assert 0x80 * q <= linear < 0x80 * q + 0x80;
    assert 128.0 * q as real <= linear as real <= 128.0 * q as real + 127.0;
  }

  lemma SquareGap(u: real, d: real)
    requires -163.0 <= d <= 247.0 && -0.05 <= u - d <= 1.05
    ensures -520.0 <= Square(u) - Square(d) <= 520.0
  {
    var s, g := u + d, u - d;
    assert Square(u) - Square(d) == s * g;
    assert s >= 0.0 ==> -0.05 * s <= s * g <= 1.05 * s;
    assert s <= 0.0 ==> 1.05 * s <= s * g <= -0.05 * s;
  }

  /** The correction at the reference temperature, a constant. */
  lemma ReferenceNlfit()
    ensures NlfitCorr(TREF) == -5 && -5.46 < ExactNlfit(TREF as real) < -5.45
  {
    assert Degrees(TREF) == -15;
  }

  /** The whole computation, for every pair of sums, stays within 22/128 of a degree of the
      formulas over the reals. */
  lemma Accuracy(vbat: Sum8, tsens: Sum8)
    ensures -22.0 < TempComputation(vbat, tsens) as real - ExactTemperature(vbat, tsens) < 22.0
  {
    LinearAccuracy(vbat, tsens);
    NlfitAccuracy(LinearFit(vbat, tsens), ExactLinearFit(vbat, tsens));
    ReferenceNlfit();
    SupplyAccuracy(vbat);
  }

  lemma SupplyAccuracy(vbat: Sum8)
    ensures 0.0 <= ExactSupplyCorr(vbat) - SupplyCorr(vbat) as real < 1.0
  {
    var x := 126 * (vbat - VBATSUM_OFFSET * NB_SAMPLES);
    assert SupplyCorr(vbat) == x / 0x200;
    assert ExactSupplyCorr(vbat) == x as real / 512.0;
  }

  /** At a given supply, a larger sensor sum never reads warmer by more than 14/128 of a degree,
      the most the quadratic correction jumps at a whole degree. */
  lemma NearlyAntitone(vbat: Sum8, tsens: Sum8, tsens': Sum8)
    requires tsens <= tsens'
    ensures LinearFit(vbat, tsens) >= LinearFit(vbat, tsens')
    ensures TempComputation(vbat, tsens) >= TempComputation(vbat, tsens') - 14
  {
    var dt, dt', c := tsens - TREF_SUM8, tsens' - TREF_SUM8, Coef3(vbat);
    FitAntitone(dt, dt', c);
    NlfitDrop(LinearFit(vbat, tsens'), LinearFit(vbat, tsens));
  }

  lemma FitAntitone(dt: int, dt': int, c: int)
    requires dt <= dt' && c <= 0
    ensures dt * c / 0x2000 >= dt' * c / 0x2000
  {
    MulLe(dt, dt', -c);
    assert dt * -c == -(dt * c) && dt' * -c == -(dt' * c);
  }

  lemma NlfitDrop(cold: int32, warm: int32)
    requires -15500 <= cold <= warm <= 36900
    ensures NlfitCorr(cold) - NlfitCorr(warm) <= warm - cold + 14
  {
    var d, d' := Degrees(cold), Degrees(warm);
    if d < d' {
      SquareBound(d);
      SquareBound(d');
      ScaledBound(d * d);
      ScaledBound(d' * d');
      SquareStep(d, d');
    }
  }

  lemma SquareStep(d: int, d': int)
    requires d < d' <= 247
    ensures d' * d' - d * d <= 493 * (d' - d)
  {
    MulLe(d' + d, 493, d' - d);
    assert (d' + d) * (d' - d) == d' * d' - d * d;
  }

  /** A computed temperature is never mistaken for "not measured yet". */
  lemma AlwaysMeasured(vbat: Sum8, tsens: Sum8, threshold: uint32)
    ensures Tcxo.Measured(Tcxo.Call(TempComputation(vbat, tsens), threshold))
  {
  }
}
