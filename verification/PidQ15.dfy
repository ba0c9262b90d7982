/** `arm_pid_q15`: the scalar branch and the branch for cores with the DSP extension. */
module PidQ15Control {
  import opened CInt
  import opened Saturation
  import opened PidSpec

  ghost predicate Fits16(s: State) {
    -0x8000 <= s.x1 < 0x8000 && -0x8000 <= s.x2 < 0x8000 && -0x8000 <= s.y < 0x8000
  }

  /** The output for a full accumulator. */
  function Output(acc: int): (y: int16)
    requires -0x8000_0000 <= acc / 0x8000 < 0x8000_0000
    ensures y == Clamp(acc / 0x8000, -0x8000, 0x7FFF)
  {
    assert Pow2(15) == 0x8000 by { Pow2Values(); }
    SSat(acc / 0x8000, 16)
  }

  lemma ProductFits(a: int16, b: int16)
    ensures -0x4000_0000 <= a * b <= 0x4000_0000
  {
    var c := Abs(a);
    assert c <= 0x8000;
    MulLe(-0x8000, b, c);
    MulLe(b, 0x8000, c);
    assert c * b == a * b || c * b == -(a * b);
  }

  class PidQ15 {
    var A0: int16
    var A1: int16
    var A2: int16
    const state: array<int16>

    ghost predicate Valid()
      reads this
    {
      state.Length == 3
    }

    ghost function Value(): (s: State)
      requires Valid()
      reads this, state
      ensures Fits16(s)
    {
      State(state[0], state[1], state[2])
    }

    constructor (A0: int16, A1: int16, A2: int16)
      ensures Valid() && fresh(state) && Value() == RESET
      ensures this.A0 == A0 && this.A1 == A1 && this.A2 == A2
    {
      this.A0, this.A1, this.A2 := A0, A1, A2;
      state := new int16[3](_ => 0);
    }

    method Process(x: int16) returns (out: int16)
      requires Valid()
      modifies state
      ensures Value() == Step(A0, A1, A2, old(Value()), x)
      ensures out == Value().y
    {
      ProductFits(A0, x);
      ProductFits(A1, state[0]);
      ProductFits(A2, state[1]);
      var acc: int64 := A0 * x;
      acc := acc + A1 * state[0];
      acc := acc + A2 * state[1];
      acc := acc + (state[2] as int) * 0x8000;
      out := Output(acc);
      state[1] := state[0];
      state[0] := x;
      state[2] := out;
    }
  }

  /** The scalar accumulator before the shift; no 64-bit overflow is possible. */
  function Accumulator(A0: int16, A1: int16, A2: int16, s: State, x: int16): int {
    A0 * x + A1 * s.x1 + A2 * s.x2 + s.y * 0x8000
  }

  lemma AccumulatorFits(A0: int16, A1: int16, A2: int16, s: State, x: int16)
    requires Fits16(s)
    ensures -0x1_0000_0000 <= Accumulator(A0, A1, A2, s, x) <= 0x1_0000_0000
  {
    ProductFits(A0, x);
    ProductFits(A1, s.x1);
    ProductFits(A2, s.x2);
  }

  /** One call of the scalar branch. */
  function Step(A0: int16, A1: int16, A2: int16, s: State, x: int16): (s': State)
    requires Fits16(s)
    ensures Fits16(s')
  {
    AccumulatorFits(A0, A1, A2, s, x);
    State(x, s.x1, Output(Accumulator(A0, A1, A2, s, x)))
  }

  // ---- The DSP branch ----

  /** The two signed halves of a word. */
  function Low(w: uint32): int16 { ToInt16(w) }

  function High(w: uint32): int16 { ToInt32(w) / 0x1_0000 }

  function Pack(lo: int16, hi: int16): uint32 { ToUint16(lo) + 0x1_0000 * ToUint16(hi) }

  function SMUAD(x: uint32, y: uint32): uint32 { ToUint32(Low(x) * Low(y) + High(x) * High(y)) }

  function SMLALD(x: uint32, y: uint32, sum: int64): int64 {
    ToInt64(Low(x) * Low(y) + High(x) * High(y) + sum)
  }

  lemma PackHalves(lo: int16, hi: int16)
    ensures Low(Pack(lo, hi)) == lo && High(Pack(lo, hi)) == hi
  {
    PackLow(ToUint16(lo), ToUint16(hi));
    RoundTrip16(lo);
    PackHigh(ToUint16(lo), ToUint16(hi), hi);
  }

  lemma RoundTrip16(x: int16)
    ensures ToInt16(ToUint16(x)) == x
  {
  }

  lemma PackHigh(lo: uint16, hi: uint16, signed: int16)
    requires hi == ToUint16(signed)
    ensures ToInt32(lo + 0x1_0000 * hi) / 0x1_0000 == signed
  {
    var w := lo + 0x1_0000 * signed;
    assert hi == signed || hi == signed + 0x1_0000;
    assert ToInt32(lo + 0x1_0000 * hi) == w;
  }

  lemma PackLow(lo: uint16, hi: uint16)
    ensures ToInt16(lo + 0x1_0000 * hi) == ToInt16(lo)
  {
  }

  /** Casting a 16-bit number to a word fills the upper half with its sign. */
  lemma SignHalves(x: int16)
    ensures Low(ToUint32(x)) == x && High(ToUint32(x)) == if x < 0 then -1 else 0
  {
    RoundTrip32(x);
    LowOfWord(x);
  }

  lemma LowOfWord(x: int16)
    ensures ToInt16(ToUint32(x)) == x
  {
  }

  /** The DSP accumulator; A1 and A2 are the halves of one field, and the two older inputs
      are read as one word. */
  function DspAccumulator(A0: int16, A1A2: int32, s: State, x: int16): int
    requires Fits16(s)
  {
    var acc := ToInt32(SMUAD(ToUint32(A0), ToUint32(x)));
    SMLALD(ToUint32(A1A2), Pack(s.x1, s.x2), acc) + s.y * 0x8000
  }

  /** 1 when the sign halves of the gain and the input multiply to 1. */
  function SignCarry(A0: int16, x: int16): nat { if A0 < 0 && x < 0 then 1 else 0 }

  /** The DSP branch is not the scalar branch: the sign extensions of A0 and the input are
      multiplied too. */
  lemma DspAccumulatorIs(A0: int16, A1: int16, A2: int16, s: State, x: int16)
    requires Fits16(s)
    ensures DspAccumulator(A0, ToInt32(Pack(A1, A2)), s, x)
            == Accumulator(A0, A1, A2, s, x) + SignCarry(A0, x)
  {
    SmuadIs(A0, x);
    SmlaldIs(A1, A2, s, A0 * x + SignCarry(A0, x));
  }

  lemma SmuadIs(A0: int16, x: int16)
    ensures -0x4000_0000 <= A0 * x <= 0x4000_0000
    ensures ToInt32(SMUAD(ToUint32(A0), ToUint32(x))) == A0 * x + SignCarry(A0, x)
  {
    SignHalves(A0);
    SignHalves(x);
    SignProduct(High(ToUint32(A0)), High(ToUint32(x)));
    ProductFits(A0, x);
    RoundTrip32(A0 * x + SignCarry(A0, x));
  }

  lemma SmlaldIs(A1: int16, A2: int16, s: State, acc: int)
    requires Fits16(s) && -0x8000_0000 <= acc < 0x8000_0000
    ensures SMLALD(ToUint32(ToInt32(Pack(A1, A2))), Pack(s.x1, s.x2), acc) == A1 * s.x1 + A2 * s.x2 + acc
  {
    WordRoundTrip(Pack(A1, A2));
    PackHalves(A1, A2);
    PackHalves(s.x1, s.x2);
    SmlaldOfHalves(Pack(A1, A2), Pack(s.x1, s.x2), acc, A1, A2, s.x1, s.x2);
  }

  lemma SmlaldOfHalves(x: uint32, y: uint32, acc: int32, a: int16, b: int16, c: int16, d: int16)
    requires Low(x) == a && High(x) == b && Low(y) == c && High(y) == d
    ensures SMLALD(x, y, acc) == a * c + b * d + acc
  {
    ProductFits(a, c);
    ProductFits(b, d);
    RoundTrip64(a * c + b * d + acc);
  }

  lemma RoundTrip32(p: int32)
    ensures ToInt32(ToUint32(p)) == p
  {
  }

  lemma RoundTrip64(p: int64)
    ensures ToInt64(p) == p
  {
  }

  lemma WordRoundTrip(w: uint32)
    ensures ToUint32(ToInt32(w)) == w
  {
  }

  lemma SignProduct(a: int, b: int)
    requires -1 <= a <= 0 && -1 <= b <= 0
    ensures a * b == if a < 0 && b < 0 then 1 else 0
  {
  }

  class PidQ15Dsp {
    var A0: int16
    var A1: int32
    const state: array<int16>

    ghost predicate Valid()
      reads this
    {
      state.Length == 3
    }

    ghost function Value(): (s: State)
      requires Valid()
      reads this, state
      ensures Fits16(s)
    {
      State(state[0], state[1], state[2])
    }

    constructor (A0: int16, A1: int16, A2: int16)
      ensures Valid() && fresh(state) && Value() == RESET
      ensures this.A0 == A0 && this.A1 == ToInt32(Pack(A1, A2))
    {
      this.A0, this.A1 := A0, ToInt32(Pack(A1, A2));
      state := new int16[3](_ => 0);
    }

    method Process(x: int16, ghost A1lo: int16, ghost A2hi: int16) returns (out: int16)
      requires Valid() && A1 == ToInt32(Pack(A1lo, A2hi))
      modifies state
      ensures Value() == DspStep(A0, A1lo, A2hi, old(Value()), x)
      ensures out == Value().y
    {
      ghost var s := Value();
      SmuadIs(A0, x);
      SmlaldIs(A1lo, A2hi, s, A0 * x + SignCarry(A0, x));
      AccumulatorFits(A0, A1lo, A2hi, s, x);
      var acc: int64 := ToInt32(SMUAD(ToUint32(A0), ToUint32(x)));
      var vstate: uint32 := Pack(state[0], state[1]);
      acc := SMLALD(ToUint32(A1), vstate, acc);
      acc := acc + (state[2] as int) * 0x8000;
      out := Output(acc);
      state[1] := state[0];
      state[0] := x;
      state[2] := out;
    }
  }

  /** One call of the DSP branch. */
  function DspStep(A0: int16, A1: int16, A2: int16, s: State, x: int16): (s': State)
    requires Fits16(s)
    ensures Fits16(s')
  {
    AccumulatorFits(A0, A1, A2, s, x);
    State(x, s.x1, Output(Accumulator(A0, A1, A2, s, x) + SignCarry(A0, x)))
  }

  /** From the same state the two builds give the same output or the DSP build gives one
      more, and the latter exactly when the gain and the input are negative, the discarded
      bits of the scalar accumulator are all ones and the scalar output is not clipped. */
  lemma BranchesDiffer(A0: int16, A1: int16, A2: int16, s: State, x: int16)
    requires Fits16(s)
    ensures var y, y' := Step(A0, A1, A2, s, x).y, DspStep(A0, A1, A2, s, x).y;
            var acc := Accumulator(A0, A1, A2, s, x);
            && y <= y' <= y + 1
            && (y' == y + 1 <==> A0 < 0 && x < 0 && acc % 0x8000 == 0x7FFF
                                 && -0x8000 <= acc / 0x8000 < 0x7FFF)
  {
    AccumulatorFits(A0, A1, A2, s, x);
    NextQuotient(Accumulator(A0, A1, A2, s, x));
  }

  /** They do differ, for instance by 1 after an input of 1 with A0 = -1 and A1 = 0x7FFE. */
  lemma BranchesCanDiffer(s: State)
    requires s == State(1, 0, 0)
    ensures Step(-1, 0x7FFE, 0, s, -1).y == 0 && DspStep(-1, 0x7FFE, 0, s, -1).y == 1
  {
    assert Accumulator(-1, 0x7FFE, 0, s, -1) == 0x7FFF;
  }

  lemma NextQuotient(a: int)
    ensures (a + 1) / 0x8000 == if a % 0x8000 == 0x7FFF then a / 0x8000 + 1 else a / 0x8000
  {
  }

  // ---- Whole runs ----

  ghost predicate GainsFit(g: Gains) {
    -0x8000 <= g.A0() < 0x8000 && -0x8000 <= g.A1() < 0x8000 && -0x8000 <= g.A2() < 0x8000
  }

  /** The state after the inputs xs from reset, in either build. */
  ghost function Run(g: Gains, dsp: bool, xs: seq<int16>): (s: State)
    requires GainsFit(g)
    ensures Fits16(s)
  {
    if xs == [] then RESET
    else
      var s, x := Run(g, dsp, xs[..|xs| - 1]), xs[|xs| - 1];
      if dsp then DspStep(g.A0(), g.A1(), g.A2(), s, x) else Step(g.A0(), g.A1(), g.A2(), s, x)
  }

  /** What a call keeps of the accumulator before it is clipped. */
  ghost function Unclipped(g: Gains, dsp: bool, s: State, x: int16): int
    requires GainsFit(g)
  {
    (Accumulator(g.A0(), g.A1(), g.A2(), s, x) + if dsp then SignCarry(g.A0(), x) else 0) / 0x8000
  }

  /** What saturation has cut off in the course of a run. */
  ghost function Clipped(g: Gains, dsp: bool, xs: seq<int16>): int
    requires GainsFit(g)
  {
    if xs == [] then 0
    else
      var before, x := xs[..|xs| - 1], xs[|xs| - 1];
      Clipped(g, dsp, before) + Unclipped(g, dsp, Run(g, dsp, before), x) - Run(g, dsp, xs).y
  }

  /** Truncation takes less than one unit per sample away; the DSP build adds at most one
      unit of 2^-30 per sample. */
  ghost predicate Accounts(positional: int, total: int, n: int, dsp: bool) {
    (if dsp then -n else 0) <= positional - total * 0x8000 <= n * 0x7FFF
  }

  /** Conservation: the positional value is the output, plus everything that saturation cut
      off, plus truncation. */
  lemma {:induction false} RunConserves(g: Gains, dsp: bool, xs: seq<int16>)
    requires GainsFit(g)
    ensures var n, s := |xs|, Run(g, dsp, xs);
            && s.x1 == At(xs, n - 1) && s.x2 == At(xs, n - 2)
            && Accounts(Positional(g, xs), s.y + Clipped(g, dsp, xs), n, dsp)
  {
    var n := |xs|;
    if n == 0 {
    } else {
      var before := xs[..n - 1];
      RunConserves(g, dsp, before);
      var s, x := Run(g, dsp, before), xs[n - 1];
      assert At(before, n - 2) == At(xs, n - 2);
      PositionalStep(g, xs);
      AccountStep(Positional(g, before), s.y, Clipped(g, dsp, before), n - 1, dsp,
                  g.Increment(x, s.x1, s.x2), if dsp then SignCarry(g.A0(), x) else 0);
    }
  }

  lemma AccountStep(positional: int, y: int, clipped: int, n: int, dsp: bool, inc: int, carry: nat)
    requires Accounts(positional, y + clipped, n, dsp) && carry <= if dsp then 1 else 0
    ensures Accounts(positional + inc, clipped + (inc + y * 0x8000 + carry) / 0x8000, n + 1, dsp)
  {
    var u := (inc + y * 0x8000 + carry) / 0x8000;
    assert 0 <= inc + y * 0x8000 + carry - u * 0x8000 < 0x8000;
  }

  /** The positional value stays where the output can follow it. */
  ghost predicate Representable(positional: int, n: int, dsp: bool) {
    -0x4000_0000 + n * 0x7FFF <= positional < 0x4000_0000 - if dsp then n else 0
  }

  /** While the positional value stays representable nothing is ever clipped, and the output
      tracks it. */
  lemma {:induction false} RunTracksPositional(g: Gains, dsp: bool, xs: seq<int16>)
    requires GainsFit(g)
    requires forall k | 0 <= k <= |xs| :: Representable(Positional(g, xs[..k]), k, dsp)
    ensures Clipped(g, dsp, xs) == 0
    ensures Accounts(Positional(g, xs), Run(g, dsp, xs).y, |xs|, dsp)
  {
    var n := |xs|;
    RunConserves(g, dsp, xs);
    if n == 0 {
    } else {
      var before := xs[..n - 1];
      forall k | 0 <= k <= n - 1 ensures before[..k] == xs[..k] {}
      RunTracksPositional(g, dsp, before);
      assert xs[..n] == xs;
      var y, u := Run(g, dsp, xs).y, Unclipped(g, dsp, Run(g, dsp, before), xs[n - 1]);
      assert y == Clamp(u, -0x8000, 0x7FFF);
      InRangeUnclipped(Positional(g, xs), u, n, dsp);
    }
  }

  lemma InRangeUnclipped(positional: int, u: int, n: int, dsp: bool)
    requires Accounts(positional, u, n, dsp) && Representable(positional, n, dsp)
    ensures -0x8000 <= u <= 0x7FFF
  {
  }
}
