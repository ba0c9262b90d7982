/** `arm_pid_q31`. */
module PidQ31Control {
  import opened CInt
  import opened PidSpec

  /** The new output from the three products and the last output.  The documentation says
      it is saturated; the code adds with wrap around, both in the 64-bit accumulator and in
      the final 32-bit sum. */
  function Output(p0: int, p1: int, p2: int, y: int): int32 {
    var acc := ToInt64(ToInt64(ToInt64(p0) + p1) + p2);
    ToInt32(ToInt32(acc / 0x8000_0000) + y)
  }

  /** One call. */
  function Step(A0: int32, A1: int32, A2: int32, s: State, x: int32): State {
    State(x, s.x1, Output(A0 * x, A1 * s.x1, A2 * s.x2, s.y))
  }

  class PidQ31 {
    var A0: int32
    var A1: int32
    var A2: int32
    const state: array<int32>

    ghost predicate Valid()
      reads this
    {
      state.Length == 3
    }

    ghost function Value(): State
      reads this, state
      requires Valid()
    {
      State(state[0], state[1], state[2])
    }

    constructor (A0: int32, A1: int32, A2: int32)
      ensures Valid() && fresh(state) && Value() == RESET
      ensures this.A0 == A0 && this.A1 == A1 && this.A2 == A2
    {
      this.A0, this.A1, this.A2 := A0, A1, A2;
      state := new int32[3](_ => 0);
    }

    method Process(x: int32) returns (out: int32)
      requires Valid()
      modifies state
      ensures Value() == Step(A0, A1, A2, old(Value()), x)
      ensures out == Value().y
    {
      var acc: int64 := ToInt64(A0 * x);
      acc := ToInt64(acc + A1 * state[0]);
      acc := ToInt64(acc + A2 * state[1]);
      out := ToInt32(acc / 0x8000_0000);
      out := ToInt32(out + state[2]);
      state[1] := state[0];
      state[0] := x;
      state[2] := out;
    }
  }

  /** The derived gains fit the fields they are stored in. */
  ghost predicate GainsFit(g: Gains) {
    && -0x8000_0000 <= g.A0() < 0x8000_0000
    && -0x8000_0000 <= g.A1() < 0x8000_0000
    && -0x8000_0000 <= g.A2() < 0x8000_0000
  }

  /** The state after the inputs xs, from reset. */
  ghost function Run(g: Gains, xs: seq<int32>): State
    requires GainsFit(g)
  {
    if xs == [] then RESET
    else Step(g.A0(), g.A1(), g.A2(), Run(g, xs[..|xs| - 1]), xs[|xs| - 1])
  }

  /** The sum of the truncated increments in unbounded arithmetic. */
  ghost function Unbounded(g: Gains, xs: seq<int32>): int {
    if xs == [] then 0
    else
      var n := |xs|;
      Unbounded(g, xs[..n - 1])
      + g.Increment(xs[n - 1], At(xs, n - 2), At(xs, n - 3)) / 0x8000_0000
  }

  /** However often the accumulator or the output wraps on the way, the output is the
      unbounded value reduced to 32 bits, and that value trails the positional PID by less
      than one unit per sample. */
  lemma {:induction false} RunIsUnbounded(g: Gains, xs: seq<int32>)
    requires GainsFit(g)
    ensures var n := |xs|;
            && Run(g, xs) == State(At(xs, n - 1), At(xs, n - 2), ToInt32(Unbounded(g, xs)))
            && Tracks(Positional(g, xs), Unbounded(g, xs), n)
  {
    var n := |xs|;
    if n == 0 {
    } else {
      var before := xs[..n - 1];
      RunIsUnbounded(g, before);
      var s, x := Run(g, before), xs[n - 1];
      assert At(before, n - 2) == At(xs, n - 2) && At(before, n - 3) == At(xs, n - 3);
      PositionalStep(g, xs);
      StepWraps(g, s, Unbounded(g, before), x);
    }
  }

  lemma StepWraps(g: Gains, s: State, Y: int, x: int32)
    requires GainsFit(g) && s.y == ToInt32(Y)
    ensures Step(g.A0(), g.A1(), g.A2(), s, x)
            == State(x, s.x1, ToInt32(Y + g.Increment(x, s.x1, s.x2) / 0x8000_0000))
  {
    OutputWrapped(g.A0() * x, g.A1() * s.x1, g.A2() * s.x2, Y);
  }

  lemma OutputWrapped(p0: int, p1: int, p2: int, Y: int)
    ensures Output(p0, p1, p2, ToInt32(Y)) == ToInt32(Y + (p0 + p1 + p2) / 0x8000_0000)
  {
    WrapThrice(p0, p1, p2);
    WrapQuotient(p0 + p1 + p2);
    WrapSum((p0 + p1 + p2) / 0x8000_0000, Y);
  }

  lemma WrapThrice(a: int, b: int, c: int)
    ensures ToInt64(ToInt64(ToInt64(a) + b) + c) == ToInt64(a + b + c)
  {
  }

  lemma WrapQuotient(a: int)
    ensures ToInt32(ToInt64(a) / 0x8000_0000) == ToInt32(a / 0x8000_0000)
  {
    var k := (a + 0x8000_0000_0000_0000) / 0x1_0000_0000_0000_0000;
    ShiftedQuotient(a, k);
    WrapMultiple(a / 0x8000_0000, k);
  }

  lemma WrapMultiple(q: int, k: int)
    ensures ToInt32(q - k * 0x2_0000_0000) == ToInt32(q)
  {
    assert (q - k * 0x2_0000_0000 + 0x8000_0000) == (q + 0x8000_0000) - 2 * k * 0x1_0000_0000;
  }

  lemma ShiftedQuotient(a: int, k: int)
    ensures (a - k * 0x1_0000_0000_0000_0000) / 0x8000_0000 == a / 0x8000_0000 - k * 0x2_0000_0000
  {
  }

  lemma WrapSum(a: int, b: int)
    ensures ToInt32(ToInt32(a) + ToInt32(b)) == ToInt32(a + b)
  {
  }

  /** The output y trails the positional value by less than one unit per sample. */
  ghost predicate Tracks(positional: int, y: int, n: nat) {
    0 <= positional - y * 0x8000_0000 <= n * 0x7FFF_FFFF
  }

  lemma TracksWrapped(positional: int, unbounded: int, n: nat)
    requires Tracks(positional, unbounded, n)
    ensures -0x4000_0000_0000_0000 + n * 0x7FFF_FFFF <= positional < 0x4000_0000_0000_0000
            ==> Tracks(positional, ToInt32(unbounded), n)
    ensures n <= 0x1_0000_0000 ==>
              (Tracks(positional, ToInt32(unbounded), n) <==> -0x8000_0000 <= unbounded < 0x8000_0000)
  {
  }

  /** A run tracks the positional PID, within one unit per sample and from below, whenever
      its final value is representable with that margin: neither the intermediate samples
      nor the accumulator matter. */
  lemma RunTracksPositional(g: Gains, xs: seq<int32>)
    requires GainsFit(g)
    ensures -0x4000_0000_0000_0000 + |xs| * 0x7FFF_FFFF <= Positional(g, xs) < 0x4000_0000_0000_0000
            ==> Tracks(Positional(g, xs), Run(g, xs).y, |xs|)
  {
    RunIsUnbounded(g, xs);
    TracksWrapped(Positional(g, xs), Unbounded(g, xs), |xs|);
  }

  /** Exactly when the unbounded value is representable does a run of at most 2^32
      samples track. */
  lemma RunTracksExactly(g: Gains, xs: seq<int32>)
    requires GainsFit(g) && |xs| <= 0x1_0000_0000
    ensures Tracks(Positional(g, xs), Run(g, xs).y, |xs|) <==> -0x8000_0000 <= Unbounded(g, xs) < 0x8000_0000
  {
    RunIsUnbounded(g, xs);
    TracksWrapped(Positional(g, xs), Unbounded(g, xs), |xs|);
  }

  /** The output as documented: the accumulator may wrap, but the final sum is saturated. */
  function Documented(p0: int, p1: int, p2: int, y: int32): int32 {
    Clamp(ToInt64(p0 + p1 + p2) / 0x8000_0000 + y, -0x8000_0000, 0x7FFF_FFFF)
  }

  /** One call gives the documented output exactly when the final sum fits 32 bits, or both of its
      terms are at their minima, where wrapping and saturating agree. */
  lemma OutputAsDocumented(p0: int, p1: int, p2: int, y: int32)
    ensures var q := ToInt64(p0 + p1 + p2) / 0x8000_0000;
            Output(p0, p1, p2, y) == Documented(p0, p1, p2, y)
            <==> -0x8000_0000 <= q + y < 0x8000_0000 || (q == -0x1_0000_0000 && y == -0x8000_0000)
  {
    WrapThrice(p0, p1, p2);
    WrapOrSaturate(ToInt64(p0 + p1 + p2) / 0x8000_0000, y);
  }

  lemma WrapOrSaturate(q: int, y: int32)
    requires -0x1_0000_0000 <= q < 0x1_0000_0000
    ensures ToInt32(ToInt32(q) + y) == Clamp(q + y, -0x8000_0000, 0x7FFF_FFFF)
            <==> -0x8000_0000 <= q + y < 0x8000_0000 || (q == -0x1_0000_0000 && y == -0x8000_0000)
  {
  }

  /** The documented saturation does not take place: the product of two full-scale negative
      numbers is 1.0, and the output is -1.0 instead of the largest Q31 value. */
  lemma OutputWraps(minusOne: int32)
    requires minusOne == -0x8000_0000
    ensures minusOne * minusOne / 0x8000_0000 == 0x8000_0000
    ensures Step(minusOne, 0, 0, RESET, minusOne).y == minusOne
  {
    FullScaleSquare(minusOne);
    OutputWrapped(minusOne * minusOne, 0, 0, 0);
  }

  lemma FullScaleSquare(minusOne: int)
    requires minusOne == -0x8000_0000
    ensures minusOne * minusOne / 0x8000_0000 == 0x8000_0000
    ensures ToInt32(minusOne * minusOne / 0x8000_0000) == -0x8000_0000
  {
    assert minusOne * minusOne == 0x4000_0000_0000_0000;
  }
}
