/** What the PID controllers of arm_math.h are documented to compute: the velocity form
    y[n] = y[n-1] + A0 x[n] + A1 x[n-1] + A2 x[n-2], whose gains are derived from Kp, Ki
    and Kd so that its running sum is the positional PID value. */
module PidSpec {
  import opened CInt

  datatype Gains = Gains(Kp: int, Ki: int, Kd: int) {
    function A0(): int { Kp + Ki + Kd }

    function A1(): int { -Kp - 2 * Kd }

    function A2(): int { Kd }

    /** The exact amount one sample adds, before any rounding. */
    function Increment(x: int, x1: int, x2: int): int { A0() * x + A1() * x1 + A2() * x2 }
  }

  /** The three-element state array: the last two inputs and the last output. */
  datatype State = State(x1: int, x2: int, y: int)

  /** What the reset function leaves. */
  const RESET := State(0, 0, 0)

  /** The k-th input; the inputs before the first are zero. */
  function At(xs: seq<int>, k: int): int { if 0 <= k < |xs| then xs[k] else 0 }

  function Sum(xs: seq<int>): int { if xs == [] then 0 else Sum(xs[..|xs| - 1]) + xs[|xs| - 1] }

  /** The positional PID value after the inputs xs, at full precision. */
  function Positional(g: Gains, xs: seq<int>): int {
    var n := |xs|;
    g.Kp * At(xs, n - 1) + g.Ki * Sum(xs) + g.Kd * (At(xs, n - 1) - At(xs, n - 2))
  }

  /** The velocity increments add up to the positional value. */
  lemma PositionalStep(g: Gains, xs: seq<int>)
    requires xs != []
    ensures var n := |xs|; var before := xs[..n - 1];
            Positional(g, xs) == Positional(g, before) + g.Increment(xs[n - 1], At(before, n - 2), At(before, n - 3))
  {
    var n := |xs|;
    var before := xs[..n - 1];
    var x, x1, x2 := xs[n - 1], At(before, n - 2), At(before, n - 3);
    assert At(xs, n - 2) == x1;
    Expand(g, x, x1, x2, Sum(before));
  }

  lemma Expand(g: Gains, x: int, x1: int, x2: int, sum: int)
    ensures g.Kp * x + g.Ki * (sum + x) + g.Kd * (x - x1)
            == g.Kp * x1 + g.Ki * sum + g.Kd * (x1 - x2) + g.Increment(x, x1, x2)
  {
    MulAdd(g.Ki, sum, x);
    MulSub(g.Kd, x, x1);
    MulSub(g.Kd, x1, x2);
    assert g.A0() * x == g.Kp * x + g.Ki * x + g.Kd * x;
    assert g.A1() * x1 == -(g.Kp * x1) - 2 * (g.Kd * x1);
  }
}
