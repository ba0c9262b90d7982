/** `BOARD_tcxo32M_compensation_run` (board_utility.c): the 32 MHz crystal is trimmed again
    once the temperature has moved by a threshold since the last trim. */
module Tcxo {
  import opened CInt
  import opened CapacitanceTable

  const TEMP_ZERO_K: int := -273

  /** What stays fixed in a part: its table and the flash word of its factory temperature. */
  datatype Part = Part(table: seq<int32>, ateWord: uint32)

  /** One call: the last known temperature in 128ths of a degree, and the threshold. */
  datatype Call = Call(raw: int32, threshold: uint32)

  /** The static variable and the trims applied so far. */
  datatype State = State(prev: int32, trims: seq<int32>)

  const RESET: State := State(TEMP_ZERO_K, [])

  /** Every temperature a 32-bit number of 128ths expresses. */
  predicate Reachable(celsius: int) { -REACH <= celsius <= REACH }

  function Celsius(raw: int32): (t: int32)
    ensures Reachable(t)
  {
    DivTrunc(raw, 128)
  }

  /** Absolute zero stands for "never measured". */
  predicate Measured(call: Call) { Celsius(call.raw) != TEMP_ZERO_K }

  /** The trim for a temperature. */
  function Trim(part: Part, celsius: int32): int32
    requires Tame(part.table) && Reachable(celsius)
  {
    TameCompensationFits(part.table, part.ateWord, celsius);
    Compensation(part.table, part.ateWord, celsius)
  }

  class Tcxo32M {
    var prev: int32
    var trims: seq<int32>
    const part: Part

    ghost predicate Valid()
      reads this
    {
      Tame(part.table) && Reachable(prev)
    }

    function Value(): State
      reads this
    {
      State(prev, trims)
    }

    constructor (part: Part)
      requires Tame(part.table)
      ensures Valid() && this.part == part && Value() == RESET
    {
      prev, trims := TEMP_ZERO_K, [];
      this.part := part;
    }

    /** One run of the compensation. */
    method CompensationRun(raw: int32, threshold: uint32)
      requires Valid()
      modifies this
      ensures Valid()
      ensures Value() == Step(part, old(Value()), Call(raw, threshold))
    {
      var latest: int32 := DivTrunc(raw, 128);
      var delta: int32 := 0;
      if latest == TEMP_ZERO_K {
        latest := 25;
      } else {
        delta := latest - prev;
        delta := if delta < 0 then -delta else delta;
      }
      UnsignedIs(delta);
      if ToUint32(delta) >= threshold {
        prev := latest;
        trims := trims + [Trim(part, latest)];
      }
    }
  }

  /** The comparison with the threshold is unsigned. */
  lemma UnsignedIs(delta: int32)
    requires delta >= 0
    ensures ToUint32(delta) == delta
  {
  }

  /** The temperature a call acts on, if it acts on any: an unmeasured one stands for 25 degrees
      but counts only under a threshold of zero. */
  function Seen(call: Call): (t: int32)
    ensures Reachable(t)
  {
    if Measured(call) then Celsius(call.raw) else 25
  }

  predicate Trims(s: State, call: Call) {
    if Measured(call) then Abs(Celsius(call.raw) - s.prev) >= call.threshold else call.threshold == 0
  }

  /** The effect of one call. */
  function Step(part: Part, s: State, call: Call): (r: State)
    requires Tame(part.table)
    ensures Reachable(s.prev) ==> Reachable(r.prev)
  {
    if Trims(s, call) then
      State(Seen(call), s.trims + [Trim(part, Seen(call))])
    else s
  }

  /** A run from a state, the latest call last. */
  function RunFrom(part: Part, s: State, calls: seq<Call>): (r: State)
    requires Tame(part.table)
    ensures Reachable(s.prev) ==> Reachable(r.prev)
  {
    if calls == [] then s else Step(part, RunFrom(part, s, Before(calls)), Latest(calls))
  }

  /** A whole run. */
  function Run(part: Part, calls: seq<Call>): (r: State)
    requires Tame(part.table)
    ensures Reachable(r.prev)
  {
    RunFrom(part, RESET, calls)
  }

  function Before(calls: seq<Call>): seq<Call>
    requires calls != []
  {
    calls[..|calls| - 1]
  }

  function Latest(calls: seq<Call>): Call
    requires calls != []
  {
    calls[|calls| - 1]
  }

  // ---- What holds after every call ----

  /** After a call with a measured temperature the trim is for a temperature closer than the
      threshold, unless the threshold is zero. */
  lemma CloseAfterCall(part: Part, calls: seq<Call>)
    requires Tame(part.table) && calls != [] && Measured(Latest(calls))
    ensures Abs(Celsius(Latest(calls).raw) - Run(part, calls).prev) < Latest(calls).threshold
            <==> Latest(calls).threshold >= 1
  {
  }

  /** The same in the unit of the sensor, 128ths of a degree, against the last temperature read. */
  lemma CloseInRaw(part: Part, calls: seq<Call>)
    requires Tame(part.table) && calls != [] && Measured(Latest(calls))
    ensures var raw, t := Latest(calls).raw, Latest(calls).threshold;
            t >= 1 ==> Abs(raw - 128 * Run(part, calls).prev) < 128 * t
  {
    CloseAfterCall(part, calls);
  }

  /** Exactly the readings that truncate to absolute zero count as not measured. */
  lemma MeasuredExactly(call: Call)
    ensures Measured(call) <==> call.raw <= 128 * -274 || call.raw > 128 * -273
  {
  }

  /** Without a measurement a threshold of zero trims for 25 degrees, as the call at power-on does, and
      any other threshold does nothing. */
  lemma UnmeasuredCall(part: Part, s: State, call: Call)
    requires Tame(part.table) && 128 * -274 < call.raw <= 128 * -273
    ensures Step(part, s, call) == if call.threshold == 0 then State(25, s.trims + [Trim(part, 25)]) else s
  {
  }

  /** The last trim applied is the one for the remembered temperature; before the first trim that
      is absolute zero. */
  lemma {:induction false} LastTrimIsForPrev(part: Part, calls: seq<Call>)
    requires Tame(part.table)
    ensures var s := Run(part, calls);
            if s.trims == [] then s.prev == TEMP_ZERO_K
            else s.trims[|s.trims| - 1] == Trim(part, s.prev)
  {
    if calls == [] {
    } else {
      LastTrimIsForPrev(part, Before(calls));
    }
  }

  /** Together with the smoothness of the table: after a call with a measured temperature and a
      threshold t, the trim in force is within 130 * (t - 1) of the trim for the temperature
      itself. */
  lemma TrimError(part: Part, calls: seq<Call>)
    requires Tame(part.table) && calls != [] && Measured(Latest(calls)) && Latest(calls).threshold >= 1
    requires Run(part, calls).trims != []
    ensures var s, t := Run(part, calls), Latest(calls).threshold;
            Abs(s.trims[|s.trims| - 1] - Trim(part, Celsius(Latest(calls).raw)))
            <= 130 * (t - 1)
  {
    CloseAfterCall(part, calls);
    LastTrimIsForPrev(part, calls);
    var u, v := Run(part, calls).prev, Celsius(Latest(calls).raw);
    CompensationLipschitz(part.table, part.ateWord, u, v);
  }

  // ---- How often it trims ----

  /** The sum of the thresholds under which the calls trimmed. */
  function Paid(part: Part, calls: seq<Call>): nat
    requires Tame(part.table)
  {
    if calls == [] then 0
    else
      Paid(part, Before(calls))
      + if Trims(Run(part, Before(calls)), Latest(calls)) then Latest(calls).threshold else 0
  }

  predicate Counts(call: Call) { Measured(call) || call.threshold == 0 }

  /** The temperature of the latest call that counts, absolute zero before the first. */
  function LastSeen(calls: seq<Call>): int {
    if calls == [] then TEMP_ZERO_K
    else if Counts(Latest(calls)) then Seen(Latest(calls))
    else LastSeen(Before(calls))
  }

  /** How far the temperature has moved in all, up and down, from absolute zero. */
  function Travelled(calls: seq<Call>): nat {
    if calls == [] then 0
    else
      Travelled(Before(calls))
      + if Counts(Latest(calls)) then Abs(Seen(Latest(calls)) - LastSeen(Before(calls))) else 0
  }

  /** Every trim is paid for by movement: the thresholds of all calls that trimmed, and the
      distance still saved up, never exceed the distance travelled. */
  lemma {:induction false} TrimsArePaidFor(part: Part, calls: seq<Call>)
    requires Tame(part.table)
    ensures Paid(part, calls) + Abs(LastSeen(calls) - Run(part, calls).prev) <= Travelled(calls)
  {
    if calls == [] {
    } else {
      TrimsArePaidFor(part, Before(calls));
    }
  }

  ghost predicate AllAtLeast(calls: seq<Call>, t: nat) {
    forall i | 0 <= i < |calls| :: calls[i].threshold >= t
  }

  lemma {:induction false} PaidAtLeast(part: Part, calls: seq<Call>, t: nat)
    requires Tame(part.table) && AllAtLeast(calls, t)
    ensures |Run(part, calls).trims| * t <= Paid(part, calls)
  {
    if calls == [] {
    } else {
      PaidAtLeast(part, Before(calls), t);
      PaidStep(|Run(part, Before(calls)).trims|, t, Paid(part, Before(calls)), Latest(calls).threshold);
    }
  }

  lemma PaidStep(n: int, t: int, paid: int, threshold: int)
    requires n * t <= paid && t <= threshold
    ensures (n + 1) * t <= paid + threshold
  {
  }

  /** Under thresholds of at least t: the number of trims times t is at most the distance
      travelled. */
  lemma NumberOfTrims(part: Part, calls: seq<Call>, t: nat)
    requires Tame(part.table) && AllAtLeast(calls, t)
    ensures |Run(part, calls).trims| * t <= Travelled(calls)
  {
    PaidAtLeast(part, calls, t);
    TrimsArePaidFor(part, calls);
  }

  /** For measured temperatures only, the distance travelled is the sum of the neighbouring
      differences, after the way up from absolute zero. */
  function Differences(calls: seq<Call>): nat {
    if |calls| <= 1 then 0
    else
      Differences(Before(calls))
      + Abs(Celsius(Latest(calls).raw) - Celsius(Latest(Before(calls)).raw))
  }

  ghost predicate AllMeasured(calls: seq<Call>) {
    forall i | 0 <= i < |calls| :: Measured(calls[i])
  }

  lemma {:induction false} TravelledIs(calls: seq<Call>)
    requires calls != [] && AllMeasured(calls)
    ensures Travelled(calls) == Abs(Celsius(calls[0].raw) - TEMP_ZERO_K) + Differences(calls)
    ensures LastSeen(calls) == Celsius(Latest(calls).raw)
  {
    if |calls| == 1 {
    } else {
      TravelledIs(Before(calls));
      assert Before(calls)[0] == calls[0];
    }
  }

  ghost predicate WithinBand(calls: seq<Call>, lo: int, hi: int) {
    forall i | 0 <= i < |calls| :: Counts(calls[i]) ==> lo <= Seen(calls[i]) <= hi
  }

  /** Hysteresis: however often the temperature moves inside a band narrower than every
      threshold, there is at most the one trim that enters the band. */
  lemma {:induction false} OneTrimPerBand(part: Part, calls: seq<Call>, lo: int, hi: int, t: nat)
    requires Tame(part.table) && AllAtLeast(calls, t) && lo <= hi < lo + t && WithinBand(calls, lo, hi)
    ensures |Run(part, calls).trims| <= 1
    ensures |Run(part, calls).trims| == 1 ==> lo <= Run(part, calls).prev <= hi
  {
    if calls == [] {
    } else {
      OneTrimPerBand(part, Before(calls), lo, hi, t);
      if |Run(part, calls).trims| > |Run(part, Before(calls)).trims| {
        assert Counts(Latest(calls));
      }
    }
  }

  // ---- The same in the unit of the sensor ----

  /** The latest reading of a measured temperature, r0 before the first. */
  function LastRaw(r0: int, calls: seq<Call>): int {
    if calls == [] then r0
    else if Measured(Latest(calls)) then Latest(calls).raw
    else LastRaw(r0, Before(calls))
  }

  /** How far the readings have moved in all from r0 on. */
  function RawTravelled(r0: int, calls: seq<Call>): nat {
    if calls == [] then 0
    else
      RawTravelled(r0, Before(calls))
      + if Measured(Latest(calls)) then Abs(Latest(calls).raw - LastRaw(r0, Before(calls))) else 0
  }

  /** The reading at the latest call that trimmed, r0 if none has. */
  function TrimmedAt(part: Part, s: State, r0: int, calls: seq<Call>): int
    requires Tame(part.table)
  {
    if calls == [] then r0
    else if Trims(RunFrom(part, s, Before(calls)), Latest(calls)) then Latest(calls).raw
    else TrimmedAt(part, s, r0, Before(calls))
  }

  /** Readings whose whole degrees are t apart are themselves more than t - 1 degrees apart. */
  lemma RawApart(x: int, y: int, t: int)
    requires t >= 1 && Abs(DivTrunc(x, 128) - DivTrunc(y, 128)) >= t
    ensures Abs(x - y) >= 128 * t - 127
  {
  }

  /** n trims at a price each and the distance saved up since the last of them. */
  ghost predicate RawPaid(n: int, price: int, saved: int, travelled: int) { n * price + saved <= travelled }

  /** From a state whose remembered temperature is that of the reading r0, under thresholds of at least
      t: every trim is paid for by a movement of the readings by more than t - 1 degrees. */
  lemma {:induction false} RawTrimsArePaidFor(part: Part, s: State, r0: int, calls: seq<Call>, t: nat, price: int)
    requires Tame(part.table) && t >= 1 && AllAtLeast(calls, t) && s.prev == DivTrunc(r0, 128)
    requires price == 128 * t - 127
    ensures var r, at := RunFrom(part, s, calls), TrimmedAt(part, s, r0, calls);
            && r.prev == DivTrunc(at, 128)
            && RawPaid(|r.trims| - |s.trims|, price, Abs(LastRaw(r0, calls) - at), RawTravelled(r0, calls))
  {
    if calls == [] {
    } else {
      RawTrimsArePaidFor(part, s, r0, Before(calls), t, price);
      var before, call := RunFrom(part, s, Before(calls)), Latest(calls);
      var last, at := LastRaw(r0, Before(calls)), TrimmedAt(part, s, r0, Before(calls));
      assert call.threshold >= t;
      assert RunFrom(part, s, calls) == Step(part, before, call);
      assert LastRaw(r0, calls) == if Measured(call) then call.raw else last;
      assert TrimmedAt(part, s, r0, calls) == if Trims(before, call) then call.raw else at;
      RawStep(part, before, call, t, price, |before.trims| - |s.trims|, last, at, RawTravelled(r0, Before(calls)));
    }
  }

  lemma RawStep(part: Part, s: State, call: Call, t: int, price: int, n: int, last: int, at: int, travelled: int)
    requires Tame(part.table) && 1 <= t <= call.threshold && price == 128 * t - 127
    requires s.prev == DivTrunc(at, 128) && RawPaid(n, price, Abs(last - at), travelled)
    ensures var r, now := Step(part, s, call), if Measured(call) then call.raw else last;
            var at' := if Trims(s, call) then call.raw else at;
            && r.prev == DivTrunc(at', 128)
            && RawPaid(n + |r.trims| - |s.trims|, price, Abs(now - at'), travelled + Abs(now - last))
  {
    if Trims(s, call) {
      RawApart(call.raw, at, call.threshold);
      PayForTrim(n, price, last, at, call.raw, travelled);
    } else if Measured(call) {
      SaveUp(n, price, last, at, call.raw, travelled);
    }
  }

  lemma PayForTrim(n: int, price: int, last: int, at: int, raw: int, travelled: int)
    requires RawPaid(n, price, Abs(last - at), travelled) && price <= Abs(raw - at)
    ensures RawPaid(n + 1, price, Abs(raw - raw), travelled + Abs(raw - last))
  {
  }

  lemma SaveUp(n: int, price: int, last: int, at: int, raw: int, travelled: int)
    requires RawPaid(n, price, Abs(last - at), travelled)
    ensures RawPaid(n, price, Abs(raw - at), travelled + Abs(raw - last))
  {
  }

  lemma NumberOfTrimsRaw(part: Part, calls: seq<Call>, t: nat)
    requires Tame(part.table) && t >= 1 && AllAtLeast(calls, t)
    ensures |Run(part, calls).trims| * (128 * t - 127) <= RawTravelled(128 * TEMP_ZERO_K, calls)
  {
    RawTrimsArePaidFor(part, RESET, 128 * TEMP_ZERO_K, calls, t, 128 * t - 127);
  }

  lemma {:induction false} RunSplits(part: Part, s: State, first: Call, calls: seq<Call>)
    requires Tame(part.table)
    ensures RunFrom(part, s, [first] + calls) == RunFrom(part, Step(part, s, first), calls)
    decreases |calls|
  {
    if calls == [] {
      assert [first] + calls == [first];
      assert Before([first]) == [];
    } else {
      RunSplits(part, s, first, Before(calls));
      assert Before([first] + calls) == [first] + Before(calls);
    }
  }

  /** As the firmware uses it: the call at power-on, before any measurement and with threshold zero,
      trims for 25 degrees, and the trims after it are paid for by movement away from there. */
  lemma PowerOnAndRun(part: Part, powerOn: Call, calls: seq<Call>, t: nat)
    requires Tame(part.table) && powerOn == Call(128 * TEMP_ZERO_K, 0) && t >= 1 && AllAtLeast(calls, t)
    ensures var trims := Run(part, [powerOn] + calls).trims;
            (|trims| - 1) * (128 * t - 127) <= RawTravelled(128 * 25, calls)
  {
    RunSplits(part, RESET, powerOn, calls);
    UnmeasuredCall(part, RESET, powerOn);
    RawTrimsArePaidFor(part, Step(part, RESET, powerOn), 128 * 25, calls, t, 128 * t - 127);
  }
}
