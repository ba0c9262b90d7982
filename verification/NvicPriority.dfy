/** Interrupt priorities: the abstract map that both register layouts implement.

    A priority is a 32-bit word of which the core implements the low bits only; interrupt
    numbers are integers, negative for processor exceptions. */
module NvicPriority {

  /** The number of implemented priority bits, `__NVIC_PRIO_BITS`. */
  type PrioBits = p: bv6 | 1 <= p <= 8 witness 1

  /** The priority as far as p bits implement it: prio mod 2^p. */
  function Implemented(prio: bv32, p: PrioBits): bv32 { prio & ((1 << p) - 1) }

  /** The priority field as stored: left-aligned in a byte, the rest of the word cut off. */
  function Field(prio: bv32, p: PrioBits): bv32 { (prio << (8 - p)) & 0xFF }

  /** The priority read back from a stored byte. */
  function Unfield(field: bv32, p: PrioBits): bv32 { field >> (8 - p) }

  lemma FieldRoundTrip(prio: bv32, p: PrioBits)
    ensures Unfield(Field(prio, p), p) == Implemented(prio, p)
  {
  }

  /** The implemented priority is the remainder modulo 2^p ... */
  lemma ImplementedIsRemainder(prio: bv32, p: PrioBits)
    ensures p == 1 ==> Implemented(prio, p) == prio % 2
    ensures p == 2 ==> Implemented(prio, p) == prio % 4
    ensures p == 3 ==> Implemented(prio, p) == prio % 8
    ensures p == 4 ==> Implemented(prio, p) == prio % 16
    ensures p == 5 ==> Implemented(prio, p) == prio % 32
    ensures p == 6 ==> Implemented(prio, p) == prio % 64
    ensures p == 7 ==> Implemented(prio, p) == prio % 128
    ensures p == 8 ==> Implemented(prio, p) == prio % 256
  {
  }

  /** ... and stands left-aligned in the byte. */
  lemma FieldLeftAligned(prio: bv32, p: PrioBits)
    ensures Field(prio, p) == Implemented(prio, p) << (8 - p) && Field(prio, p) <= 0xFF
  {
  }

  datatype Command = SetPriority(irq: int, prio: bv32)

  /** What a run of calls does to the map from interrupt to priority. */
  ghost function Apply(m: map<int, bv32>, p: PrioBits, cmds: seq<Command>): (r: map<int, bv32>)
    requires forall c | c in cmds :: c.irq in m
    ensures r.Keys == m.Keys
  {
    if cmds == [] then m
    else
      var n := |cmds| - 1;
      Apply(m, p, cmds[..n])[cmds[n].irq := Implemented(cmds[n].prio, p)]
  }

  /** The last command for an interrupt decides; without one the priority is the initial one. */
  ghost function LastOr(prio: bv32, p: PrioBits, cmds: seq<Command>, irq: int): bv32 {
    if cmds == [] then prio
    else
      var last := cmds[|cmds| - 1];
      if last.irq == irq then Implemented(last.prio, p) else LastOr(prio, p, cmds[..|cmds| - 1], irq)
  }

  lemma {:induction false} LastCommandWins(m: map<int, bv32>, p: PrioBits, cmds: seq<Command>, irq: int)
    requires (forall c | c in cmds :: c.irq in m) && irq in m
    ensures Apply(m, p, cmds)[irq] == LastOr(m[irq], p, cmds, irq)
  {
    if cmds == [] {
    } else {
      LastCommandWins(m, p, cmds[..|cmds| - 1], irq);
    }
  }
}
