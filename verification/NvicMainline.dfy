/** `__NVIC_SetPriority` and `__NVIC_GetPriority` of core_armv8mml.h: one byte register per
    interrupt and system handler. */
module NvicMainline {
  import opened NvicPriority
  import NvicBaseline

  /** The low four bits of the exception number, less 4. */
  function ShpIdx(irq: int): int { irq % 16 - 4 }

  predicate HasPriority(irq: int) { -12 <= irq < 496 }

  datatype Regs = Regs(ipr: seq<bv8>, shpr: seq<bv8>)

  ghost predicate WellFormed(r: Regs) { |r.ipr| == 496 && |r.shpr| == 12 }

  /** The field cast to a byte, and a byte widened to a word. */
  function Byte(prio: bv32, p: PrioBits): bv8 {
    var field := Field(prio, p);
    field as bv8
  }

  function Widen(b: bv8): bv32 { b as bv32 }

  lemma ByteRoundTrip(prio: bv32, p: PrioBits)
    ensures Unfield(Widen(Byte(prio, p)), p) == Implemented(prio, p)
  {
    FieldRoundTrip(prio, p);
    assert Widen(Byte(prio, p)) == Field(prio, p);
  }

  function Set(r: Regs, irq: int, field: bv8): (r': Regs)
    requires WellFormed(r) && HasPriority(irq)
    ensures WellFormed(r')
  {
    if irq >= 0 then r.(ipr := r.ipr[irq := field]) else r.(shpr := r.shpr[ShpIdx(irq) := field])
  }

  function Get(r: Regs, p: PrioBits, irq: int): bv32
    requires WellFormed(r) && HasPriority(irq)
  {
    if irq >= 0 then Unfield(Widen(r.ipr[irq]), p) else Unfield(Widen(r.shpr[ShpIdx(irq)]), p)
  }

  lemma GetAfterSet(r: Regs, p: PrioBits, irq: int, prio: bv32, j: int)
    requires WellFormed(r) && HasPriority(irq) && HasPriority(j)
    ensures Get(Set(r, irq, Byte(prio, p)), p, j) == if j == irq then Implemented(prio, p) else Get(r, p, j)
  {
    ByteRoundTrip(prio, p);
  }

  ghost function View(r: Regs, p: PrioBits): (m: map<int, bv32>)
    requires WellFormed(r)
    ensures forall irq :: irq in m <==> HasPriority(irq)
  {
    map irq | -12 <= irq < 496 :: Get(r, p, irq)
  }

  lemma SetRefines(r: Regs, p: PrioBits, irq: int, prio: bv32)
    requires WellFormed(r) && HasPriority(irq)
    ensures View(Set(r, irq, Byte(prio, p)), p) == View(r, p)[irq := Implemented(prio, p)]
  {
    forall j | HasPriority(j)
      ensures Get(Set(r, irq, Byte(prio, p)), p, j) == if j == irq then Implemented(prio, p) else Get(r, p, j)
    {
      GetAfterSet(r, p, irq, prio, j);
    }
  }

  ghost function Run(r: Regs, p: PrioBits, cmds: seq<Command>): (r': Regs)
    requires WellFormed(r) && forall c | c in cmds :: HasPriority(c.irq)
    ensures WellFormed(r')
  {
    if cmds == [] then r
    else
      var n := |cmds| - 1;
      Set(Run(r, p, cmds[..n]), cmds[n].irq, Byte(cmds[n].prio, p))
  }

  lemma {:induction false} RunRefines(r: Regs, p: PrioBits, cmds: seq<Command>)
    requires WellFormed(r) && forall c | c in cmds :: HasPriority(c.irq)
    ensures View(Run(r, p, cmds), p) == Apply(View(r, p), p, cmds)
  {
    if cmds == [] {
    } else {
      var n := |cmds| - 1;
      RunRefines(r, p, cmds[..n]);
      SetRefines(Run(r, p, cmds[..n]), p, cmds[n].irq, cmds[n].prio);
    }
  }

  /** The two layouts cannot be told apart: after any run of the same calls an interrupt that
      started with the same priority in both has the same priority in both. */
  lemma LayoutsAgree(words: NvicBaseline.Regs, bytes: Regs, p: PrioBits, cmds: seq<Command>, irq: int)
    requires NvicBaseline.WellFormed(words) && WellFormed(bytes)
    requires (forall c | c in cmds :: NvicBaseline.HasPriority(c.irq)) && NvicBaseline.HasPriority(irq)
    requires NvicBaseline.Get(words, p, irq) == Get(bytes, p, irq)
    ensures forall c | c in cmds :: HasPriority(c.irq)
    ensures NvicBaseline.Get(NvicBaseline.Run(words, p, cmds), p, irq) == Get(Run(bytes, p, cmds), p, irq)
  {
    NvicBaseline.RunRefines(words, p, cmds);
    RunRefines(bytes, p, cmds);
    LastCommandWins(NvicBaseline.View(words, p), p, cmds, irq);
    LastCommandWins(View(bytes, p), p, cmds, irq);
  }

  /** The words of the one layout hold the bytes of the other, in memory order: interrupt irq has byte
      irq % 4 of word irq / 4, and handler irq, which is negative, byte irq % 4 of word (irq + 8) / 4
      and byte register irq + 12. */
  ghost predicate SameByte(words: NvicBaseline.Regs, bytes: Regs, irq: int)
    requires NvicBaseline.WellFormed(words) && WellFormed(bytes) && -8 <= irq < 496
  {
    if irq >= 0 then NvicBaseline.ByteOf(words.ipr[irq / 4], irq % 4) == Widen(bytes.ipr[irq])
    else NvicBaseline.ByteOf(words.shpr[(irq + 8) / 4], irq % 4) == Widen(bytes.shpr[irq + 12])
  }

  ghost predicate SameMemory(words: NvicBaseline.Regs, bytes: Regs)
    requires NvicBaseline.WellFormed(words) && WellFormed(bytes)
  {
    forall irq | -8 <= irq < 496 :: SameByte(words, bytes, irq)
  }

  lemma WidenByte(prio: bv32, p: PrioBits)
    ensures Widen(Byte(prio, p)) == Field(prio, p)
  {
  }

  /** A set puts the left-aligned priority into the interrupt's own byte, in both layouts, and leaves
      the bytes of every other interrupt and handler alone. */
  lemma SetByte(words: NvicBaseline.Regs, bytes: Regs, p: PrioBits, irq: int, prio: bv32, j: int)
    requires NvicBaseline.WellFormed(words) && WellFormed(bytes) && -8 <= irq < 496 && -8 <= j < 496
    requires SameByte(words, bytes, j)
    ensures SameByte(NvicBaseline.Set(words, p, irq, prio), Set(bytes, irq, Byte(prio, p)), j)
    ensures j == irq >= 0 ==>
              NvicBaseline.ByteOf(NvicBaseline.Set(words, p, irq, prio).ipr[irq / 4], irq % 4) == Field(prio, p)
    ensures j == irq < 0 ==>
              NvicBaseline.ByteOf(NvicBaseline.Set(words, p, irq, prio).shpr[(irq + 8) / 4], irq % 4) == Field(prio, p)
  {
    WidenByte(prio, p);
    NvicBaseline.FieldIsByte(prio, p);
    NvicBaseline.SameField(irq, j);
    HandlerIndex(irq);
    HandlerIndex(j);
    if irq >= 0 && j >= 0 && irq / 4 == j / 4 {
      ByteAfterInsert(words.ipr[irq / 4], irq, j, Field(prio, p));
    } else if irq < 0 && j < 0 && (irq + 8) / 4 == (j + 8) / 4 {
      ByteAfterInsert(words.shpr[(irq + 8) / 4], irq, j, Field(prio, p));
    }
  }

  lemma HandlerIndex(irq: int)
    ensures -8 <= irq < 0 ==> NvicBaseline.ShpIdx(irq) == (irq + 8) / 4
    ensures -12 <= irq < 0 ==> ShpIdx(irq) == irq + 12
  {
  }

  lemma ByteAfterInsert(w: bv32, irq: int, j: int, field: bv32)
    requires field <= 0xFF
    ensures NvicBaseline.ByteOf(NvicBaseline.Insert(w, NvicBaseline.BitShift(irq), field), j % 4)
            == if NvicBaseline.BitShift(irq) == NvicBaseline.BitShift(j) then field else NvicBaseline.ByteOf(w, j % 4)
  {
    NvicBaseline.InsertExtract(w, NvicBaseline.BitShift(irq), NvicBaseline.BitShift(j), field);
    NvicBaseline.ExtractIsByte(w, j);
    NvicBaseline.ExtractIsByte(NvicBaseline.Insert(w, NvicBaseline.BitShift(irq), field), j);
  }

  /** After any run of the same calls the two register files are the same memory. */
  lemma {:induction false} RunsWriteSameMemory(words: NvicBaseline.Regs, bytes: Regs, p: PrioBits, cmds: seq<Command>)
    requires NvicBaseline.WellFormed(words) && WellFormed(bytes) && SameMemory(words, bytes)
    requires forall c | c in cmds :: NvicBaseline.HasPriority(c.irq)
    ensures forall c | c in cmds :: HasPriority(c.irq)
    ensures SameMemory(NvicBaseline.Run(words, p, cmds), Run(bytes, p, cmds))
  {
    if cmds == [] {
    } else {
      var n := |cmds| - 1;
      RunsWriteSameMemory(words, bytes, p, cmds[..n]);
      var words', bytes' := NvicBaseline.Run(words, p, cmds[..n]), Run(bytes, p, cmds[..n]);
      forall j | -8 <= j < 496
        ensures SameByte(NvicBaseline.Run(words, p, cmds), Run(bytes, p, cmds), j)
      {
        SetByte(words', bytes', p, cmds[n].irq, cmds[n].prio, j);
      }
    }
  }

  class Nvic {
    const p: PrioBits
    const ipr: array<bv8>
    const shpr: array<bv8>

    ghost predicate Valid() {
      ipr.Length == 496 && shpr.Length == 12 && ipr != shpr
    }

    ghost function State(): (r: Regs)
      requires Valid()
      reads ipr, shpr
      ensures WellFormed(r)
    {
      Regs(ipr[..], shpr[..])
    }

    constructor (p: PrioBits)
      ensures Valid() && fresh(ipr) && fresh(shpr) && this.p == p
    {
      this.p := p;
      ipr := new bv8[496](_ => 0);
      shpr := new bv8[12](_ => 0);
    }

    method SetPriority(irq: int, priority: bv32)
      requires Valid() && HasPriority(irq)
      modifies ipr, shpr
      ensures State() == Set(old(State()), irq, Byte(priority, p))
    {
      if irq >= 0 {
        ipr[irq] := Byte(priority, p);
      } else {
        shpr[ShpIdx(irq)] := Byte(priority, p);
      }
    }

    method GetPriority(irq: int) returns (priority: bv32)
      requires Valid() && HasPriority(irq)
      ensures priority == Get(State(), p, irq)
    {
      if irq >= 0 {
        priority := Unfield(Widen(ipr[irq]), p);
      } else {
        priority := Unfield(Widen(shpr[ShpIdx(irq)]), p);
      }
    }
  }
}
