/** `__NVIC_SetPriority` and `__NVIC_GetPriority` of core_armv8mbl.h: four priorities share a
    word, which is read, modified and written back. */
module NvicBaseline {
  import opened NvicPriority

  /** `_BIT_SHIFT`: 8 times the low two bits of the interrupt number. */
  function BitShift(irq: int): (s: bv6)
    ensures s == 0 || s == 8 || s == 16 || s == 24
  {
    var lane := irq % 4;
    if lane == 0 then 0 else if lane == 1 then 8 else if lane == 2 then 16 else 24
  }

  /** `_IP_IDX` and `_SHP_IDX`. */
  function IpIdx(irq: int): int { irq / 4 }

  function ShpIdx(irq: int): int { (irq % 16 - 8) / 4 }

  /** The interrupts and system handlers that have a priority field. */
  predicate HasPriority(irq: int) { -8 <= irq < 496 }

  datatype Regs = Regs(ipr: seq<bv32>, shpr: seq<bv32>)

  ghost predicate WellFormed(r: Regs) { |r.ipr| == 124 && |r.shpr| == 2 }

  function Insert(w: bv32, s: bv6, field: bv32): bv32
    requires s <= 24
  { (w & !(0xFF << s)) | (field << s) }

  function Extract(w: bv32, s: bv6): bv32
    requires s <= 24
  { (w >> s) & 0xFF }

  lemma InsertExtract(w: bv32, s: bv6, t: bv6, field: bv32)
    requires s == 0 || s == 8 || s == 16 || s == 24
    requires t == 0 || t == 8 || t == 16 || t == 24
    requires field <= 0xFF
    ensures Extract(Insert(w, s, field), t) == if s == t then field else Extract(w, t)
  {
    if s == 0 {
      InsertExtractAt0(w, t, field);
    } else if s == 8 {
      InsertExtractAt8(w, t, field);
    } else if s == 16 {
      InsertExtractAt16(w, t, field);
    } else {
      InsertExtractAt24(w, t, field);
    }
  }

  lemma InsertExtractAt0(w: bv32, t: bv6, field: bv32)
    requires (t == 0 || t == 8 || t == 16 || t == 24) && field <= 0xFF
    ensures Extract(Insert(w, 0, field), t) == if t == 0 then field else Extract(w, t)
  {
  }

  lemma InsertExtractAt8(w: bv32, t: bv6, field: bv32)
    requires (t == 0 || t == 8 || t == 16 || t == 24) && field <= 0xFF
    ensures Extract(Insert(w, 8, field), t) == if t == 8 then field else Extract(w, t)
  {
  }

  lemma InsertExtractAt16(w: bv32, t: bv6, field: bv32)
    requires (t == 0 || t == 8 || t == 16 || t == 24) && field <= 0xFF
    ensures Extract(Insert(w, 16, field), t) == if t == 16 then field else Extract(w, t)
  {
  }

  lemma InsertExtractAt24(w: bv32, t: bv6, field: bv32)
    requires (t == 0 || t == 8 || t == 16 || t == 24) && field <= 0xFF
    ensures Extract(Insert(w, 24, field), t) == if t == 24 then field else Extract(w, t)
  {
  }

  /** The bytes of a word in little-endian order. */
  function ByteOf(w: bv32, lane: int): bv32
    requires 0 <= lane < 4
  {
    if lane == 0 then w & 0xFF
    else if lane == 1 then (w >> 8) & 0xFF
    else if lane == 2 then (w >> 16) & 0xFF
    else w >> 24
  }

  /** The field of an interrupt is the byte that its low two bits count. */
  lemma ExtractIsByte(w: bv32, irq: int)
    ensures Extract(w, BitShift(irq)) == ByteOf(w, irq % 4)
  {
  }

  function Set(r: Regs, p: PrioBits, irq: int, prio: bv32): (r': Regs)
    requires WellFormed(r) && HasPriority(irq)
    ensures WellFormed(r')
  {
    if irq >= 0 then
      var w := r.ipr[IpIdx(irq)];
      r.(ipr := r.ipr[IpIdx(irq) := Insert(w, BitShift(irq), Field(prio, p))])
    else
      var w := r.shpr[ShpIdx(irq)];
      r.(shpr := r.shpr[ShpIdx(irq) := Insert(w, BitShift(irq), Field(prio, p))])
  }

  function Get(r: Regs, p: PrioBits, irq: int): bv32
    requires WellFormed(r) && HasPriority(irq)
  {
    if irq >= 0 then Unfield(Extract(r.ipr[IpIdx(irq)], BitShift(irq)), p)
    else Unfield(Extract(r.shpr[ShpIdx(irq)], BitShift(irq)), p)
  }

  /** Setting a priority is seen by that interrupt alone: not by its three neighbours in the
      word, and not by any other interrupt or system handler. */
  lemma GetAfterSet(r: Regs, p: PrioBits, irq: int, prio: bv32, j: int)
    requires WellFormed(r) && HasPriority(irq) && HasPriority(j)
    ensures Get(Set(r, p, irq, prio), p, j) == if j == irq then Implemented(prio, p) else Get(r, p, j)
  {
    SameField(irq, j);
    if irq >= 0 && j >= 0 && IpIdx(irq) == IpIdx(j) {
      WordUpdate(r.ipr[IpIdx(irq)], p, BitShift(irq), BitShift(j), prio);
    } else if irq < 0 && j < 0 && ShpIdx(irq) == ShpIdx(j) {
      WordUpdate(r.shpr[ShpIdx(irq)], p, BitShift(irq), BitShift(j), prio);
    }
  }

  /** Word and shift together identify the interrupt. */
  lemma SameField(irq: int, j: int)
    ensures irq >= 0 && j >= 0 && IpIdx(irq) == IpIdx(j) && BitShift(irq) == BitShift(j) ==> irq == j
    ensures -8 <= irq < 0 && -8 <= j < 0 && ShpIdx(irq) == ShpIdx(j) && BitShift(irq) == BitShift(j) ==> irq == j
  {
    assert BitShift(irq) == BitShift(j) <==> irq % 4 == j % 4;
  }

  lemma WordUpdate(w: bv32, p: PrioBits, s: bv6, t: bv6, prio: bv32)
    requires (s == 0 || s == 8 || s == 16 || s == 24) && (t == 0 || t == 8 || t == 16 || t == 24)
    ensures Unfield(Extract(Insert(w, s, Field(prio, p)), t), p)
            == if s == t then Implemented(prio, p) else Unfield(Extract(w, t), p)
  {
    FieldRoundTrip(prio, p);
    FieldIsByte(prio, p);
    InsertExtract(w, s, t, Field(prio, p));
  }

  lemma FieldIsByte(prio: bv32, p: PrioBits)
    ensures Field(prio, p) <= 0xFF
  {
  }

  /** The map that a register state stands for. */
  ghost function View(r: Regs, p: PrioBits): (m: map<int, bv32>)
    requires WellFormed(r)
    ensures forall irq :: irq in m <==> HasPriority(irq)
  {
    map irq | -8 <= irq < 496 :: Get(r, p, irq)
  }

  lemma SetRefines(r: Regs, p: PrioBits, irq: int, prio: bv32)
    requires WellFormed(r) && HasPriority(irq)
    ensures View(Set(r, p, irq, prio), p) == View(r, p)[irq := Implemented(prio, p)]
  {
    forall j | HasPriority(j)
      ensures Get(Set(r, p, irq, prio), p, j) == if j == irq then Implemented(prio, p) else Get(r, p, j)
    {
      GetAfterSet(r, p, irq, prio, j);
    }
  }

  ghost function Run(r: Regs, p: PrioBits, cmds: seq<Command>): (r': Regs)
    requires WellFormed(r) && forall c | c in cmds :: HasPriority(c.irq)
    ensures WellFormed(r')
  {
    if cmds == [] then r
    else
      var n := |cmds| - 1;
      Set(Run(r, p, cmds[..n]), p, cmds[n].irq, cmds[n].prio)
  }

  /** Every run of calls acts on the registers as it acts on the map. */
  lemma {:induction false} RunRefines(r: Regs, p: PrioBits, cmds: seq<Command>)
    requires WellFormed(r) && forall c | c in cmds :: HasPriority(c.irq)
    ensures View(Run(r, p, cmds), p) == Apply(View(r, p), p, cmds)
  {
    if cmds == [] {
    } else {
      var n := |cmds| - 1;
      RunRefines(r, p, cmds[..n]);
      SetRefines(Run(r, p, cmds[..n]), p, cmds[n].irq, cmds[n].prio);
    }
  }

  class Nvic {
    const p: PrioBits
    const ipr: array<bv32>
    const shpr: array<bv32>

    ghost predicate Valid() {
      ipr.Length == 124 && shpr.Length == 2 && ipr != shpr
    }

    ghost function State(): (r: Regs)
      requires Valid()
      reads ipr, shpr
      ensures WellFormed(r)
    {
      Regs(ipr[..], shpr[..])
    }

    constructor (p: PrioBits)
      ensures Valid() && fresh(ipr) && fresh(shpr) && this.p == p
    {
      this.p := p;
      ipr := new bv32[124](_ => 0);
      shpr := new bv32[2](_ => 0);
    }

    method SetPriority(irq: int, priority: bv32)
      requires Valid() && HasPriority(irq)
      modifies ipr, shpr
      ensures State() == Set(old(State()), p, irq, priority)
    {
      if irq >= 0 {
        ipr[IpIdx(irq)] := Insert(ipr[IpIdx(irq)], BitShift(irq), Field(priority, p));
      } else {
        shpr[ShpIdx(irq)] := Insert(shpr[ShpIdx(irq)], BitShift(irq), Field(priority, p));
      }
    }

    method GetPriority(irq: int) returns (priority: bv32)
      requires Valid() && HasPriority(irq)
      ensures priority == Get(State(), p, irq)
    {
      if irq >= 0 {
        priority := Unfield(Extract(ipr[IpIdx(irq)], BitShift(irq)), p);
      } else {
        priority := Unfield(Extract(shpr[ShpIdx(irq)], BitShift(irq)), p);
      }
    }
  }
}
