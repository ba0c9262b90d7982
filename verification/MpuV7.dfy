/** Loading the region registers of the Armv7-M memory protection unit (mpu_armv7.h).

    The hardware assumption, from section B3.5.8 of the Armv7-M Architecture Reference
    Manual: a store to RBAR with the VALID bit set first copies its REGION field to RNR, and
    then stores the base address of the region in RNR; a store to RASR goes to the region in
    RNR.  The alias registers of the window are further names of RBAR and RASR. */
module MpuV7 {
  import opened CInt

  /** The region number register and the two registers of every region. */
  datatype Regs = Regs(rnr: nat, addr: seq<uint32>, rasr: seq<uint32>)

  ghost predicate WellFormed(s: Regs) {
    |s.addr| == |s.rasr| && s.rnr < |s.addr|
  }

  /** Bit 4 and bits 3..0 of an RBAR value, and the value with both cleared. */
  predicate IsValid(rbar: uint32) { rbar / 16 % 2 == 1 }

  function Region(rbar: uint32): nat { rbar % 16 }

  function Base(rbar: uint32): uint32 { rbar - rbar % 32 }

  /** The three lie side by side. */
  lemma Fields(rbar: uint32, base: nat, low: nat)
    requires rbar == 32 * base + low && low < 32
    ensures Base(rbar) == 32 * base && Region(rbar) == low % 16 && (IsValid(rbar) <==> low >= 16)
  {
    DivModUnique(rbar, 32, base, low);
    DivModUnique(rbar, 16, 2 * base + low / 16, low % 16);
  }

  /** The region an RBAR store selects when RNR was rnr. */
  function Selected(rnr: nat, rbar: uint32): nat { if IsValid(rbar) then Region(rbar) else rnr }

  function StoreRbar(s: Regs, v: uint32): (r: Regs)
    requires WellFormed(s) && Selected(s.rnr, v) < |s.addr|
    ensures WellFormed(r) && |r.addr| == |s.addr|
  {
    var region := Selected(s.rnr, v);
    Regs(region, s.addr[region := Base(v)], s.rasr)
  }

  function StoreRasr(s: Regs, v: uint32): (r: Regs)
    requires WellFormed(s)
    ensures WellFormed(r) && |r.addr| == |s.addr|
  {
    s.(rasr := s.rasr[s.rnr := v])
  }

  /** A table entry is two words in memory. */
  datatype Entry = Entry(rbar: uint32, rasr: uint32)

  function Word(table: seq<Entry>, k: nat): uint32
    requires k < 2 * |table|
  {
    if k % 2 == 0 then table[k / 2].rbar else table[k / 2].rasr
  }

  /** Every VALID entry of a table names an existing region. */
  ghost predicate RegionsExist(table: seq<Entry>, regions: nat) {
    forall e | e in table && IsValid(e.rbar) :: Region(e.rbar) < regions
  }

  /** Storing the first n words of the table in a row: even words are names of RBAR, odd ones
      of RASR. */
  function StoredWords(s: Regs, table: seq<Entry>, n: nat): (r: Regs)
    requires WellFormed(s) && RegionsExist(table, |s.addr|) && n <= 2 * |table|
    ensures WellFormed(r) && |r.addr| == |s.addr|
  {
    if n == 0 then s
    else
      var before, v := StoredWords(s, table, n - 1), Word(table, n - 1);
      if n % 2 == 1 then
        assert table[(n - 1) / 2] in table;
        StoreRbar(before, v)
      else StoreRasr(before, v)
  }

  /** The effect of `ARM_MPU_SetRegion`. */
  function WithRegion(s: Regs, rbar: uint32, rasr: uint32): (r: Regs)
    requires WellFormed(s) && Selected(s.rnr, rbar) < |s.addr|
    ensures WellFormed(r) && |r.addr| == |s.addr|
  {
    StoreRasr(StoreRbar(s, rbar), rasr)
  }

  /** Calling `ARM_MPU_SetRegion` with the first cnt table entries. */
  function OneByOne(s: Regs, table: seq<Entry>, cnt: nat): (r: Regs)
    requires WellFormed(s) && RegionsExist(table, |s.addr|) && cnt <= |table|
    ensures WellFormed(r) && |r.addr| == |s.addr|
  {
    if cnt == 0 then s
    else
      assert table[cnt - 1] in table;
      WithRegion(OneByOne(s, table, cnt - 1), table[cnt - 1].rbar, table[cnt - 1].rasr)
  }

  class Mpu {
    const RALIASES: nat
    var RNR: nat
    const addr: array<uint32>
    const rasr: array<uint32>

    ghost predicate Valid()
      reads this
    {
      RALIASES >= 1 && addr.Length == rasr.Length && addr != rasr && RNR < addr.Length
    }

    constructor (aliases: nat, regions: nat)
      requires aliases >= 1 && regions >= 1
      ensures Valid() && RALIASES == aliases && addr.Length == regions && fresh(addr) && fresh(rasr)
      ensures State() == Regs(0, addr[..], rasr[..])
    {
      RALIASES, RNR := aliases, 0;
      addr := new uint32[regions](_ => 0);
      rasr := new uint32[regions](_ => 0);
    }

    ghost function State(): (s: Regs)
      requires Valid()
      reads this, addr, rasr
      ensures WellFormed(s) && |s.addr| == addr.Length
    {
      Regs(RNR, addr[..], rasr[..])
    }

    /** A store to the word at offset k from RBAR. */
    method Store(k: nat, v: uint32)
      requires Valid() && k < 2 * RALIASES && (k % 2 == 0 ==> Selected(RNR, v) < addr.Length)
      modifies this`RNR, addr, rasr
      ensures Valid() && State() == if k % 2 == 0 then StoreRbar(old(State()), v) else StoreRasr(old(State()), v)
    {
      if k % 2 == 0 {
        RNR := Selected(RNR, v);
        addr[RNR] := Base(v);
      } else {
        rasr[RNR] := v;
      }
    }

    method SetRegion(rbar: uint32, rasr: uint32)
      requires Valid() && Selected(RNR, rbar) < addr.Length
      modifies this`RNR, addr, this.rasr
      ensures Valid() && State() == WithRegion(old(State()), rbar, rasr)
    {
      Store(0, rbar);
      Store(1, rasr);
    }

    /** `orderedCpy` of len words from entry t on to the start of the window, where the
        entries before it have been stored. */
    method OrderedCpy(table: seq<Entry>, t: nat, len: nat, ghost before: Regs)
      requires Valid() && len <= 2 * RALIASES && 2 * t + len <= 2 * |table|
      requires WellFormed(before) && |before.addr| == addr.Length && RegionsExist(table, addr.Length)
      requires State() == StoredWords(before, table, 2 * t)
      modifies this`RNR, addr, rasr
      ensures Valid() && State() == StoredWords(before, table, 2 * t + len)
    {
      for i := 0 to len
        invariant Valid() && State() == StoredWords(before, table, 2 * t + i)
      {
        NextWord(before, table, t, i);
        Store(i, Word(table, 2 * t + i));
      }
    }

    /** `ARM_MPU_Load`: whole windows first, then the rest. */
    method Load(table: seq<Entry>, cnt: nat)
      requires Valid() && cnt <= |table| && RegionsExist(table, addr.Length)
      modifies this`RNR, addr, rasr
      ensures Valid() && State() == OneByOne(old(State()), table, cnt)
    {
      ghost var before := State();
      var t: nat, left: nat := 0, cnt;
      while left > RALIASES
        invariant t + left == cnt
        invariant Valid() && State() == StoredWords(before, table, 2 * t)
      {
        OrderedCpy(table, t, RALIASES * 2, before);
        t := t + RALIASES;
        left := left - RALIASES;
      }
      OrderedCpy(table, t, left * 2, before);
      OneByOneStores(before, table, cnt);
    }
  }

  /** The next word of the table goes to RBAR or RASR as its place in the window says. */
  lemma NextWord(s: Regs, table: seq<Entry>, t: nat, i: nat)
    requires WellFormed(s) && RegionsExist(table, |s.addr|) && 2 * t + i < 2 * |table|
    ensures var was, v := StoredWords(s, table, 2 * t + i), Word(table, 2 * t + i);
            && (i % 2 == 0 ==> Selected(was.rnr, v) < |s.addr|)
            && StoredWords(s, table, 2 * t + i + 1) == if i % 2 == 0 then StoreRbar(was, v) else StoreRasr(was, v)
  {
    SameParity(t, i);
    assert table[(2 * t + i) / 2] in table;
  }

  lemma SameParity(t: nat, i: nat)
    ensures (2 * t + i) % 2 == i % 2 && (2 * t + i + 1) % 2 == 1 - i % 2
  {
  }

  lemma {:induction false} OneByOneStores(s: Regs, table: seq<Entry>, cnt: nat)
    requires WellFormed(s) && RegionsExist(table, |s.addr|) && cnt <= |table|
    ensures OneByOne(s, table, cnt) == StoredWords(s, table, 2 * cnt)
  {
    if cnt == 0 {
    } else {
      OneByOneStores(s, table, cnt - 1);
      NextEntry(s, table, cnt - 1);
    }
  }

  /** Two words in a row configure one region. */
  lemma NextEntry(s: Regs, table: seq<Entry>, t: nat)
    requires WellFormed(s) && RegionsExist(table, |s.addr|) && t < |table|
    ensures var was, e := StoredWords(s, table, 2 * t), table[t];
            Selected(was.rnr, e.rbar) < |s.addr| && StoredWords(s, table, 2 * t + 2) == WithRegion(was, e.rbar, e.rasr)
  {
    var was, middle, e := StoredWords(s, table, 2 * t), StoredWords(s, table, 2 * t + 1), table[t];
    EntryWords(table, t);
    NextWord(s, table, t, 0);
    assert middle == StoreRbar(was, e.rbar);
    NextWord(s, table, t, 1);
    assert StoredWords(s, table, 2 * t + 2) == StoreRasr(middle, e.rasr);
  }

  lemma EntryWords(table: seq<Entry>, t: nat)
    requires t < |table|
    ensures Word(table, 2 * t) == table[t].rbar && Word(table, 2 * t + 1) == table[t].rasr
  {
  }

  /** The region that entry i - 1 configures, following RNR from the start of the load. */
  function Target(rnr: nat, table: seq<Entry>, i: nat): nat
    requires i <= |table|
  {
    if i == 0 then rnr else Selected(Target(rnr, table, i - 1), table[i - 1].rbar)
  }

  /** The last of the first cnt entries, counted from 1, that configures a region; 0 if none. */
  function LastEntry(rnr: nat, table: seq<Entry>, cnt: nat, region: nat): (last: nat)
    requires cnt <= |table|
    ensures last <= cnt
  {
    if cnt == 0 then 0
    else if Target(rnr, table, cnt) == region then cnt
    else LastEntry(rnr, table, cnt - 1, region)
  }

  /** After a load every region holds the last entry that configures it, and regions that no
      entry configures are unchanged. */
  lemma {:induction false} LastEntryWins(s: Regs, table: seq<Entry>, cnt: nat, region: nat)
    requires WellFormed(s) && RegionsExist(table, |s.addr|) && cnt <= |table| && region < |s.addr|
    ensures var after, last := OneByOne(s, table, cnt), LastEntry(s.rnr, table, cnt, region);
            && after.rnr == Target(s.rnr, table, cnt)
            && after.addr[region] == (if last == 0 then s.addr[region] else Base(table[last - 1].rbar))
            && after.rasr[region] == (if last == 0 then s.rasr[region] else table[last - 1].rasr)
  {
    if cnt == 0 {
    } else {
      LastEntryWins(s, table, cnt - 1, region);
      assert table[cnt - 1] in table;
    }
  }

  /** With the VALID bit in every entry, as `ARM_MPU_RBAR` sets it, an entry configures the
      region in its own REGION field. */
  lemma TargetOfValid(rnr: nat, table: seq<Entry>, i: nat)
    requires 1 <= i <= |table| && IsValid(table[i - 1].rbar)
    ensures Target(rnr, table, i) == Region(table[i - 1].rbar)
  {
  }

  /** An entry without the VALID bit, whatever else it holds, configures the region of its predecessor. */
  lemma TargetOfInvalid(rnr: nat, table: seq<Entry>, i: nat, base: nat, low: nat)
    requires 1 <= i <= |table| && low < 16 && table[i - 1].rbar == 32 * base + low
    ensures Target(rnr, table, i) == Target(rnr, table, i - 1)
  {
    DivModUnique(32 * base + low, 16, 2 * base, low);
  }

  /** The value of the macro `ARM_MPU_RBAR`: base address, VALID bit and region number. */
  function RbarValue(region: uint32, base: uint32): uint32 { base - base % 32 + 16 + region % 16 }

  /** It is VALID, names its region and carries the base address down to 32-byte alignment. */
  lemma RbarValueFields(region: uint32, base: uint32)
    ensures var v := RbarValue(region, base);
            IsValid(v) && Region(v) == region % 16 && Base(v) == base - base % 32
  {
    var q := base / 32;
    var v := RbarValue(region, base);
    assert v == q * 32 + (16 + region % 16) == (2 * q + 1) * 16 + region % 16;
    DivModUnique(v, 16, 2 * q + 1, region % 16);
  }
}
