/** Loading the region registers of the Armv8-M memory protection unit (mpu_armv8.h).

    The region registers are a flat array: words 2i and 2i + 1 are RBAR and RLAR of region i.
    They are reached through a window of register pairs.  The hardware assumption, from
    section D1.2 of the Armv8-M Architecture Reference Manual: pair 0 (RBAR, RLAR) addresses
    the region in RNR, and pair n > 0 (RBAR_A<n>, RLAR_A<n>) the region RNR with its low two
    bits replaced by n. */
module MpuV8 {
  import opened CInt

  /** The region that pair n of the window addresses. */
  function Addressed(rnr: nat, n: nat): nat { if n == 0 then rnr else rnr - rnr % 4 + n }

  /** Whatever the region number's own low two bits, n > 0 takes their place. */
  lemma AddressedIs(q: nat, low: nat, n: nat)
    requires low < 4 && 1 <= n < 4
    ensures Addressed(4 * q + low, n) == 4 * q + n && Addressed(4 * q + low, 0) == 4 * q + low
  {
  }

  /** From an aligned region number the window is contiguous, and its first pair always is. */
  lemma WindowContiguous(rnr: nat, k: nat)
    requires k < 8 && (rnr % 4 == 0 || k < 2)
    ensures 2 * Addressed(rnr, k / 2) + k % 2 == 2 * rnr + k
  {
  }

  /** The first region of the window that holds a region: `rnr & ~(aliases - 1)`. */
  function WindowBase(rnr: nat, aliases: nat): (r: nat)
    requires aliases >= 1
    ensures r <= rnr < r + aliases
  {
    if rnr < aliases then 0 else aliases + WindowBase(rnr - aliases, aliases)
  }

  lemma {:induction false} WindowBaseIsRemainder(rnr: nat, aliases: nat)
    requires aliases >= 1
    ensures rnr - WindowBase(rnr, aliases) == rnr % aliases
  {
    if rnr < aliases {
      DivModUnique(rnr, aliases, 0, rnr);
    } else {
      WindowBaseIsRemainder(rnr - aliases, aliases);
      var q := (rnr - aliases) / aliases;
      DivModUnique(rnr, aliases, q + 1, rnr - WindowBase(rnr, aliases));
    }
  }

  /** The position of a region in the window. */
  function Position(rnr: nat, aliases: nat): (k: nat)
    requires aliases >= 1
    ensures k < aliases && WindowBase(rnr, aliases) + k == rnr
  {
    WindowBaseIsRemainder(rnr, aliases);
    rnr % aliases
  }

  /** Every region of an aligned window has the window's base, which is its own base. */
  lemma {:induction false} SameWindow(rnr: nat, aliases: nat, r: nat)
    requires aliases >= 1
    requires WindowBase(rnr, aliases) <= r < WindowBase(rnr, aliases) + aliases
    ensures WindowBase(r, aliases) == WindowBase(rnr, aliases)
  {
    if rnr < aliases {
    } else {
      SameWindow(rnr - aliases, aliases, r - aliases);
    }
  }

  /** The registers after words have been stored one after the other from position at on. */
  function Stored(regs: seq<uint32>, at: nat, words: seq<uint32>): (r: seq<uint32>)
    requires at + |words| <= |regs|
    ensures |r| == |regs|
  {
    if words == [] then regs
    else
      var n := |words| - 1;
      Stored(regs, at, words[..n])[at + n := words[n]]
  }

  lemma {:induction false} StoredAt(regs: seq<uint32>, at: nat, words: seq<uint32>, i: nat)
    requires at + |words| <= |regs| && i < |regs|
    ensures Stored(regs, at, words)[i] == if at <= i < at + |words| then words[i - at] else regs[i]
    decreases |words|
  {
    if words == [] {
    } else {
      StoredAt(regs, at, words[..|words| - 1], i);
    }
  }

  lemma StoredNext(regs: seq<uint32>, at: nat, words: seq<uint32>, i: nat)
    requires i < |words| && at + |words| <= |regs|
    ensures Stored(regs, at, words[..i + 1]) == Stored(regs, at, words[..i])[at + i := words[i]]
  {
    assert words[..i + 1][..i] == words[..i];
  }

  lemma {:induction false} StoredTwice(regs: seq<uint32>, at: nat, first: seq<uint32>, second: seq<uint32>)
    requires at + |first| + |second| <= |regs|
    ensures Stored(Stored(regs, at, first), at + |first|, second) == Stored(regs, at, first + second)
    decreases |second|
  {
    if second == [] {
      assert first + second == first;
    } else {
      var n := |second| - 1;
      StoredTwice(regs, at, first, second[..n]);
      assert (first + second)[..|first| + n] == first + second[..n];
    }
  }

  /** The effect of `ARM_MPU_SetRegionEx` on the registers. */
  function WithRegion(regs: seq<uint32>, rnr: nat, rbar: uint32, rlar: uint32): (r: seq<uint32>)
    requires 2 * rnr + 1 < |regs|
    ensures |r| == |regs|
  {
    regs[2 * rnr := rbar][2 * rnr + 1 := rlar]
  }

  /** Calling `ARM_MPU_SetRegionEx` for rnr, rnr + 1, ... with the first cnt table entries. */
  function OneByOne(regs: seq<uint32>, rnr: nat, table: seq<uint32>, cnt: nat): (r: seq<uint32>)
    requires 2 * cnt <= |table| && 2 * (rnr + cnt) <= |regs|
    ensures |r| == |regs|
  {
    if cnt == 0 then regs
    else
      WithRegion(OneByOne(regs, rnr, table, cnt - 1), rnr + cnt - 1, table[2 * cnt - 2], table[2 * cnt - 1])
  }

  class Mpu {
    const RALIASES: nat  // the width of the window: 4 on Mainline, 1 on Baseline cores
    var RNR: uint32
    const regs: array<uint32>

    ghost predicate Valid()
    {
      (RALIASES == 1 || RALIASES == 4) && regs.Length <= 0x200
    }

    constructor (aliases: nat, regions: nat)
      requires (aliases == 1 || aliases == 4) && regions <= 0x100
      ensures Valid() && RALIASES == aliases && regs.Length == 2 * regions && fresh(regs)
    {
      RALIASES := aliases;
      RNR := 0;
      regs := new uint32[2 * regions](_ => 0);
    }

    /** A store to the word at offset k from RBAR. */
    method Store(k: nat, v: uint32)
      requires Valid() && k < 2 * RALIASES && 2 * Addressed(RNR, k / 2) + k % 2 < regs.Length
      modifies regs
      ensures regs[..] == old(regs[..])[2 * Addressed(RNR, k / 2) + k % 2 := v]
    {
      regs[2 * Addressed(RNR, k / 2) + k % 2] := v;
    }

    method SetRegionEx(rnr: uint32, rbar: uint32, rlar: uint32)
      requires Valid() && 2 * rnr + 1 < regs.Length
      modifies this`RNR, regs
      ensures regs[..] == WithRegion(old(regs[..]), rnr, rbar, rlar) && RNR == rnr
    {
      RNR := rnr;
      Store(0, rbar);
      Store(1, rlar);
    }

    /** `orderedCpy` into the window.  From an aligned RNR the window is a contiguous stretch
        of the registers, and its first pair always is. */
    method OrderedCpy(k: nat, src: seq<uint32>, s: nat, len: nat)
      requires Valid() && s + len <= |src| && k + len <= 2 * RALIASES
      requires RNR % 4 == 0 || k + len <= 2
      requires 2 * RNR + k + len <= regs.Length
      modifies regs
      ensures regs[..] == Stored(old(regs[..]), 2 * RNR + k, src[s..s + len])
    {
      ghost var before, words := regs[..], src[s..s + len];
      for i := 0 to len
        invariant regs[..] == Stored(before, 2 * RNR + k, words[..i])
      {
        StoredNext(before, 2 * RNR + k, words, i);
        WindowContiguous(RNR, k + i);
        Store(k + i, src[s + i]);
      }
      assert words[..len] == words;
    }

    /** Copies c table entries from the t-th on, where those before it have been stored. */
    method CopyChunk(offset: nat, table: seq<uint32>, t: nat, c: nat, ghost before: seq<uint32>, ghost rnr: nat)
      requires Valid() && 2 * (t + c) <= |table| && offset + c <= RALIASES
      requires WindowBase(RNR, RALIASES) == RNR
      requires RNR + offset == rnr + t && 2 * (rnr + t + c) <= regs.Length == |before|
      requires regs[..] == Stored(before, 2 * rnr, table[..2 * t])
      modifies regs
      ensures regs[..] == Stored(before, 2 * rnr, table[..2 * (t + c)])
    {
      WindowBaseIsRemainder(RNR, RALIASES);
      TableChunk(before, 2 * rnr, table, 2 * t, 2 * c);
      OrderedCpy(2 * offset, table, 2 * t, 2 * c);
    }

    /** `ARM_MPU_LoadEx`: the table is copied in chunks that end where the window does. */
    method LoadEx(rnr: uint32, table: seq<uint32>, cnt: uint32)
      requires Valid() && 2 * cnt <= |table| && 2 * (rnr + cnt) <= regs.Length
      modifies this`RNR, regs
      ensures regs[..] == OneByOne(old(regs[..]), rnr, table, cnt)
      ensures RNR == if cnt == 1 then rnr
                     else if cnt == 0 then WindowBase(rnr, RALIASES)
                     else WindowBase(rnr + cnt - 1, RALIASES)
    {
      OneByOneStores(regs[..], rnr, table, cnt);
      if cnt == 1 {
        RNR := rnr;
        OrderedCpy(0, table, 0, 2);
      } else {
        var rnrBase: uint32 := WindowBase(rnr, RALIASES);
        var rnrOffset: uint32 := Position(rnr, RALIASES);
        SameWindow(rnr, RALIASES, rnrBase);
        RNR := rnrBase;
        LoadChunks(rnrBase, rnrOffset, table, cnt);
        SameWindow(RNR, RALIASES, if cnt == 0 then rnr else rnr + cnt - 1);
      }
    }

    /** The loop of `ARM_MPU_LoadEx`, which moves the window on from chunk to chunk. */
    method LoadChunks(firstBase: uint32, firstOffset: uint32, table: seq<uint32>, cnt: uint32)
      requires Valid() && 2 * cnt <= |table| && 2 * (firstBase + firstOffset + cnt) <= regs.Length
      requires RNR == firstBase == WindowBase(firstBase, RALIASES) && firstOffset < RALIASES
      modifies this`RNR, regs
      ensures regs[..] == Stored(old(regs[..]), 2 * (firstBase + firstOffset), table[..2 * cnt])
      ensures WindowBase(RNR, RALIASES) == RNR
      ensures if cnt == 0 then RNR == firstBase else RNR < firstBase + firstOffset + cnt <= RNR + RALIASES
    {
      ghost var rnr: nat, before := firstBase + firstOffset, regs[..];
      var rnrBase: uint32, rnrOffset: uint32 := firstBase, firstOffset;
      var t: nat, left: uint32 := 0, cnt;
      assert table[..0] == [];
      while rnrOffset + left > RALIASES
        invariant RNR == rnrBase == WindowBase(rnrBase, RALIASES) && rnrOffset < RALIASES
        invariant rnrBase + rnrOffset == rnr + t && t + left == cnt
        invariant left == 0 ==> t == 0 && rnrBase == firstBase
        invariant regs[..] == Stored(before, 2 * rnr, table[..2 * t])
        decreases left
      {
        var c: uint32 := RALIASES - rnrOffset;
        CopyChunk(rnrOffset, table, t, c, before, rnr);
        t := t + c;
        left := left - c;
        rnrOffset := 0;
        rnrBase := rnrBase + RALIASES;
        RNR := rnrBase;
      }
      CopyChunk(rnrOffset, table, t, left, before, rnr);
    }
  }

  lemma TableChunk(regs: seq<uint32>, at: nat, table: seq<uint32>, s: nat, len: nat)
    requires s + len <= |table| && at + s + len <= |regs|
    ensures Stored(Stored(regs, at, table[..s]), at + s, table[s..s + len]) == Stored(regs, at, table[..s + len])
  {
    assert table[..s] + table[s..s + len] == table[..s + len];
    StoredTwice(regs, at, table[..s], table[s..s + len]);
  }

  /** Region by region configuration stores the table words in a row. */
  lemma {:induction false} OneByOneStores(regs: seq<uint32>, rnr: nat, table: seq<uint32>, cnt: nat)
    requires 2 * cnt <= |table| && 2 * (rnr + cnt) <= |regs|
    ensures OneByOne(regs, rnr, table, cnt) == Stored(regs, 2 * rnr, table[..2 * cnt])
  {
    if cnt == 0 {
    } else {
      OneByOneStores(regs, rnr, table, cnt - 1);
      StoredNext(regs, 2 * rnr, table[..2 * cnt], 2 * cnt - 2);
      StoredNext(regs, 2 * rnr, table[..2 * cnt], 2 * cnt - 1);
      assert table[..2 * cnt][..2 * cnt - 2] == table[..2 * (cnt - 1)];
      assert table[..2 * cnt][..2 * cnt] == table[..2 * cnt];
    }
  }

  /** After a load exactly the cnt regions from rnr on hold the table entries, and every other
      region is unchanged. */
  lemma RegionsAfterLoad(regs: seq<uint32>, rnr: nat, table: seq<uint32>, cnt: nat, i: nat)
    requires 2 * cnt <= |table| && 2 * (rnr + cnt) <= |regs| && 2 * i + 1 < |regs|
    ensures var after := OneByOne(regs, rnr, table, cnt);
            if rnr <= i < rnr + cnt then
              after[2 * i] == table[2 * (i - rnr)] && after[2 * i + 1] == table[2 * (i - rnr) + 1]
            else
              after[2 * i] == regs[2 * i] && after[2 * i + 1] == regs[2 * i + 1]
  {
    OneByOneStores(regs, rnr, table, cnt);
    StoredAt(regs, 2 * rnr, table[..2 * cnt], 2 * i);
    StoredAt(regs, 2 * rnr, table[..2 * cnt], 2 * i + 1);
  }
}
