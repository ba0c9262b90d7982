/** The software fallbacks for the bit instructions: `__RBIT` (cmsis_gcc.h and
    cmsis_iccarm.h) and `__CLZ` (cmsis_iccarm.h).

    Words are natural numbers below 2^32; a left shift drops what leaves the word. */
module BitLoops {
  import opened CInt

  /** v shifted right by n. */
  function Shr(v: nat, n: nat): nat { if n == 0 then v else Shr(v / 2, n - 1) }

  /** Bit i of v. */
  function Bit(v: nat, i: nat): nat { Shr(v, i) % 2 }

  /** The lowest n bits of v in reverse order. */
  function Reversed(v: nat, n: nat): (r: nat)
    ensures r < Pow2(n)
  {
    if n == 0 then 0 else (if v % 2 == 1 then Pow2(n - 1) else 0) + Reversed(v / 2, n - 1)
  }

  /** `__RBIT`.  The accumulator starts as the whole value, so dead high bits travel
      above the n reversed ones until the last shift pushes them out of the word. */
  method RBit(value: uint32) returns (result: uint32)
    ensures result == Reversed(value, 32)
  {
    var s: uint32 := 31;
    result := value;
    var v: uint32 := value / 2;
    ghost var n: nat, dead: int := 1, value / 2;
    while v != 0
      invariant s + n == 32
      invariant v == Shr(value, n)
      invariant result == Reversed(value, n) + Pow2(n) * dead
      decreases v
    {
      WordHasRoom(value, n);
      ghost var dead' := AccumulatorStep(value, result, n, dead);
      result := ToUint32(2 * result) + v % 2;
      v := v / 2;
      n, dead := n + 1, dead';
      s := s - 1;
    }
    FinalShift(value, result, n, s, dead);
    result := ToUint32(result * Pow2(s));
  }

  lemma WordHasRoom(value: uint32, n: nat)
    requires n <= 32 && Shr(value, n) != 0
    ensures n <= 31
  {
    Pow2Values();
    ShrZero(value, n);
  }

  /** Shifting the accumulator and adding the next bit keeps it of the form: reversed bits,
      with dead bits above. */
  lemma AccumulatorStep(value: nat, result: uint32, n: nat, dead: int) returns (dead': int)
    requires n <= 31 && result == Reversed(value, n) + Pow2(n) * dead
    ensures ToUint32(2 * result) + Shr(value, n) % 2 == Reversed(value, n + 1) + Pow2(n + 1) * dead'
    ensures ToUint32(2 * result) <= 0xFFFF_FFFE
    ensures Shr(value, n + 1) == Shr(value, n) / 2
  {
    ShrNext(value, n);
    ReversedNext(value, n);
    var carry := CarryOut(result);
    dead' := dead - carry * Pow2(31 - n);
    DropCarry(n, carry, dead, Pow2(31 - n));
  }

  lemma CarryOut(result: uint32) returns (carry: int)
    ensures ToUint32(2 * result) == 2 * result - 0x1_0000_0000 * carry <= 0xFFFF_FFFE
  {
    carry := if result < 0x8000_0000 then 0 else 1;
  }

  lemma FinalShift(value: nat, result: uint32, n: nat, s: nat, dead: int)
    requires n + s == 32 && Shr(value, n) == 0
    requires result == Reversed(value, n) + Pow2(n) * dead
    ensures ToUint32(result * Pow2(s)) == Reversed(value, 32)
  {
    ShrZero(value, n);
    ReversedSmall(value, n, 32);
    DropDeadBits(Reversed(value, n), n, s, dead);
  }

  lemma DropCarry(n: nat, carry: int, dead: int, above: int)
    requires n <= 31 && above == Pow2(31 - n)
    ensures 2 * (Pow2(n) * dead) - 0x1_0000_0000 * carry == Pow2(n + 1) * (dead - carry * above)
  {
    Pow2Values();
    Pow2Sum(n + 1, 31 - n);
    SplitMultiple(Pow2(n), above, 0x1_0000_0000, carry, dead);
  }

  lemma SplitMultiple(p: int, above: int, word: int, carry: int, dead: int)
    requires 2 * p * above == word
    ensures 2 * (p * dead) - word * carry == 2 * p * (dead - carry * above)
  {
    MulSub(2 * p, dead, carry * above);
    MulAssoc(2 * p, above, carry);
  }

  lemma DropDeadBits(r: nat, n: nat, s: nat, dead: int)
    requires n + s == 32 && r < Pow2(n)
    ensures ToUint32((r + Pow2(n) * dead) * Pow2(s)) == r * Pow2(s)
  {
    WordSplit(n, s);
    DropMultiple(r, Pow2(n), Pow2(s), dead);
  }

  lemma WordSplit(n: nat, s: nat)
    requires n + s == 32
    ensures Pow2(n) * Pow2(s) == 0x1_0000_0000
  {
    Pow2Values();
    Pow2Sum(n, s);
  }

  lemma DropMultiple(r: nat, p: nat, q: nat, dead: int)
    requires q > 0 && r < p
    ensures p * q > 0 && (r + p * dead) * q % (p * q) == r * q
  {
    MulAssoc(q, p, dead);
    MulLe(r + 1, p, q);
    DivModUnique((r + p * dead) * q, p * q, dead, r * q);
  }

  /** The number of bits needed to write v. */
  function BitLength(v: nat): nat { if v == 0 then 0 else 1 + BitLength(v / 2) }

  /** Bitwise and. */
  function And(a: nat, b: nat): nat {
    if a == 0 || b == 0 then 0
    else (if a % 2 == 1 && b % 2 == 1 then 1 else 0) + 2 * And(a / 2, b / 2)
  }

  /** Bitwise or. */
  function Or(a: nat, b: nat): nat {
    if a == 0 then b else if b == 0 then a
    else (if a % 2 == 1 || b % 2 == 1 then 1 else 0) + 2 * Or(a / 2, b / 2)
  }

  /** A mask of n ones keeps the remainder. */
  lemma {:induction false} MaskIsRemainder(v: nat, n: nat)
    ensures And(v, Pow2(n) - 1) == v % Pow2(n)
  {
    if n == 0 {
    } else {
      MaskIsRemainder(v / 2, n - 1);
      var p := Pow2(n - 1);
      assert (2 * p - 1) / 2 == p - 1;
      HalveRemainder(v, p);
    }
  }

  lemma HalveRemainder(v: nat, p: nat)
    requires p > 0
    ensures v % (2 * p) == v % 2 + 2 * (v / 2 % p)
  {
    var q := v / 2 / p;
    MulAssoc(q, 2, p);
    DivModUnique(v, 2 * p, q, v % 2 + 2 * (v / 2 % p));
  }

  /** Numbers without a common bit are joined by addition. */
  lemma {:induction false} OrIsSum(a: nat, b: nat, n: nat)
    requires b < Pow2(n)
    ensures Or(a * Pow2(n), b) == a * Pow2(n) + b
  {
    if n == 0 {
    } else {
      OrIsSum(a, b / 2, n - 1);
      DoubleProduct(a, Pow2(n - 1), Pow2(n));
      OrStep(a * Pow2(n), a * Pow2(n - 1), b);
    }
  }

  lemma OrStep(x: nat, half: nat, b: nat)
    requires x == 2 * half && Or(half, b / 2) == half + b / 2
    ensures Or(x, b) == x + b
  {
  }

  /** `__CLZ`: a zero word is answered before the loop. */
  method Clz(data: uint32) returns (count: uint8)
    ensures count == 32 - BitLength(data)
  {
    Pow2Values();
    if data == 0 { return 32; }
    count := 0;
    var mask: uint32 := 0x8000_0000;
    while And(data, mask) == 0
      invariant count <= 31
      invariant mask == Pow2(31 - count)
      invariant data < 2 * mask
      decreases mask
    {
      NextMask(data, mask, 31 - count);
      count := count + 1;
      mask := mask / 2;
    }
    TopBitFound(data, 31 - count);
  }

  lemma NextMask(data: nat, mask: nat, k: nat)
    requires mask == Pow2(k) && 0 < data < 2 * mask && And(data, mask) == 0
    ensures k >= 1 && mask / 2 == Pow2(k - 1) && data < 2 * (mask / 2)
  {
    TopBitClear(data, k);
  }

  lemma TopBitFound(data: nat, k: nat)
    requires data < 2 * Pow2(k) && And(data, Pow2(k)) != 0
    ensures BitLength(data) == k + 1
  {
    TopBitClear(data, k);
    BitLengthUnique(data, k + 1);
  }

  /** Masking with the top bit tells whether the value reaches it. */
  lemma {:induction false} TopBitClear(data: nat, k: nat)
    requires data < 2 * Pow2(k)
    ensures And(data, Pow2(k)) == 0 <==> data < Pow2(k)
  {
    if k > 0 {
      TopBitClear(data / 2, k - 1);
    } else {
      assert And(0, 0) == 0;
    }
  }

  /** The bit length brackets the value between two powers of two ... */
  lemma {:induction false} BitLengthBrackets(v: nat)
    requires v > 0
    ensures BitLength(v) >= 1 && Pow2(BitLength(v) - 1) <= v < Pow2(BitLength(v))
  {
    if v > 1 {
      BitLengthBrackets(v / 2);
    } else {
      assert BitLength(v / 2) == 0;
    }
  }

  /** ... and is the only number that does. */
  lemma {:induction false} BitLengthUnique(v: nat, n: nat)
    requires n >= 1 && Pow2(n - 1) <= v < Pow2(n)
    ensures BitLength(v) == n
  {
    if n > 1 {
      BitLengthUnique(v / 2, n - 1);
    } else {
      assert v == 1 && BitLength(v / 2) == 0;
    }
  }

  lemma {:induction false} Pow2Monotone(a: nat, b: nat)
    requires a <= b
    ensures Pow2(a) <= Pow2(b)
  {
    if a == b {
    } else {
      Pow2Monotone(a, b - 1);
    }
  }

  lemma {:induction false} ShrNext(v: nat, n: nat)
    ensures Shr(v, n + 1) == Shr(v, n) / 2
  {
    if n == 0 {
    } else {
      ShrNext(v / 2, n - 1);
    }
  }

  lemma {:induction false} ShrZero(v: nat, n: nat)
    ensures Shr(v, n) == 0 <==> v < Pow2(n)
  {
    if n == 0 {
    } else {
      ShrZero(v / 2, n - 1);
    }
  }

  /** Shifting splits off the low part. */
  lemma {:induction false} ShrIsDivision(v: nat, n: nat)
    ensures Shr(v, n) == v / Pow2(n)
  {
    if n == 0 {
    } else {
      ShrIsDivision(v / 2, n - 1);
      HalvedQuotient(v, Pow2(n - 1));
    }
  }

  lemma HalvedQuotient(v: nat, p: nat)
    requires p > 0
    ensures v / (2 * p) == v / 2 / p
  {
    var q, r := v / 2 / p, v / 2 % p;
    MulAssoc(q, 2, p);
    DivModUnique(v, 2 * p, q, 2 * r + v % 2);
  }

  lemma {:induction false} ReversedNext(v: nat, n: nat)
    ensures Reversed(v, n + 1) == 2 * Reversed(v, n) + Bit(v, n)
  {
    if n == 0 {
    } else {
      ReversedNext(v / 2, n - 1);
    }
  }

  lemma {:induction false} ReversedSmall(v: nat, n: nat, m: nat)
    requires v < Pow2(n) && n <= m
    ensures Reversed(v, m) == Reversed(v, n) * Pow2(m - n)
  {
    if n == m {
      assert Pow2(m - n) == 1;
    } else {
      ReversedSmall(v, n, m - 1);
      ReversedPadded(v, n, m);
      DoubleProduct(Reversed(v, n), Pow2(m - 1 - n), Pow2(m - n));
    }
  }

  lemma ReversedPadded(v: nat, n: nat, m: nat)
    requires v < Pow2(n) && n < m
    ensures Reversed(v, m) == 2 * Reversed(v, m - 1)
  {
    ReversedNext(v, m - 1);
    Pow2Monotone(n, m - 1);
    ShrZero(v, m - 1);
  }

  lemma DoubleProduct(r: int, p: int, q: int)
    requires q == 2 * p
    ensures 2 * (r * p) == r * q
  {
  }

  lemma BitOfDouble(r: nat, b: nat, i: nat)
    requires b <= 1
    ensures Bit(2 * r + b, i) == if i == 0 then b else Bit(r, i - 1)
  {
    assert (2 * r + b) / 2 == r;
  }

  /** Bit i of the reversal is bit n-1-i of the word. */
  lemma {:induction false} BitOfReversed(v: nat, n: nat, i: nat)
    requires i < n
    ensures Bit(Reversed(v, n), i) == Bit(v, n - 1 - i)
  {
    ReversedNext(v, n - 1);
    BitOfDouble(Reversed(v, n - 1), Bit(v, n - 1), i);
    if i == 0 {
    } else {
      BitOfReversed(v, n - 1, i - 1);
    }
  }

  /** Reversing twice gives back the low n bits: `__RBIT` is its own inverse. */
  lemma {:induction false} ReversedTwice(v: nat, n: nat)
    ensures Reversed(Reversed(v, n), n) == v % Pow2(n)
  {
    if n == 0 {
    } else {
      var r, b := Reversed(v, n - 1), Bit(v, n - 1);
      ReversedNext(v, n - 1);
      ReversedTwice(v, n - 1);
      ReversedAppended(r, b, n);
      ShrIsDivision(v, n - 1);
      ModDouble(v, Pow2(n - 1));
    }
  }

  lemma ReversedAppended(r: nat, b: nat, n: nat)
    requires n > 0 && b <= 1
    ensures Reversed(2 * r + b, n) == (if b == 1 then Pow2(n - 1) else 0) + Reversed(r, n - 1)
  {
    assert (2 * r + b) / 2 == r;
  }

  lemma ModDouble(v: nat, p: nat)
    requires p > 0
    ensures v % (2 * p) == (if v / p % 2 == 1 then p else 0) + v % p
  {
    var q := v / p;
    MulAssoc(q / 2, 2, p);
    DivModUnique(v, 2 * p, q / 2, q % 2 * p + v % p);
  }
}
