/** `NVIC_EncodePriority` and `NVIC_DecodePriority` of core_armv8mml.h: the priority group
    divides the implemented priority bits into preemption priority and subpriority. */
module PriorityGroup {
  import opened CInt
  import opened BitLoops

  type PrioBits = p: nat | 1 <= p <= 8 witness 1

  function PreemptBits(group: uint32, p: PrioBits): (bits: uint32)
    ensures bits <= p
  {
    var g := group % 8;
    if 7 - g > p then p else 7 - g
  }

  /** The difference g - 7 wraps and is brought back by the sum. */
  function SubBits(group: uint32, p: PrioBits): (bits: uint32)
    ensures PreemptBits(group, p) + bits == p
  {
    var g := group % 8;
    if g + p < 7 then 0 else ToUint32(ToUint32(g - 7) + p)
  }

  function Encode(group: uint32, preempt: uint32, sub: uint32, p: PrioBits): nat {
    Or(And(preempt, Pow2(PreemptBits(group, p)) - 1) * Pow2(SubBits(group, p)),
       And(sub, Pow2(SubBits(group, p)) - 1))
  }

  /** Returns (preemption priority, subpriority). */
  function Decode(priority: uint32, group: uint32, p: PrioBits): (nat, nat) {
    (And(Shr(priority, SubBits(group, p)), Pow2(PreemptBits(group, p)) - 1),
     And(priority, Pow2(SubBits(group, p)) - 1))
  }

  /** The encoded priority as a number: the preemption priority in the upper and the
      subpriority in the lower of the p implemented bits. */
  lemma EncodeIs(group: uint32, preempt: uint32, sub: uint32, p: PrioBits)
    ensures var A, B := Pow2(PreemptBits(group, p)), Pow2(SubBits(group, p));
            && Encode(group, preempt, sub, p) == preempt % A * B + sub % B
            && Encode(group, preempt, sub, p) < A * B == Pow2(p)
  {
    var a, b := PreemptBits(group, p), SubBits(group, p);
    JoinedFields(preempt, sub, a, b);
    Pow2Sum(a, b);
    PairBelow(preempt % Pow2(a), sub % Pow2(b), Pow2(a), Pow2(b));
  }

  lemma JoinedFields(preempt: nat, sub: nat, a: nat, b: nat)
    ensures Or(And(preempt, Pow2(a) - 1) * Pow2(b), And(sub, Pow2(b) - 1))
            == preempt % Pow2(a) * Pow2(b) + sub % Pow2(b)
  {
    MaskIsRemainder(preempt, a);
    MaskIsRemainder(sub, b);
    OrIsSum(preempt % Pow2(a), sub % Pow2(b), b);
  }

  lemma PairBelow(x: nat, y: nat, A: int, B: int)
    requires x < A && y < B
    ensures x * B + y < A * B
  {
    MulLe(x + 1, A, B);
  }

  lemma DecodeIs(priority: uint32, group: uint32, p: PrioBits)
    ensures var A, B := Pow2(PreemptBits(group, p)), Pow2(SubBits(group, p));
            Decode(priority, group, p) == (priority / B % A, priority % B)
  {
    var a, b := PreemptBits(group, p), SubBits(group, p);
    ShrIsDivision(priority, b);
    MaskIsRemainder(Shr(priority, b), a);
    MaskIsRemainder(priority, b);
  }

  lemma PrioritiesFit(p: PrioBits)
    ensures Pow2(p) <= 0x100
  {
    Pow2Monotone(p, 8);
    Pow2Values();
  }

  /** Decoding returns the pair, as far as the group has room for it. */
  lemma DecodeEncode(group: uint32, preempt: uint32, sub: uint32, p: PrioBits)
    ensures Encode(group, preempt, sub, p) < 0x100
    ensures Decode(Encode(group, preempt, sub, p), group, p)
            == (preempt % Pow2(PreemptBits(group, p)), sub % Pow2(SubBits(group, p)))
  {
    var A, B := Pow2(PreemptBits(group, p)), Pow2(SubBits(group, p));
    PrioritiesFit(p);
    EncodeIs(group, preempt, sub, p);
    var e := Encode(group, preempt, sub, p);
    DecodeIs(e, group, p);
    DivModUnique(e, B, preempt % A, sub % B);
    DivModUnique(preempt % A, A, 0, preempt % A);
  }

  /** Encoding a decoded priority returns its implemented bits. */
  lemma EncodeDecode(priority: uint32, group: uint32, p: PrioBits)
    ensures var (preempt, sub) := Decode(priority, group, p);
            preempt < 0x100 && sub < 0x100 && Encode(group, preempt, sub, p) == priority % Pow2(p)
  {
    var A, B := Pow2(PreemptBits(group, p)), Pow2(SubBits(group, p));
    DecodeIs(priority, group, p);
    FactorsFit(group, p);
    EncodeIs(group, priority / B % A, priority % B, p);
    Idempotent(priority / B, A);
    Idempotent(priority, B);
    SplitRemainder(priority, A, B);
  }

  lemma FactorsFit(group: uint32, p: PrioBits)
    ensures var A, B := Pow2(PreemptBits(group, p)), Pow2(SubBits(group, p));
            A <= 0x100 && B <= 0x100 && A * B == Pow2(p)
  {
    Pow2Values();
    Pow2Monotone(PreemptBits(group, p), 8);
    Pow2Monotone(SubBits(group, p), 8);
    Pow2Sum(PreemptBits(group, p), SubBits(group, p));
  }

  lemma Idempotent(x: int, m: int)
    requires m > 0
    ensures x % m % m == x % m
  {
    DivModUnique(x % m, m, 0, x % m);
  }

  lemma SplitRemainder(x: nat, A: nat, B: nat)
    requires A > 0 && B > 0
    ensures A * B > 0 && x % (A * B) == x / B % A * B + x % B
  {
    var q := x / B / A;
    MulAssoc(q, A, B);
    MulLe(x / B % A + 1, A, B);
    DivModUnique(x, A * B, q, x / B % A * B + x % B);
  }

  /** The group counts the binary point in the byte in which a priority x stands left-aligned: the bits
      above bit g are the preemption priority and the others the subpriority, up to the bits that are
      not implemented. */
  lemma BinaryPoint(x: uint32, group: uint32, p: PrioBits)
    requires x < Pow2(p)
    ensures var (preempt, sub) := Decode(x, group, p);
            var g, byte := group % 8, x * Pow2(8 - p);
            if g + p >= 7 then
              preempt == byte / Pow2(g + 1) && sub * Pow2(8 - p) == byte % Pow2(g + 1)
            else
              preempt * Pow2(7 - p - g) == byte / Pow2(g + 1) && preempt == x && sub == 0
  {
    var g, a, b := group % 8, PreemptBits(group, p), SubBits(group, p);
    FactorsFit(group, p);
    DecodeIs(x, group, p);
    UpperPart(x, Pow2(a), Pow2(b));
    if g + p >= 7 {
      PointInside(x, b, 8 - p, g + 1);
    } else {
      PointBelow(x, 7 - p - g, g + 1, 8 - p);
    }
  }

  lemma PointInside(x: nat, b: nat, c: nat, n: nat)
    requires n == b + c
    ensures x * Pow2(c) / Pow2(n) == x / Pow2(b) && x * Pow2(c) % Pow2(n) == x % Pow2(b) * Pow2(c)
  {
    Pow2Sum(b, c);
    CommonFactor(x, Pow2(b), Pow2(c));
  }

  lemma PointBelow(x: nat, k: nat, n: nat, c: nat)
    requires c == k + n
    ensures x * Pow2(c) / Pow2(n) == x * Pow2(k)
  {
    Pow2Sum(k, n);
    WholeFactor(x, Pow2(k), Pow2(n));
  }

  lemma CommonFactor(x: nat, b: int, c: int)
    requires b >= 1 && c >= 1
    ensures b * c >= 1 && x * c / (b * c) == x / b && x * c % (b * c) == x % b * c
  {
    MulAssoc(x / b, b, c);
    MulLe(x % b + 1, b, c);
    DivModUnique(x * c, b * c, x / b, x % b * c);
  }

  lemma WholeFactor(x: nat, k: int, m: int)
    requires k >= 1 && m >= 1
    ensures x * (k * m) / m == x * k
  {
    MulAssoc(x, k, m);
    DivModUnique(x * (k * m), m, x * k, 0);
  }

  /** Among implemented priorities the numeric order is the lexicographic order of preemption
      priority and subpriority. */
  lemma OrderIsLexicographic(x: uint32, y: uint32, group: uint32, p: PrioBits)
    requires x < Pow2(p) && y < Pow2(p)
    ensures var ((xp, xs), (yp, ys)) := (Decode(x, group, p), Decode(y, group, p));
            x < y <==> xp < yp || (xp == yp && xs < ys)
  {
    FactorsFit(group, p);
    DecodeIs(x, group, p);
    DecodeIs(y, group, p);
    PairOrder(x, y, Pow2(PreemptBits(group, p)), Pow2(SubBits(group, p)));
  }

  lemma PairOrder(x: nat, y: nat, A: nat, B: nat)
    requires A > 0 && B > 0 && x < A * B && y < A * B
    ensures x < y <==> x / B % A < y / B % A || (x / B % A == y / B % A && x % B < y % B)
  {
    UpperPart(x, A, B);
    UpperPart(y, A, B);
    var q, q' := x / B, y / B;
    if q < q' {
      MulLe(q + 1, q', B);
    } else if q' < q {
      MulLe(q' + 1, q, B);
    }
  }

  lemma UpperPart(x: nat, A: nat, B: nat)
    requires A > 0 && B > 0 && x < A * B
    ensures x / B % A == x / B
  {
    DivBelow(x, B, A);
    DivModUnique(x / B, A, 0, x / B);
  }
}
