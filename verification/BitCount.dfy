/** Leading-zero, trailing-zero and population counts of cpu_core.c. */
module BitCount {
  import opened Bits
  import opened Rounding

  // ----- reference definitions -----

  /** Position of the highest set bit, counted from 1; 0 for 0. */
  function BitLen(x: nat): nat {
    if x == 0 then 0 else 1 + BitLen(x / 2)
  }

  /** Position of the lowest set bit, counted from 0. */
  function Lowest(x: nat): nat
    requires x > 0
  {
    if x % 2 == 1 then 0 else 1 + Lowest(x / 2)
  }

  /** Number of set bits. */
  function Ones(x: nat): nat {
    if x == 0 then 0 else x % 2 + Ones(x / 2)
  }

  // ----- leading zeros -----

  /** n rows of 16 equal table entries. */
  function Rows(v: nat, n: nat): (r: seq<nat>)
    ensures |r| == 16 * n && forall i | 0 <= i < |r| :: r[i] == v
  {
    seq(16 * n, _ => v)
  }

  /** CPU_CntLeadZerosTbl */
  const LEAD_ZEROS_TBL: seq<nat> :=
    [8, 7, 6, 6, 5, 5, 5, 5, 4, 4, 4, 4, 4, 4, 4, 4] + Rows(3, 1) + Rows(2, 2) + Rows(1, 4) + Rows(0, 8)

  function CntLeadZeros08(val: nat): nat
    requires val < 0x100
  {
    LEAD_ZEROS_TBL[val]
  }

  function CntLeadZeros16(val: nat): nat
    requires val < 0x1_0000
  {
    BytePowers();
    if val > 0xFF then LEAD_ZEROS_TBL[Ix(val, 8)] else LEAD_ZEROS_TBL[val] + 8
  }

  function CntLeadZeros32(val: nat): nat
    requires val < 0x1_0000_0000
  {
    BytePowers();
    if val > 0xFFFF then
      if val > 0xFF_FFFF then LEAD_ZEROS_TBL[Ix(val, 24)] else LEAD_ZEROS_TBL[Ix(val, 16)] + 8
    else
      if val > 0xFF then LEAD_ZEROS_TBL[Ix(val, 8)] + 16 else LEAD_ZEROS_TBL[Ix(val, 0)] + 24
  }

  function CntLeadZeros64(val: nat): nat
    requires val < 0x1_0000_0000_0000_0000
  {
    BytePowers();
    if val > 0xFFFF_FFFF then
      if val > 0xFFFF_FFFF_FFFF then
        if val > 0xFF_FFFF_FFFF_FFFF then LEAD_ZEROS_TBL[Ix(val, 56)] else LEAD_ZEROS_TBL[Ix(val, 48)] + 8
      else
        if val > 0xFF_FFFF_FFFF then LEAD_ZEROS_TBL[Ix(val, 40)] + 16 else LEAD_ZEROS_TBL[Ix(val, 32)] + 24
    else
      if val > 0xFFFF then
        if val > 0xFF_FFFF then LEAD_ZEROS_TBL[Ix(val, 24)] + 32 else LEAD_ZEROS_TBL[Ix(val, 16)] + 40
      else
        if val > 0xFF then LEAD_ZEROS_TBL[Ix(val, 8)] + 48 else LEAD_ZEROS_TBL[Ix(val, 0)] + 56
  }

  lemma BytePowers()
    ensures Pow2(0) == 1 && Pow2(8) == 0x100 && Pow2(16) == 0x1_0000 && Pow2(24) == 0x100_0000
    ensures Pow2(32) == 0x1_0000_0000 && Pow2(40) == 0x100_0000_0000 && Pow2(48) == 0x1_0000_0000_0000
    ensures Pow2(56) == 0x100_0000_0000_0000 && Pow2(64) == 0x1_0000_0000_0000_0000
  {
    WordModuli();
    Pow2Add(8, 16);
    Pow2Add(8, 32);
    Pow2Add(16, 32);
    Pow2Add(8, 48);
  }

  /** The table index `val >> k`. */
  function Ix(val: nat, k: nat): (ix: nat)
    requires k <= 56 && val < Pow2(k + 8)
    ensures ix < |LEAD_ZEROS_TBL|
  {
    ShrBound(val, k, k + 8);
    assert Pow2(8) == 256;
    Shr(val, k)
  }

  lemma {:induction false} BitLenBetween(x: nat, k: nat)
    requires Pow2(k) <= x < 2 * Pow2(k)
    ensures BitLen(x) == k + 1
  {
    if k != 0 { BitLenBetween(x / 2, k - 1); }
  }

  lemma {:induction false} BitLenShr(x: nat, k: nat)
    requires Shr(x, k) != 0
    ensures BitLen(x) == BitLen(Shr(x, k)) + k
  {
    if k != 0 {
      BitLenShr(x / 2, k - 1);
      if x == 0 { ShrZero(k); }
    }
  }

  lemma {:induction false} ShrZero(k: nat)
    ensures Shr(0, k) == 0
  {
    if k != 0 { ShrZero(k - 1); }
  }

  /** The bit length of a byte, by its powers of two. */
  function ByteLen(i: nat): nat {
    if i < 16 then (if i < 4 then (if i < 2 then i else 2) else if i < 8 then 3 else 4)
    else if i < 64 then (if i < 32 then 5 else 6)
    else if i < 128 then 7 else 8
  }

  lemma ByteLenExact(i: nat)
    requires i < 256
    ensures ByteLen(i) == BitLen(i)
  {
    hide BitLen;
    BytePowers();
    SmallPowers();
    if i == 0 { BitLenZero(); }
    else if i < 2 { BitLenBetween(i, 0); }
    else if i < 4 { BitLenBetween(i, 1); }
    else if i < 8 { BitLenBetween(i, 2); }
    else if i < 16 { BitLenBetween(i, 3); }
    else if i < 32 { BitLenBetween(i, 4); }
    else if i < 64 { BitLenBetween(i, 5); }
    else if i < 128 { BitLenBetween(i, 6); }
    else { BitLenBetween(i, 7); }
  }

  lemma SmallPowers()
    ensures Pow2(1) == 2 && Pow2(2) == 4 && Pow2(3) == 8 && Pow2(4) == 16 && Pow2(5) == 32 && Pow2(6) == 64 && Pow2(7) == 128
  {}

  lemma BitLenZero()
    ensures BitLen(0) == 0
  {}

  /** Every table entry is the number of leading zeros of its index. */
  lemma TableExact(i: nat)
    requires i < 256
    ensures LEAD_ZEROS_TBL[i] + BitLen(i) == 8
  {
    hide BitLen;
    ByteLenExact(i);
  }

  /** The byte of val above its low k bits, when val has no bits above that byte and some in it. */
  lemma TopByte(val: nat, k: nat)
    requires k <= 56 && Pow2(k) <= val < Pow2(k + 8)
    ensures LEAD_ZEROS_TBL[Ix(val, k)] + BitLen(val) == k + 8
  {
    TableExact(Ix(val, k));
    Split(val, k);
    JoinValue(Shr(val, k), Low(val, k), k);
    BitLenShr(val, k);
  }

  /** The number of leading zeros is the width minus the bit length, for every value of every width. */
  lemma LeadZerosExact(val: nat)
    ensures val < 0x100 ==> CntLeadZeros08(val) + BitLen(val) == 8
    ensures val < 0x1_0000 ==> CntLeadZeros16(val) + BitLen(val) == 16
    ensures val < 0x1_0000_0000 ==> CntLeadZeros32(val) + BitLen(val) == 32
    ensures val < 0x1_0000_0000_0000_0000 ==> CntLeadZeros64(val) + BitLen(val) == 64
  {
    hide BitLen, Pow2, LEAD_ZEROS_TBL;
    BytePowers();
    if val < 0x100 { TableExact(val); BottomByte(val); }
    else if val < 0x1_0000 { TopByte(val, 8); }
    else if val < 0x100_0000 { TopByte(val, 16); }
    else if val < 0x1_0000_0000 { TopByte(val, 24); }
    else if val < 0x100_0000_0000 { TopByte(val, 32); }
    else if val < 0x1_0000_0000_0000 { TopByte(val, 40); }
    else if val < 0x100_0000_0000_0000 { TopByte(val, 48); }
    else if val < 0x1_0000_0000_0000_0000 { TopByte(val, 56); }
  }

  lemma BottomByte(val: nat)
    requires val < 0x100
    ensures Pow2(8) == 0x100 && Ix(val, 0) == val
  {}

  // ----- trailing zeros -----

  /** `val & (~val + 1)` on words of w bits. */
  function LowestMask(val: nat, w: nat): nat
    requires val < Pow2(w)
  {
    And(val, (Not(w, val) + 1) % Pow2(w))
  }

  function CntTrailZeros08(val: nat): int
    requires val < 0x100
  {
    BytePowers();
    if val == 0 then 8 else 7 - CntLeadZeros08(MaskBound(val, 8))
  }

  function CntTrailZeros16(val: nat): int
    requires val < 0x1_0000
  {
    BytePowers();
    if val == 0 then 16 else 15 - CntLeadZeros16(MaskBound(val, 16))
  }

  function CntTrailZeros32(val: nat): int
    requires val < 0x1_0000_0000
  {
    BytePowers();
    if val == 0 then 32 else 31 - CntLeadZeros32(MaskBound(val, 32))
  }

  function CntTrailZeros64(val: nat): int
    requires val < 0x1_0000_0000_0000_0000
  {
    BytePowers();
    if val == 0 then 64 else 63 - CntLeadZeros64(MaskBound(val, 64))
  }

  /** The isolated bit, which is no larger than the value it comes from. */
  function MaskBound(val: nat, w: nat): (m: nat)
    requires val < Pow2(w)
    ensures m == LowestMask(val, w) <= val
  {
    AndAtMost(val, (Not(w, val) + 1) % Pow2(w));
    LowestMask(val, w)
  }

  lemma {:induction false} AndAtMost(x: nat, y: nat)
    ensures And(x, y) <= x && And(x, y) <= y
    decreases x
  {
    if x != 0 && y != 0 { AndAtMost(x / 2, y / 2); }
  }

  lemma {:induction false} AndNot(x: nat, w: nat)
    requires x < Pow2(w)
    ensures And(x, Not(w, x)) == 0
  {
    if w != 0 {
      AndNot(x / 2, w - 1);
      AndStep(x / 2, x % 2, Not(w - 1, x / 2), 1 - x % 2);
    }
  }

  /** Negating and masking isolates the lowest set bit. */
  lemma {:induction false} IsolatesLowest(x: nat, w: nat)
    requires 0 < x < Pow2(w)
    ensures And(x, Pow2(w) - x) == Pow2(Lowest(x))
  {
    var y := x / 2;
    if x % 2 == 0 {
      IsolatesLowest(y, w - 1);
      AndStep(y, 0, Pow2(w - 1) - y, 0);
    } else {
      AndNot(y, w - 1);
      AndStep(y, 1, Not(w - 1, y), 1);
    }
  }

  lemma LowestMaskExact(x: nat, w: nat)
    requires 0 < x < Pow2(w)
    ensures LowestMask(x, w) == Pow2(Lowest(x)) && BitLen(LowestMask(x, w)) == Lowest(x) + 1
  {
    hide And, Pow2, BitLen, Lowest;
    ModUnique(Pow2(w) - x, Pow2(w), 0, Pow2(w) - x);
    IsolatesLowest(x, w);
    BitLenBetween(Pow2(Lowest(x)), Lowest(x));
  }

  /** The number of trailing zeros is the position of the lowest set bit, and the width for zero. */
  lemma TrailZerosExact(val: nat)
    ensures val < 0x100 ==> CntTrailZeros08(val) == if val == 0 then 8 else Lowest(val)
    ensures val < 0x1_0000 ==> CntTrailZeros16(val) == if val == 0 then 16 else Lowest(val)
    ensures val < 0x1_0000_0000 ==> CntTrailZeros32(val) == if val == 0 then 32 else Lowest(val)
    ensures val < 0x1_0000_0000_0000_0000 ==> CntTrailZeros64(val) == if val == 0 then 64 else Lowest(val)
  {
    hide BitLen, Pow2, LowestMask, CntLeadZeros08, CntLeadZeros16, CntLeadZeros32, CntLeadZeros64, Lowest;
    BytePowers();
    if val > 0 {
      if val < 0x100 { LowestMaskExact(val, 8); LeadZerosExact(MaskBound(val, 8)); }
      if val < 0x1_0000 { LowestMaskExact(val, 16); LeadZerosExact(MaskBound(val, 16)); }
      if val < 0x1_0000_0000 { LowestMaskExact(val, 32); LeadZerosExact(MaskBound(val, 32)); }
      if val < 0x1_0000_0000_0000_0000 { LowestMaskExact(val, 64); LeadZerosExact(MaskBound(val, 64)); }
    }
  }

  // ----- population count -----

  const MASK01: nat := 0x5555_5555
  const MASK0011: nat := 0x3333_3333
  const MASK00001111: nat := 0x0F0F_0F0F
  const POWERS_OF_256: nat := 0x0101_0101

  /** CPU_PopCnt32(), in 32-bit arithmetic. */
  function PopCnt32(value: nat): nat {
    var odd1 := And(Shr(value, 1), MASK01);
    var result1 := Wrap(value - odd1);
    var result2 := Wrap(And(result1, MASK0011) + And(Shr(result1, 2), MASK0011));
    var result3 := Wrap(And(result2, MASK00001111) + And(Shr(result2, 4), MASK00001111));
    Shr(Wrap(result3 * POWERS_OF_256), 24)
  }

  /** The mask that keeps the low half of each of n lanes; q is the size of a half lane. */
  function Mask(q: nat, n: nat): nat
    requires q > 0
  {
    if n == 0 then 0 else Mask(q, n - 1) * (q * q) + (q - 1)
  }

  function Rem(x: nat, q: nat): nat
    requires q > 0
  {
    x % q
  }

  /** The low halves of the n lowest lanes of x, each in its lane. */
  function LowHalves(x: nat, q: nat, n: nat): nat
    requires q > 0
    decreases n
  {
    if n == 0 then 0 else LowHalves(Quo(x, q * q), q, n - 1) * (q * q) + Rem(x, q)
  }

  /** In each of the n lowest lanes of x, the sum of its two halves. */
  function Pairs(x: nat, q: nat, n: nat): nat
    requires q > 0
    decreases n
  {
    if n == 0 then 0 else Pairs(Quo(x, q * q), q, n - 1) * (q * q) + (Rem(x, q) + Rem(Quo(x, q), q))
  }

  /** The sum of the n lowest digits of x to the base q. */
  function DigitSum(x: nat, q: nat, n: nat): nat
    requires q > 0
    decreases n
  {
    if n == 0 then 0 else Rem(x, q) + DigitSum(Quo(x, q), q, n - 1)
  }

  /** One lane of a masked word. */
  lemma LaneSplit(x: nat, h: nat, q: nat)
    requires q == Pow2(h)
    ensures q * q == Pow2(2 * h) && q - 1 < q * q && Rem(x, q) < q * q
    ensures x == Join(Quo(x, q * q), Rem(x, q * q), 2 * h)
    ensures And(Rem(x, q * q), q - 1) == Rem(x, q)
  {
    hide And, Join, Low, Shr, Pow2;
    Pow2Add(h, h);
    QAtMostSquare(q);
    var p := q * q;
    Split(x, 2 * h);
    ShiftIsDivision(x, 2 * h, p);
    var lo := Rem(x, p);
    AndLowMask(lo, h);
    ShiftIsDivision(lo, h, q);
    ModOfMod(x, q);
    RemBound(x, q);
  }

  lemma RemBound(x: nat, q: nat)
    requires q > 0
    ensures Rem(x, q) < q
  {}

  /** Masking keeps the low halves of the lanes. */
  lemma {:induction false} MaskKeeps(x: nat, h: nat, q: nat, n: nat)
    requires q == Pow2(h)
    ensures And(x, Mask(q, n)) == LowHalves(x, q, n)
    decreases n
  {
    hide And, Quo, Rem, Pow2, Join;
    if n == 0 {
      AndZero(x);
    } else {
      LaneSplit(x, h, q);
      var hi, lo := Quo(x, q * q), Rem(x, q * q);
      JoinValue(Mask(q, n - 1), q - 1, 2 * h);
      AndJoin(hi, lo, Mask(q, n - 1), q - 1, 2 * h);
      MaskKeeps(hi, h, q, n - 1);
      JoinValue(LowHalves(hi, q, n - 1), Rem(x, q), 2 * h);
    }
  }

  lemma QAtMostSquare(q: nat)
    requires q > 0
    ensures q <= q * q
  {}

  lemma ModOfMod(x: nat, q: nat)
    requires q > 0
    ensures q * q > 0 && x % (q * q) % q == x % q
  {
    var p := q * q;
    assert x == (x / p) * p + x % p;
    assert (x / p) * p == ((x / p) * q) * q;
    ModShift(x % p, (x / p) * q, q);
  }

  ghost predicate HalfLane(q: nat) { q == 2 || q == 4 || q == 16 }

  /** Adding the low and the high halves of all lanes at once adds them lane by lane. */
  lemma {:induction false} HalvesAdd(x: nat, q: nat, n: nat)
    requires HalfLane(q)
    ensures LowHalves(x, q, n) + LowHalves(Quo(x, q), q, n) == Pairs(x, q, n)
    decreases n
  {
    hide Quo, Rem;
    if n != 0 {
      HalvesAdd(Quo(x, q * q), q, n - 1);
      DivisionsCommute(x, q);
    }
  }

  lemma DivisionsCommute(x: nat, q: nat)
    requires HalfLane(q)
    ensures Quo(Quo(x, q), q * q) == Quo(Quo(x, q * q), q)
    ensures Quo(Quo(x, q), q) == Quo(x, q * q)
    ensures Rem(x, q) + Rem(Quo(x, q), q) < q * q
  {
    if q == 2 {
      assert x / 2 / 4 == x / 4 / 2 && x / 2 / 2 == x / 4;
    } else if q == 4 {
      assert x / 4 / 16 == x / 16 / 4 && x / 4 / 4 == x / 16;
    } else {
      assert x / 16 / 256 == x / 256 / 16 && x / 16 / 16 == x / 256;
    }
  }

  /** Subtracting the odd bits leaves, in each 2-bit lane, the sum of its two bits. */
  lemma {:induction false} SubtractOdd(x: nat, n: nat)
    requires x < Pow2(2 * n)
    ensures x - LowHalves(Quo(x, 2), 2, n) == Pairs(x, 2, n)
    decreases n
  {
    if n != 0 {
      assert Pow2(2 * n) == 4 * Pow2(2 * (n - 1));
      SubtractOdd(x / 4, n - 1);
      DivisionsCommute(x, 2);
    }
  }

  /** Summing the halves of a lane cannot carry out of it, so the digit sum stays the same with digits twice as
      wide. */
  lemma {:induction false} PairsKeepSum(x: nat, q: nat, n: nat)
    requires HalfLane(q)
    ensures DigitSum(Pairs(x, q, n), q * q, n) == DigitSum(x, q, 2 * n)
    decreases n
  {
    hide Quo, Rem;
    if n != 0 {
      var p, d, rest := q * q, Rem(x, q) + Rem(Quo(x, q), q), Pairs(Quo(x, q * q), q, n - 1);
      DivisionsCommute(x, q);
      DigitAbove(rest, d, p);
      PairsKeepSum(Quo(x, p), q, n - 1);
      TwoDigits(x, q, n);
    }
  }

  lemma DigitAbove(rest: nat, d: nat, p: nat)
    requires d < p
    ensures Rem(rest * p + d, p) == d && Quo(rest * p + d, p) == rest
  {
    ModUnique(rest * p + d, p, rest, d);
  }

  lemma TwoDigits(x: nat, q: nat, n: nat)
    requires HalfLane(q) && n > 0
    ensures DigitSum(x, q, 2 * n) == Rem(x, q) + Rem(Quo(x, q), q) + DigitSum(Quo(x, q * q), q, 2 * (n - 1))
  {
    hide Quo, Rem;
    DivisionsCommute(x, q);
    assert DigitSum(Quo(x, q), q, 2 * n - 1) == Rem(Quo(x, q), q) + DigitSum(Quo(Quo(x, q), q), q, 2 * n - 2);
  }

  lemma {:induction false} BinaryDigitSum(x: nat, n: nat)
    requires x < Pow2(n)
    ensures DigitSum(x, 2, n) == Ones(x) <= n
    decreases n
  {
    if n != 0 { BinaryDigitSum(x / 2, n - 1); }
  }

  /** The multiplication collects four bytes that sum to at most 32 in the top byte. */
  lemma CollectBytes(b0: nat, b1: nat, b2: nat, b3: nat)
    requires b0 + b1 + b2 + b3 <= 32
    ensures var r := ((b3 * 256 + b2) * 256 + b1) * 256 + b0;
      Shr(Wrap(r * POWERS_OF_256), 24) == b0 + b1 + b2 + b3
  {
    var r := ((b3 * 256 + b2) * 256 + b1) * 256 + b0;
    var sum := b0 + b1 + b2 + b3;
    var low := (b0 + b1 + b2) * 65536 + (b0 + b1) * 256 + b0;
    var over := (b1 + b2 + b3) + (b2 + b3) * 256 + b3 * 65536;
    assert r * POWERS_OF_256 == over * MODULUS + (sum * 0x100_0000 + low);
    ModUnique(r * POWERS_OF_256, MODULUS, over, sum * 0x100_0000 + low);
    BytePowers();
    ShiftIsDivision(sum * 0x100_0000 + low, 24, 0x100_0000);
  }

  /** A word is made of its four bytes, and DigitSum adds them. */
  lemma FourBytes(r: nat)
    requires r < MODULUS
    ensures var (b0, b1, b2, b3) := (r % 256, r / 256 % 256, r / 65536 % 256, r / 0x100_0000);
      && r == ((b3 * 256 + b2) * 256 + b1) * 256 + b0
      && DigitSum(r, 256, 4) == b0 + b1 + b2 + b3
  {
    assert r / 256 / 256 == r / 65536 && r / 65536 / 256 == r / 0x100_0000 < 256;
    assert DigitSum(r / 256 / 256, 256, 2) == r / 65536 % 256 + r / 0x100_0000 % 256;
  }

  lemma MasksAre()
    ensures Mask(2, 16) == MASK01 && Mask(4, 8) == MASK0011 && Mask(16, 4) == MASK00001111
  {
    assert Mask(2, 8) == 0x5555;
    assert Mask(4, 4) == 0x3333;
  }

  /** One halving stage of the code: add the low and the high halves of all lanes. */
  lemma StageExact(x: nat, h: nat, q: nat, n: nat)
    requires HalfLane(q) && q == Pow2(h) && Mask(q, n) <= 0x7FFF_FFFF
    ensures Wrap(And(x, Mask(q, n)) + And(Shr(x, h), Mask(q, n))) == Pairs(x, q, n) < MODULUS
  {
    hide And, Shr, Mask, LowHalves, Pairs;
    AndAtMost(x, Mask(q, n));
    AndAtMost(Shr(x, h), Mask(q, n));
    WrapTurn(And(x, Mask(q, n)) + And(Shr(x, h), Mask(q, n)));
    ShiftIsDivision(x, h, q);
    MaskKeeps(x, h, q, n);
    MaskKeeps(Shr(x, h), h, q, n);
    HalvesAdd(x, q, n);
  }

  /** CPU_PopCnt32() returns the number of set bits of every 32-bit value. */
  lemma PopCntExact(value: nat)
    requires value < MODULUS
    ensures PopCnt32(value) == Ones(value)
  {
    hide And, Shr, Mask, LowHalves, Pairs, Ones, DigitSum, Wrap;
    BytePowers();
    MasksAre();
    assert Pow2(1) == 2 && Pow2(2) == 4 && Pow2(4) == 16;
    var r1 := Pairs(value, 2, 16);
    FirstStage(value);
    var r2 := Pairs(r1, 4, 8);
    StageExact(r1, 2, 4, 8);
    var r3 := Pairs(r2, 16, 4);
    StageExact(r2, 4, 16, 4);
    PairsKeepSum(value, 2, 16);
    PairsKeepSum(r1, 4, 8);
    PairsKeepSum(r2, 16, 4);
    BinaryDigitSum(value, 32);
    FourBytes(r3);
    CollectBytes(r3 % 256, r3 / 256 % 256, r3 / 65536 % 256, r3 / 0x100_0000);
  }

  lemma FirstStage(value: nat)
    requires value < MODULUS
    ensures Wrap(value - And(Shr(value, 1), MASK01)) == Pairs(value, 2, 16) < MODULUS
  {
    hide And, Shr, Mask, LowHalves, Pairs;
    BytePowers();
    MasksAre();
    ShiftIsDivision(value, 1, 2);
    MaskKeeps(Shr(value, 1), 1, 2, 16);
    SubtractOdd(value, 16);
    WrapTurn(value - And(Shr(value, 1), MASK01));
  }
}
