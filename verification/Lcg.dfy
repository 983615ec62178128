/** The random number generator of lib_math.c: a linear congruential generator modulo 2^31. */
module Lcg {
  import opened Bits
  import opened Rounding

  const SEED_INIT: nat := 1             // RAND_SEED_INIT_VAL
  const PARAM_M: nat := 0x7FFF_FFFF     // RAND_LCG_PARAM_M
  const PARAM_A: nat := 1103515245      // RAND_LCG_PARAM_A
  const PARAM_B: nat := 12345           // RAND_LCG_PARAM_B

  /** Math_RandSeed(), in 32-bit arithmetic. */
  function RandSeed(seed: nat): nat {
    Wrap(Wrap(PARAM_A * seed) + PARAM_B) % (PARAM_M + 1)
  }

  /** The n-th number drawn after seeding, counted from 0. */
  function Out(seed: nat, n: nat): nat {
    if n == 0 then RandSeed(seed) else RandSeed(Out(seed, n - 1))
  }

  // ----- the same recurrence without any modulus -----

  function Iter(n: nat, x: int): int {
    if n == 0 then x else PARAM_A * Iter(n - 1, x) + PARAM_B
  }

  lemma {:induction false} IterAdd(m: nat, n: nat, x: int)
    ensures Iter(m + n, x) == Iter(m, Iter(n, x))
  {
    if m != 0 { IterAdd(m - 1, n, x); }
  }

  /** The wraps modulo 2^32 are whole multiples of 2^31. */
  lemma WrapHarmless(z: nat)
    ensures Wrap(Wrap(z) + PARAM_B) % (PARAM_M + 1) == (z + PARAM_B) % (PARAM_M + 1)
  {
    var h := PARAM_M + 1;
    var w := Wrap(z) + PARAM_B;
    assert z == Wrap(z) + 2 * (z / MODULUS) * h;
    ModShift(w, 2 * (z / MODULUS), h);
    assert w == Wrap(w) + 2 * (w / MODULUS) * h;
    ModShift(Wrap(w), 2 * (w / MODULUS), h);
  }

  lemma SameStep(x: int, y: int)
    requires x % (PARAM_M + 1) == y % (PARAM_M + 1)
    ensures (PARAM_A * x + PARAM_B) % (PARAM_M + 1) == (PARAM_A * y + PARAM_B) % (PARAM_M + 1)
  {
    var h := PARAM_M + 1;
    var q := x / h - y / h;
    assert x == y + q * h;
    ModShift(PARAM_A * y + PARAM_B, PARAM_A * q, h);
  }

  lemma RandSeedIs(x: nat)
    ensures RandSeed(x) == (PARAM_A * x + PARAM_B) % (PARAM_M + 1)
  {
    hide Wrap;
    WrapHarmless(PARAM_A * x);
  }

  /** Neither the wrap modulo 2^32 nor the repeated reduction modulo 2^31 changes any output. */
  lemma {:induction false} OutIsIter(seed: nat, n: nat)
    ensures Out(seed, n) == Iter(n + 1, seed) % (PARAM_M + 1)
  {
    hide RandSeed;
    if n == 0 {
      RandSeedIs(seed);
      assert Iter(1, seed) == PARAM_A * Iter(0, seed) + PARAM_B;
    } else {
      OutIsIter(seed, n - 1);
      RandSeedIs(Out(seed, n - 1));
      ReducedTwice(Iter(n, seed));
      SameStep(Out(seed, n - 1), Iter(n, seed));
    }
  }

  lemma ReducedTwice(x: int)
    ensures x % (PARAM_M + 1) % (PARAM_M + 1) == x % (PARAM_M + 1)
  {}

  // ----- doubling the step -----

  /** Iterating 2^k times is the affine map x -> (1 + 2^(k+2) a) x + 2^k (2 b + 1), with these a and b. */
  function CoefA(k: nat): int {
    if k == 0 then 275878811 else CoefA(k - 1) + 2 * Pow2(k - 1) * CoefA(k - 1) * CoefA(k - 1)
  }

  function CoefB(k: nat): int {
    if k == 0 then 6172 else CoefB(k - 1) + Pow2(k - 1) * CoefA(k - 1) * (2 * CoefB(k - 1) + 1)
  }

  function Affine(p: int, a: int, b: int, x: int): int { (1 + 4 * p * a) * x + p * (2 * b + 1) }

  /** Composing the map with itself. */
  lemma AffineTwice(p: int, a: int, b: int, x: int)
    ensures Affine(p, a, b, Affine(p, a, b, x)) == Affine(2 * p, a + 2 * p * a * a, b + p * a * (2 * b + 1), x)
  {
    var u, v := 1 + 4 * p * a, p * (2 * b + 1);
    assert Affine(p, a, b, Affine(p, a, b, x)) == u * (u * x + v) + v == (u * u) * x + (u + 1) * v;
    var pa := p * a;
    assert u * u == 1 + 8 * pa + 16 * (pa * pa);
    assert 4 * (2 * p) * (a + 2 * p * a * a) == 8 * pa + 16 * (pa * pa) by {
      assert p * (p * a * a) == pa * pa;
    }
    var w := 2 * b + 1;
    assert (u + 1) * v == (2 + 4 * pa) * (p * w) == (2 * p) * (w + 2 * (pa * w));
    assert 2 * (b + p * a * w) + 1 == w + 2 * (pa * w);
  }

  lemma {:induction false} IterIsAffine(k: nat, x: int)
    ensures Iter(Pow2(k), x) == Affine(Pow2(k), CoefA(k), CoefB(k), x)
  {
    if k == 0 {
      assert Iter(1, x) == PARAM_A * Iter(0, x) + PARAM_B;
    } else {
      var p, a, b := Pow2(k - 1), CoefA(k - 1), CoefB(k - 1);
      IterAdd(p, p, x);
      IterIsAffine(k - 1, x);
      IterIsAffine(k - 1, Iter(p, x));
      AffineTwice(p, a, b, x);
    }
  }

  /** d is a multiple of m. */
  ghost predicate Multiple(d: int, m: int) { exists q: int :: d == Times(q, m) }

  function Times(q: int, m: int): int { q * m }

  lemma MultipleIff(d: int, m: int)
    requires m > 0
    ensures Multiple(d, m) <==> d % m == 0
  {
    if Multiple(d, m) {
      var q: int :| d == Times(q, m);
      ModUnique(d, m, q, 0);
    }
    if d % m == 0 {
      assert d == Times(d / m, m);
    }
  }

  lemma MultipleSum(d: int, e: int, m: int)
    requires Multiple(e, m)
    ensures Multiple(d + e, m) <==> Multiple(d, m)
    ensures Multiple(-e, m)
  {
    var q: int :| e == Times(q, m);
    if Multiple(d + e, m) {
      var r: int :| d + e == Times(r, m);
      assert d == Times(r - q, m);
    }
    if Multiple(d, m) {
      var r: int :| d == Times(r, m);
      assert d + e == Times(r + q, m);
    }
    assert -e == Times(-q, m);
  }

  /** 2^k steps add 2^k, modulo 2^(k+1). */
  lemma StepDoubled(k: nat, x: int)
    ensures Multiple(Iter(Pow2(k), x) - x - Pow2(k), 2 * Pow2(k))
  {
    hide Iter, CoefA, CoefB;
    IterIsAffine(k, x);
    var p, a, b := Pow2(k), CoefA(k), CoefB(k);
    assert Affine(p, a, b, x) - x - p == 4 * p * a * x + 2 * p * b == Times(2 * a * x + b, 2 * p);
  }

  /** j times 2^k steps add j times 2^k, modulo 2^(k+1). */
  lemma {:induction false} StepsDoubled(k: nat, j: nat, x: int)
    ensures Multiple(Iter(j * Pow2(k), x) - x - j * Pow2(k), 2 * Pow2(k))
  {
    hide CoefA, CoefB, Multiple, Pow2;
    var p := Pow2(k);
    if j == 0 {
      assert 0 * p == 0;
      MultipleZero(2 * p);
    } else {
      var n := (j - 1) * p;
      assert j * p == p + n;
      IterAdd(p, n, x);
      StepsDoubled(k, j - 1, x);
      StepDoubled(k, Iter(n, x));
      MultipleSum(Iter(n, x) - x - n, Iter(p, Iter(n, x)) - Iter(n, x) - p, 2 * p);
    }
  }

  lemma MultipleZero(m: int)
    ensures Multiple(0, m)
  {
    assert 0 == Times(0, m);
  }

  // ----- full period -----

  lemma MultipleHalves(d: int, p: int)
    requires Multiple(d, 2 * p)
    ensures Multiple(d, p)
  {
    var q: int :| d == Times(q, 2 * p);
    assert d == Times(2 * q, p);
  }

  /** Modulo 2^k the sequence comes back to a value after 2^k steps and not before. */
  lemma {:induction false} ReturnsIff(k: nat, x: int, m: nat, n: nat)
    requires m >= n
    ensures Multiple(Iter(m, x) - Iter(n, x), Pow2(k)) <==> Multiple(m - n, Pow2(k))
  {
    hide Iter, Multiple;
    var d := Iter(m, x) - Iter(n, x);
    if k == 0 {
      MultipleOfOne(d);
      MultipleOfOne(m - n);
    } else {
      var p := Pow2(k - 1);
      ReturnsIff(k - 1, x, m, n);
      if Multiple(m - n, p) {
        var j := WholeSteps(m - n, p);
        IterAdd(m - n, n, x);
        StepsDoubled(k - 1, j, Iter(n, x));
        MultipleSum(m - n, d - (m - n), 2 * p);
      } else {
        if Multiple(d, 2 * p) { MultipleHalves(d, p); }
        if Multiple(m - n, 2 * p) { MultipleHalves(m - n, p); }
      }
    }
  }

  lemma MultipleOfOne(d: int)
    ensures Multiple(d, 1)
  {
    assert d == Times(d, 1);
  }

  lemma WholeSteps(d: nat, p: nat) returns (j: nat)
    requires p > 0 && Multiple(d, p)
    ensures d == j * p
  {
    MultipleIff(d, p);
    j := d / p;
  }

  /** A multiple of p is a multiple of 2p, or p more than one. */
  lemma HalfMultiple(d: int, p: int)
    requires Multiple(d, p)
    ensures Multiple(d, 2 * p) || Multiple(d - p, 2 * p)
  {
    var q: int :| d == Times(q, p);
    if q % 2 == 0 {
      TimesDouble(q / 2, p);
    } else {
      TimesDouble(q / 2, p);
      assert Times(2 * (q / 2) + 1, p) == Times(2 * (q / 2), p) + p;
    }
  }

  lemma TimesDouble(q: int, p: int)
    ensures Times(2 * q, p) == Times(q, 2 * p)
  {}

  /** Modulo 2^k every value is reached within 2^k steps. */
  lemma {:induction false} Reaches(k: nat, x: int, v: int) returns (n: nat)
    ensures n < Pow2(k) && Multiple(Iter(n, x) - v, Pow2(k))
  {
    hide Iter, CoefA, CoefB, Multiple;
    if k == 0 {
      n := 0;
      MultipleOfOne(Iter(0, x) - v);
    } else {
      var p := Pow2(k - 1);
      n := Reaches(k - 1, x, v);
      var d := Iter(n, x) - v;
      HalfMultiple(d, p);
      if !Multiple(d, 2 * p) {
        var e := Iter(p, Iter(n, x)) - Iter(n, x) - p;
        StepDoubled(k - 1, Iter(n, x));
        MultipleSum(d - p, e, 2 * p);
        MultipleItself(2 * p);
        MultipleSum(d - p + e, 2 * p, 2 * p);
        IterAdd(p, n, x);
        n := p + n;
      }
    }
  }

  lemma MultipleItself(m: int)
    ensures Multiple(m, m)
  {
    assert m == Times(1, m);
  }

  lemma OutModulus()
    ensures PARAM_M + 1 == Pow2(31)
  {
    WordModuli();
  }

  lemma CongruentIff(x: int, y: int, m: int)
    requires m > 0
    ensures x % m == y % m <==> Multiple(x - y, m)
  {
    MultipleIff(x - y, m);
    if x % m == y % m {
      assert x - y == Times(x / m - y / m, m);
    }
    if Multiple(x - y, m) {
      var q: int :| x - y == Times(q, m);
      ModShift(y, q, m);
    }
  }

  /** Two draws are equal exactly when they are a multiple of 2^31 draws apart, whatever the seed. */
  lemma DrawsEqualIff(seed: nat, m: nat, n: nat)
    requires m >= n
    ensures Out(seed, m) == Out(seed, n) <==> (m - n) % (PARAM_M + 1) == 0
  {
    hide Out, Iter, Multiple;
    OutModulus();
    OutIsIter(seed, m);
    OutIsIter(seed, n);
    ReturnsIff(31, seed, m + 1, n + 1);
    CongruentIff(Iter(m + 1, seed), Iter(n + 1, seed), PARAM_M + 1);
    MultipleIff(m - n, PARAM_M + 1);
  }

  ghost predicate Drawn(seed: nat, v: nat) { exists n: nat :: n <= PARAM_M && Out(seed, n) == v }

  /** Full period: from every seed, 2^31 consecutive draws take every value below 2^31 exactly once. */
  lemma FullPeriod(seed: nat)
    ensures forall v: nat | v <= PARAM_M :: Drawn(seed, v)
    ensures forall m: nat, n: nat | n < m <= PARAM_M :: Out(seed, m) != Out(seed, n)
    ensures forall n: nat :: Out(seed, n) <= PARAM_M
  {
    hide Out, Iter, Multiple;
    OutModulus();
    forall v: nat | v <= PARAM_M ensures Drawn(seed, v) {
      var n := Reaches(31, Iter(1, seed), v);
      IterAdd(n, 1, seed);
      OutIsIter(seed, n);
      CongruentIff(Iter(n + 1, seed), v, PARAM_M + 1);
      assert Out(seed, n) == v;
    }
    forall m: nat, n: nat | n < m <= PARAM_M ensures Out(seed, m) != Out(seed, n) {
      DrawsEqualIff(seed, m, n);
    }
    forall n: nat ensures Out(seed, n) <= PARAM_M {
      OutIsIter(seed, n);
    }
  }

  // ----- the period of each bit -----

  function BitAt(x: nat, k: nat): nat { Shr(x, k) % 2 }

  /** Bit k is unchanged, or flipped, when a multiple of 2^(k+1), and perhaps 2^k, is added. */
  lemma BitAfter(x: nat, y: nat, k: nat, e: nat)
    requires e < 2 && Multiple(x - y - e * Pow2(k), 2 * Pow2(k))
    ensures BitAt(x, k) == (BitAt(y, k) + e) % 2
  {
    hide Shr, Low, Pow2, Times;
    var p := Pow2(k);
    var q: int :| x - y - e * p == Times(q, 2 * p);
    Split(x, k);
    Split(y, k);
    JoinValue(Shr(x, k), Low(x, k), k);
    JoinValue(Shr(y, k), Low(y, k), k);
    SameHigh(Shr(x, k), Low(x, k), Shr(y, k), Low(y, k), e, q, p);
    Parity(Shr(x, k), Shr(y, k), e, q);
  }

  lemma Parity(h: int, g: int, e: int, q: int)
    requires h == g + e + 2 * q
    ensures h % 2 == (g % 2 + e) % 2
  {}

  lemma SameHigh(h: int, l: int, g: int, r: int, e: int, q: int, p: int)
    requires 0 <= l < p && 0 <= r < p && h * p + l - (g * p + r) - e * p == Times(q, 2 * p)
    ensures h == g + e + 2 * q
  {
    var g' := g + e + 2 * q;
    assert g' * p == g * p + e * p + Times(q, 2 * p);
    QuotientAtMost(h, l, g', r, p);
    QuotientAtMost(g', r, h, l, p);
  }

  /** Some multiple of d lands on 2^k modulo 2^(k+1), unless d is itself a multiple of 2^(k+1). */
  lemma {:induction false} HitsHalf(k: nat, d: nat) returns (i: nat)
    requires !Multiple(d, 2 * Pow2(k))
    ensures Multiple(i * d - Pow2(k), 2 * Pow2(k))
  {
    hide Multiple;
    var p := Pow2(k);
    if Multiple(d, p) {
      HalfMultiple(d, p);
      i := 1;
    } else {
      if k == 0 { MultipleOfOne(d); }
      var j := HitsHalf(k - 1, d);
      MultipleTwice(j * d - p / 2, p);
      i := 2 * j;
      assert i * d - p == 2 * (j * d - p / 2);
    }
  }

  lemma MultipleTwice(d: int, m: int)
    requires Multiple(d, m)
    ensures Multiple(2 * d, 2 * m)
  {
    var q: int :| d == Times(q, m);
    assert 2 * d == Times(q, 2 * m);
  }

  /** d draws later, bit k of every draw is what it was. */
  ghost predicate BitPeriod(seed: nat, k: nat, d: nat) {
    forall n: nat :: BitAt(Out(seed, n + d), k) == BitAt(Out(seed, n), k)
  }

  /** Draws i steps apart differ by a multiple of 2^k plus i, on their low k + 1 bits. */
  lemma DrawsApart(seed: nat, k: nat, n: nat, i: nat, e: nat)
    requires k <= 30 && e < 2 && Multiple(i - e * Pow2(k), 2 * Pow2(k))
    ensures BitAt(Out(seed, n + i), k) == (BitAt(Out(seed, n), k) + e) % 2
  {
    hide Iter, Out, Multiple, BitAt;
    var p := Pow2(k);
    var x, y := Out(seed, n + i), Out(seed, n);
    var x', y' := Iter(n + i + 1, seed), Iter(n + 1, seed);
    OutIsIter(seed, n + i);
    OutIsIter(seed, n);
    OutLowBits(x', k);
    OutLowBits(y', k);
    assert Multiple(x' - y' - e * p, 2 * p) by {
      ItersApart(k, n, i, e, seed);
    }
    MultipleSum(x' - y' - e * p, x - x', 2 * p);
    MultipleSum(x - y' - e * p, y - y', 2 * p);
    MultipleSum(x - y' - e * p, -(y - y'), 2 * p);
    BitAfter(x, y, k, e);
  }

  /** Reducing modulo 2^31 keeps the low k + 1 bits. */
  lemma OutLowBits(z: int, k: nat)
    requires k <= 30
    ensures Multiple(z % (PARAM_M + 1) - z, 2 * Pow2(k))
  {
    hide Pow2, Multiple;
    OutModulus();
    Pow2Add(30 - k, k + 1);
    RemainderMultiple(z, PARAM_M + 1);
    MultipleCoarse(z % (PARAM_M + 1) - z, Pow2(30 - k), Pow2(k + 1));
    DoublePow2(k);
  }

  lemma DoublePow2(k: nat)
    ensures Pow2(k + 1) == 2 * Pow2(k)
  {}

  lemma RemainderMultiple(z: int, m: int)
    requires m > 0
    ensures Multiple(z % m - z, m)
  {
    assert z % m - z == Times(-(z / m), m);
  }

  lemma MultipleCoarse(d: int, w: int, m: int)
    requires Multiple(d, w * m)
    ensures Multiple(d, m)
  {
    var q: int :| d == Times(q, w * m);
    assert d == Times(q * w, m);
  }

  lemma ItersApart(k: nat, n: nat, i: nat, e: nat, x: int)
    requires e < 2 && Multiple(i - e * Pow2(k), 2 * Pow2(k))
    ensures Multiple(Iter(n + i + 1, x) - Iter(n + 1, x) - e * Pow2(k), 2 * Pow2(k))
  {
    hide Iter, Multiple;
    var p := Pow2(k);
    MultipleHalves(i - e * p, p);
    MultipleItself(p);
    MultipleZero(p);
    MultipleSum(i - e * p, e * p, p);
    var j := WholeSteps(i, p);
    IterAdd(i, n + 1, x);
    StepsDoubled(k, j, Iter(n + 1, x));
    MultipleSum(i - e * p, Iter(n + i + 1, x) - Iter(n + 1, x) - i, 2 * p);
  }

  /** Bit k of the draws has the period 2^(k+1): d is a period exactly when it is a multiple of 2^(k+1). */
  lemma BitPeriodIff(seed: nat, k: nat, d: nat)
    requires k <= 30
    ensures BitPeriod(seed, k, d) <==> d % (2 * Pow2(k)) == 0
  {
    hide Out, BitAt, Multiple;
    MultipleIff(d, 2 * Pow2(k));
    if Multiple(d, 2 * Pow2(k)) {
      forall n: nat ensures BitAt(Out(seed, n + d), k) == BitAt(Out(seed, n), k) {
        DrawsApart(seed, k, n, d, 0);
        BitIsBit(Out(seed, n), k);
      }
    } else {
      NoOtherPeriod(seed, k, d);
    }
  }

  lemma NoOtherPeriod(seed: nat, k: nat, d: nat)
    requires k <= 30 && !Multiple(d, 2 * Pow2(k))
    ensures !BitPeriod(seed, k, d)
  {
    hide Out, BitAt, Multiple;
    if BitPeriod(seed, k, d) {
      var i := HitsHalf(k, d);
      PeriodTimes(seed, k, d, i);
      BitIsBit(Out(seed, 0), k);
      DrawsApart(seed, k, 0, i * d, 1);
    }
  }

  lemma BitIsBit(x: nat, k: nat)
    ensures BitAt(x, k) < 2
  {}

  lemma {:induction false} PeriodTimes(seed: nat, k: nat, d: nat, i: nat)
    requires BitPeriod(seed, k, d)
    ensures BitAt(Out(seed, i * d), k) == BitAt(Out(seed, 0), k)
  {
    hide Out, BitAt;
    if i == 0 {
      assert i * d == 0;
    } else {
      PeriodTimes(seed, k, d, i - 1);
      assert i * d == (i - 1) * d + d;
    }
  }

  // ----- Math_RandSeedCur -----

  /** The sequence that starts with seed 1, as it does when no seed has been set. */
  lemma FirstDraws()
    ensures SEED_INIT == 1
    ensures Out(1, 0) == 1103527590 && Out(1, 1) == 377401575
  {
    assert RandSeed(1) == 1103527590;
    assert RandSeed(1103527590) == 377401575;
  }

  class MathRand {
    var RandSeedCur: nat

    /** Math_Init() */
    constructor ()
      ensures RandSeedCur == SEED_INIT
    {
      RandSeedCur := SEED_INIT;
    }

    method RandSetSeed(seed: nat)
      requires seed < MODULUS
      modifies this
      ensures RandSeedCur == seed
    {
      RandSeedCur := seed;
    }

    method Rand() returns (randNbr: nat)
      modifies this
      ensures randNbr == RandSeedCur == RandSeed(old(RandSeedCur))
      ensures forall seed: nat, n: nat :: old(RandSeedCur) == Out(seed, n) ==> randNbr == Out(seed, n + 1)
      ensures randNbr == Out(old(RandSeedCur), 0)
    {
      var seed := RandSeedCur;
      randNbr := RandSeed(seed);
      RandSeedCur := randNbr;
    }
  }
}
