/** The 32-bit power-of-two macros of lib_math.h, next to what they mean on unbounded integers. */
module Rounding {
  import opened Bits

  /** One more than the largest value of CPU_ADDR and CPU_SIZE_T. */
  const MODULUS: nat := 0x1_0000_0000

  /** sizeof(CPU_ALIGN), which is also sizeof(void *) on the 32-bit target. */
  const WORD: nat := 4

  /** The value an unsigned 32-bit expression keeps of x. */
  function Wrap(x: int): (r: nat)
    ensures r < MODULUS
  {
    x % MODULUS
  }

  /** MATH_IS_PWR2 */
  predicate IsPwr2(nbr: nat)
    ensures IsPwr2(nbr) <==> IsPow2(nbr)
  {
    nbr != 0 && (PowerTest(nbr); And(nbr, nbr - 1) == 0)
  }

  /** MATH_ROUND_INC_UP_PWR2, computed on 32-bit words. */
  function RoundIncUpPwr2(nbr: nat, inc: nat): nat
    requires nbr < MODULUS && 0 < inc < MODULUS
  {
    WordModuli();
    Wrap(And(nbr, Not(32, inc - 1)) + if And(nbr, inc - 1) == 0 then 0 else inc)
  }

  /** The least multiple of m that is at least n. */
  function CeilTo(n: nat, m: nat): (r: nat)
    requires m > 0
    ensures n <= r < n + m
  {
    if n == 0 then 0 else if n <= m then m else m + CeilTo(n - m, m)
  }

  /** An alignment the macros accept: a power of two that fits a 32-bit word. */
  ghost predicate IsAlign(m: nat) {
    0 < m < MODULUS && IsPow2(m)
  }

  // ----- what CeilTo means -----

  lemma {:induction false} CeilIsMultiple(n: nat, m: nat)
    requires m > 0
    ensures CeilTo(n, m) % m == 0
  {
    if n == 0 || n <= m {
      ModUnique(0, m, 0, 0);
      ModUnique(m, m, 1, 0);
    } else {
      CeilIsMultiple(n - m, m);
      ModShift(CeilTo(n - m, m), 1, m);
    }
  }

  lemma CeilIsLeast(n: nat, m: nat, x: nat)
    requires m > 0 && x % m == 0 && n <= x
    ensures CeilTo(n, m) <= x
  {
    hide CeilTo;
    CeilIsMultiple(n, m);
    var r := CeilTo(n, m);
    var c, q := r / m, x / m;
    assert r == c * m && x == q * m && (q + 1) * m == x + m;
    if q < c {
      MulMonotone(q + 1, c, m);
    } else {
      MulMonotone(c, q, m);
    }
  }

  /** In closed form: clear the remainder, and add one increment unless there was none. */
  lemma CeilFormula(n: nat, m: nat, r: nat)
    requires m > 0 && r == n % m
    ensures CeilTo(n, m) == n - r + if r == 0 then 0 else m
  {
    hide CeilTo;
    var q := n / m + if r == 0 then 0 else 1;
    var c := q * m;
    assert c == n - r + if r == 0 then 0 else m;
    ModUnique(c, m, q, 0);
    CeilIsLeast(n, m, c);
    CeilIsMultiple(n, m);
    var t := CeilTo(n, m) / m;
    assert CeilTo(n, m) == t * m;
    if t < q {
      MulMonotone(t, q - 1, m);
    } else {
      MulMonotone(q, t, m);
    }
  }

  /** A coarser power of two is a multiple of a finer one. */
  lemma AlignDivides(a: nat, b: nat)
    requires IsPow2(a) && IsPow2(b) && a <= b
    ensures a > 0 && b % a == 0
  {
    var j: nat, k: nat :| a == Pow2(j) && b == Pow2(k);
    if k < j {
      Pow2Monotone(k, j);
    } else {
      Pow2Add(k - j, j);
      ModUnique(b, a, Pow2(k - j), 0);
    }
  }

  lemma MultipleOfMultiple(x: nat, b: nat, a: nat)
    requires a > 0 && b > 0 && x % b == 0 && b % a == 0
    ensures x % a == 0
  {
    var q, r := x / b, b / a;
    assert x == q * (r * a) == (q * r) * a;
    ModUnique(x, a, q * r, 0);
  }

  lemma MultiplesAdd(x: nat, y: nat, i: nat, m: nat)
    requires m > 0 && x % m == 0 && y % m == 0
    ensures (x + i * y) % m == 0
  {
    var q, r := x / m, y / m;
    assert x == q * m && y == r * m;
    assert i * y == i * (r * m) == (i * r) * m;
    ModShift(x, i * r, m);
  }

  // ----- the macro computes CeilTo, up to the wrap -----

  lemma ModulusIsMultiple(m: nat)
    requires IsAlign(m)
    ensures MODULUS % m == 0
  {
    WordModuli();
    AlignDivides(m, MODULUS);
  }

  lemma {:induction false} CeilSteps(n: nat, q: nat, m: nat)
    requires m > 0 && n > 0
    ensures CeilTo(n + q * m, m) == CeilTo(n, m) + q * m
  {
    if q != 0 {
      assert n + q * m == (n + (q - 1) * m) + m;
      CeilSteps(n, q - 1, m);
    }
  }

  /** Rounding up commutes with going once around the address space. */
  lemma CeilShift(n: nat, m: nat)
    requires IsAlign(m)
    ensures CeilTo(n + MODULUS, m) == CeilTo(n, m) + MODULUS
  {
    ModulusIsMultiple(m);
    var q := MODULUS / m;
    assert MODULUS == q * m;
    if n == 0 {
      CeilIsLeast(MODULUS, m, MODULUS);
    } else {
      CeilSteps(n, q, m);
    }
  }

  /** The two masks of the macro are a remainder and its complement. */
  lemma MasksAreRemainder(n: nat, inc: nat)
    requires IsAlign(inc) && n < MODULUS
    ensures Pow2(32) == MODULUS
    ensures And(n, inc - 1) == n % inc && And(n, Not(32, inc - 1)) == n - n % inc
  {
    WordModuli();
    var k: nat :| inc == Pow2(k);
    if k > 32 { Pow2Monotone(32, k); }
    AndLowMask(n, k);
    AndHighMask(n, k, 32);
    Split(n, k);
    JoinValue(Shr(n, k), Low(n, k), k);
    JoinValue(Shr(n, k), 0, k);
    ShiftIsDivision(n, k, inc);
  }

  lemma WrapTurn(x: int)
    ensures Wrap(x + MODULUS) == Wrap(x)
    ensures 0 <= x < MODULUS ==> Wrap(x) == x
  {}

  lemma RoundWordExact(n: nat, inc: nat)
    requires IsAlign(inc) && n < MODULUS
    ensures RoundIncUpPwr2(n, inc) == Wrap(CeilTo(n, inc))
  {
    MasksAreRemainder(n, inc);
    CeilFormula(n, inc, And(n, inc - 1));
  }

  /** The 32-bit macro rounds up exactly, and what it loses is whole turns of the address space. */
  lemma {:induction false} RoundExact(n: nat, inc: nat)
    requires IsAlign(inc)
    ensures RoundIncUpPwr2(Wrap(n), inc) == Wrap(CeilTo(n, inc))
  {
    hide RoundIncUpPwr2, CeilTo;
    if n < MODULUS {
      RoundWordExact(n, inc);
    } else {
      var n' := n - MODULUS;
      calc {
        RoundIncUpPwr2(Wrap(n), inc);
        { WrapTurn(n'); }
        RoundIncUpPwr2(Wrap(n'), inc);
        { RoundExact(n', inc); }
        Wrap(CeilTo(n', inc));
        { WrapTurn(CeilTo(n', inc)); }
        Wrap(CeilTo(n', inc) + MODULUS);
        { CeilShift(n', inc); }
        Wrap(CeilTo(n, inc));
      }
    }
  }

  lemma CeilOfMultiple(n: nat, m: nat)
    requires m > 0 && n % m == 0
    ensures CeilTo(n, m) == n
  {
    CeilIsLeast(n, m, n);
  }
}
