/** Unsigned bitwise arithmetic on natural numbers.

    A machine word of w bits is a natural number below Pow2(w); `&`, `|`, `~` and `>>` are defined digit
    by digit, so every fact below holds at any width. */
module Bits {

  function Pow2(k: nat): (r: nat)
    ensures r >= 1
  {
    if k == 0 then 1 else 2 * Pow2(k - 1)
  }

  /** `x & y`. */
  function And(x: nat, y: nat): nat
    decreases x
  {
    if x == 0 || y == 0 then 0
    else 2 * And(x / 2, y / 2) + if x % 2 == 1 && y % 2 == 1 then 1 else 0
  }

  /** `x | y`. */
  function Or(x: nat, y: nat): nat
    decreases x + y
  {
    if x == 0 then y
    else if y == 0 then x
    else 2 * Or(x / 2, y / 2) + if x % 2 == 1 || y % 2 == 1 then 1 else 0
  }

  /** `~x` in a word of w bits. */
  function Not(w: nat, x: nat): nat
    requires x < Pow2(w)
  {
    Pow2(w) - 1 - x
  }

  /** `x >> k`. */
  function Shr(x: nat, k: nat): nat {
    if k == 0 then x else Shr(x / 2, k - 1)
  }

  /** The low k bits of x. */
  function Low(x: nat, k: nat): (r: nat)
    ensures r < Pow2(k)
  {
    if k == 0 then 0 else 2 * Low(x / 2, k - 1) + x % 2
  }

  /** The word whose low k bits are those of l and whose remaining bits are h: `(h << k) | l`. */
  function Join(h: nat, l: nat, k: nat): nat {
    if k == 0 then h else 2 * Join(h, l / 2, k - 1) + l % 2
  }

  // ----- arithmetic -----

  lemma {:induction false} Pow2Add(a: nat, b: nat)
    ensures Pow2(a + b) == Pow2(a) * Pow2(b)
  {
    if a != 0 {
      Pow2Add(a - 1, b);
      assert Pow2(a + b) == 2 * (Pow2(a - 1) * Pow2(b)) == (2 * Pow2(a - 1)) * Pow2(b);
    }
  }

  /** The moduli of the word sizes in use. */
  lemma WordModuli()
    ensures Pow2(8) == 0x100 && Pow2(16) == 0x1_0000 && Pow2(32) == 0x1_0000_0000
    ensures Pow2(31) == 0x8000_0000 && Pow2(64) == 0x1_0000_0000_0000_0000
  {
    assert Pow2(4) == 16;
    Pow2Add(4, 4);
    Pow2Add(8, 8);
    Pow2Add(16, 16);
    Pow2Add(32, 32);
  }

  lemma {:induction false} Pow2Monotone(a: nat, b: nat)
    requires a <= b
    ensures Pow2(a) <= Pow2(b)
    ensures a < b ==> 2 * Pow2(a) <= Pow2(b)
  {
    if a < b {
      Pow2Monotone(a, b - 1);
    }
  }

  lemma MulMonotone(a: int, b: int, m: nat)
    requires a <= b
    ensures a * m <= b * m
  {}

  /** Quotient and remainder are determined by the division equation. */
  lemma ModUnique(x: int, m: int, q: int, r: int)
    requires m > 0 && 0 <= r < m && x == q * m + r
    ensures x % m == r && x / m == q
  {
    QuotientAtMost(q, r, x / m, x % m, m);
    QuotientAtMost(x / m, x % m, q, r, m);
  }

  lemma QuotientAtMost(q: int, r: int, q': int, r': int, m: int)
    requires 0 <= r < m && 0 <= r' < m && q * m + r == q' * m + r'
    ensures q <= q'
  {
    if q > q' {
      MulMonotone(q' + 1, q, m);
    }
  }

  lemma ModShift(x: int, k: int, m: int)
    requires m > 0
    ensures (x + k * m) % m == x % m
  {
    assert x + k * m == (x / m + k) * m + x % m;
    ModUnique(x + k * m, m, x / m + k, x % m);
  }

  /** A summand may be reduced first. */
  lemma AddReduced(x: int, y: int, m: nat)
    requires m > 0
    ensures (x % m + y) % m == (x + y) % m
  {
    assert x % m + y == (x + y) + -(x / m) * m;
    ModShift(x + y, -(x / m), m);
  }

  function Quo(x: nat, q: nat): nat
    requires q > 0
  {
    x / q
  }

  // ----- shifting and masking as division -----

  lemma {:induction false} JoinValue(h: nat, l: nat, k: nat)
    requires l < Pow2(k)
    ensures Join(h, l, k) == h * Pow2(k) + l
  {
    if k != 0 {
      JoinValue(h, l / 2, k - 1);
      assert h * Pow2(k) == 2 * (h * Pow2(k - 1));
    }
  }

  /** Every word is its high part joined to its low part. */
  lemma {:induction false} Split(x: nat, k: nat)
    ensures x == Join(Shr(x, k), Low(x, k), k)
  {
    if k != 0 {
      Split(x / 2, k - 1);
      assert Low(x, k) / 2 == Low(x / 2, k - 1) && Low(x, k) % 2 == x % 2;
    }
  }

  /** Taking a joined word apart again. */
  lemma {:induction false} Unjoin(h: nat, l: nat, k: nat)
    requires l < Pow2(k)
    ensures Shr(Join(h, l, k), k) == h && Low(Join(h, l, k), k) == l
  {
    if k != 0 {
      Unjoin(h, l / 2, k - 1);
      assert Join(h, l, k) / 2 == Join(h, l / 2, k - 1);
    }
  }

  /** Shifting right divides by 2^k and the low k bits are the remainder. */
  lemma ShiftIsDivision(x: nat, k: nat, p: nat)
    requires p == Pow2(k)
    ensures Shr(x, k) == x / p && Low(x, k) == x % p
  {
    Split(x, k);
    JoinValue(Shr(x, k), Low(x, k), k);
    ModUnique(x, p, Shr(x, k), Low(x, k));
  }

  lemma {:induction false} ShrBound(x: nat, k: nat, w: nat)
    requires k <= w && x < Pow2(w)
    ensures Shr(x, k) < Pow2(w - k)
  {
    if k != 0 { ShrBound(x / 2, k - 1, w - 1); }
  }

  // ----- `&` and `|` act on the two parts independently -----

  lemma AndStep(a: nat, b: nat, c: nat, d: nat)
    requires b < 2 && d < 2
    ensures And(2 * a + b, 2 * c + d) == 2 * And(a, c) + if b == 1 && d == 1 then 1 else 0
  {
    var x, y := 2 * a + b, 2 * c + d;
    assert x / 2 == a && x % 2 == b && y / 2 == c && y % 2 == d;
  }

  lemma OrStep(a: nat, b: nat, c: nat, d: nat)
    requires b < 2 && d < 2
    ensures Or(2 * a + b, 2 * c + d) == 2 * Or(a, c) + if b == 1 || d == 1 then 1 else 0
  {
    var x, y := 2 * a + b, 2 * c + d;
    assert x / 2 == a && x % 2 == b && y / 2 == c && y % 2 == d;
  }

  lemma JoinStep(h: nat, q: nat, b: nat, k: nat)
    requires b < 2
    ensures Join(h, 2 * q + b, k + 1) == 2 * Join(h, q, k) + b
  {
    var l := 2 * q + b;
    assert l / 2 == q && l % 2 == b;
  }

  lemma AndJoinStep(h: nat, l: nat, a: nat, g: nat, m: nat, b: nat, k: nat)
    requires a < 2 && b < 2
    requires And(Join(h, l, k), Join(g, m, k)) == Join(And(h, g), And(l, m), k)
    ensures And(Join(h, 2 * l + a, k + 1), Join(g, 2 * m + b, k + 1))
         == Join(And(h, g), And(2 * l + a, 2 * m + b), k + 1)
  {
    JoinStep(h, l, a, k);
    JoinStep(g, m, b, k);
    AndStep(Join(h, l, k), a, Join(g, m, k), b);
    AndStep(l, a, m, b);
    JoinStep(And(h, g), And(l, m), if a == 1 && b == 1 then 1 else 0, k);
  }

  lemma {:induction false} AndJoin(h: nat, l: nat, g: nat, m: nat, k: nat)
    ensures And(Join(h, l, k), Join(g, m, k)) == Join(And(h, g), And(l, m), k)
  {
    if k != 0 {
      AndJoin(h, l / 2, g, m / 2, k - 1);
      AndJoinStep(h, l / 2, l % 2, g, m / 2, m % 2, k - 1);
    }
  }

  lemma OrJoinStep(h: nat, l: nat, a: nat, g: nat, m: nat, b: nat, k: nat)
    requires a < 2 && b < 2
    requires Or(Join(h, l, k), Join(g, m, k)) == Join(Or(h, g), Or(l, m), k)
    ensures Or(Join(h, 2 * l + a, k + 1), Join(g, 2 * m + b, k + 1))
         == Join(Or(h, g), Or(2 * l + a, 2 * m + b), k + 1)
  {
    hide Or, Join;
    JoinStep(h, l, a, k);
    JoinStep(g, m, b, k);
    OrStep(Join(h, l, k), a, Join(g, m, k), b);
    OrStep(l, a, m, b);
    JoinStep(Or(h, g), Or(l, m), if a == 1 || b == 1 then 1 else 0, k);
  }

  lemma {:induction false} OrJoin(h: nat, l: nat, g: nat, m: nat, k: nat)
    ensures Or(Join(h, l, k), Join(g, m, k)) == Join(Or(h, g), Or(l, m), k)
  {
    if k != 0 {
      OrJoin(h, l / 2, g, m / 2, k - 1);
      OrJoinStep(h, l / 2, l % 2, g, m / 2, m % 2, k - 1);
    }
  }

  // ----- masks -----

  lemma AndZero(x: nat)
    ensures And(x, 0) == 0 == And(0, x)
  {}

  lemma {:induction false} AndSelf(x: nat)
    ensures And(x, x) == x
  {
    if x != 0 { AndSelf(x / 2); }
  }

  /** The mask of k ones keeps a word of k bits. */
  lemma {:induction false} AndOnes(x: nat, k: nat)
    requires x < Pow2(k)
    ensures And(x, Pow2(k) - 1) == x
  {
    if k != 0 {
      AndOnes(x / 2, k - 1);
      AndStep(x / 2, x % 2, Pow2(k - 1) - 1, 1);
    }
  }

  /** `x & (2^k - 1)` keeps the low k bits. */
  lemma AndLowMask(x: nat, k: nat)
    ensures And(x, Pow2(k) - 1) == Low(x, k)
  {
    var h, l, ones := Shr(x, k), Low(x, k), Pow2(k) - 1;
    Split(x, k);
    JoinValue(0, ones, k);
    AndJoin(h, l, 0, ones, k);
    AndZero(h);
    AndOnes(l, k);
    JoinValue(0, l, k);
  }

  /** `x & ~(2^k - 1)` clears the low k bits of a w-bit word. */
  lemma AndHighMask(x: nat, k: nat, w: nat)
    requires k <= w && x < Pow2(w)
    ensures Pow2(k) <= Pow2(w)
    ensures And(x, Not(w, Pow2(k) - 1)) == Join(Shr(x, k), 0, k)
  {
    var h, l, ones := Shr(x, k), Low(x, k), Pow2(w - k) - 1;
    HighMask(k, w);
    calc {
      And(x, Not(w, Pow2(k) - 1));
      { Split(x, k); }
      And(Join(h, l, k), Join(ones, 0, k));
      { AndJoin(h, l, ones, 0, k); AndZero(l); }
      Join(And(h, ones), 0, k);
      { ShrBound(x, k, w); AndOnes(h, w - k); }
      Join(h, 0, k);
    }
  }

  lemma HighMask(k: nat, w: nat)
    requires k <= w
    ensures Pow2(k) <= Pow2(w)
    ensures Not(w, Pow2(k) - 1) == Join(Pow2(w - k) - 1, 0, k)
  {
    Pow2Monotone(k, w);
    Pow2Add(w - k, k);
    JoinValue(Pow2(w - k) - 1, 0, k);
  }

  // ----- the power-of-two test -----

  ghost predicate IsPow2(x: nat) {
    exists k: nat :: x == Pow2(k)
  }

  lemma IsPow2Double(y: nat)
    ensures IsPow2(2 * y) <==> IsPow2(y)
  {
    if IsPow2(2 * y) {
      var k: nat :| 2 * y == Pow2(k);
      assert y == Pow2(k - 1);
    }
    if IsPow2(y) {
      var k: nat :| y == Pow2(k);
      assert 2 * y == Pow2(k + 1);
    }
  }

  lemma OddIsPow2(y: nat)
    ensures IsPow2(2 * y + 1) <==> y == 0
  {
    if y == 0 {
      assert Pow2(0) == 1;
    }
  }

  /** `x & (x - 1)` clears the lowest set bit, so it vanishes exactly for powers of two. */
  lemma {:induction false} PowerTest(x: nat)
    requires x != 0
    ensures And(x, x - 1) == 0 <==> IsPow2(x)
  {
    var y := x / 2;
    if x % 2 == 0 {
      AndStep(y, 0, y - 1, 1);
      PowerTest(y);
      IsPow2Double(y);
    } else {
      AndStep(y, 1, y, 0);
      AndSelf(y);
      OddIsPow2(y);
    }
  }
}
