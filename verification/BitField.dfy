/** The bit-field macros of lib_def.h on unsigned words of w bits and contiguous masks. */
module BitField {
  import opened Bits

  // ----- the macros -----

  /** `field_mask & ~(field_mask << 1)` */
  function Unit(mask: nat, w: nat): nat {
    And(mask, Not(w, Low(2 * mask, w)))
  }

  /** DEF_BIT_FIELD_RD() */
  function FieldRd(val: nat, mask: nat, w: nat): nat
    requires Unit(mask, w) > 0
  {
    Quo(And(val, mask), Unit(mask, w))
  }

  /** DEF_BIT_FIELD_ENC() */
  function FieldEnc(fieldVal: nat, mask: nat, w: nat): nat {
    And(Low(fieldVal * Unit(mask, w), w), mask)
  }

  /** DEF_BIT_FIELD_WR(): the new value of the variable. */
  function FieldWr(v: nat, fieldVal: nat, mask: nat, w: nat): nat
    requires mask < Pow2(w)
  {
    Or(And(v, Not(w, mask)), FieldEnc(fieldVal, mask, w))
  }

  // ----- contiguous masks -----

  /** len ones above p zeros. */
  function FieldMask(p: nat, len: nat): nat { Join(Pow2(len) - 1, 0, p) }

  ghost predicate FieldOk(p: nat, len: nat, w: nat) { 0 < len && p + len <= w }

  lemma {:induction false} OnesInside(a: nat, b: nat, w: nat)
    requires a <= b <= w
    ensures Pow2(b) <= Pow2(w) && And(Pow2(a) - 1, Not(w, Pow2(b) - 1)) == 0
  {
    Pow2Monotone(b, w);
    if a != 0 {
      OnesInside(a - 1, b - 1, w - 1);
      AndStep(Pow2(a - 1) - 1, 1, Not(w - 1, Pow2(b - 1) - 1), 0);
    }
  }

  lemma {:induction false} LowOnes(len: nat, w: nat)
    ensures Low(Pow2(len) - 1, w) == Pow2(if len <= w then len else w) - 1
  {
    if len == 0 {
      LowZero(w);
    } else if w != 0 {
      assert (Pow2(len) - 1) / 2 == Pow2(len - 1) - 1 && (Pow2(len) - 1) % 2 == 1;
      LowOnes(len - 1, w - 1);
    }
  }

  lemma {:induction false} LowZero(w: nat)
    ensures Low(0, w) == 0
  {
    if w != 0 { LowZero(w - 1); }
  }

  lemma LowDouble(x: nat, w: nat)
    requires w > 0
    ensures Low(2 * x, w) == 2 * Low(x, w - 1)
  {
    assert 2 * x / 2 == x && 2 * x % 2 == 0;
  }

  lemma FieldMaskDouble(p: nat, len: nat)
    requires p > 0
    ensures FieldMask(p, len) == 2 * FieldMask(p - 1, len)
  {}

  /** One step of the mask arithmetic on words with a trailing zero. */
  lemma UnitDouble(m: nat, w: nat)
    requires w > 0
    ensures Unit(2 * m, w) == 2 * Unit(m, w - 1)
  {
    hide And;
    LowDouble(2 * m, w);
    var y := Low(2 * m, w - 1);
    assert Not(w, 2 * y) == 2 * Not(w - 1, y) + 1;
    AndStep(m, 0, Not(w - 1, y), 1);
  }

  lemma UnitOfOnes(len: nat, w: nat)
    requires 0 < len <= w
    ensures Unit(Pow2(len) - 1, w) == 1
  {
    hide And, Low;
    var m, m', l := Pow2(len) - 1, Pow2(len - 1) - 1, if len <= w - 1 then len else w - 1;
    LowDouble(m, w);
    LowOnes(len, w - 1);
    OnesInside(len - 1, l, w - 1);
    var y := Pow2(l) - 1;
    assert Not(w, 2 * y) == 2 * Not(w - 1, y) + 1;
    AndStep(m', 1, Not(w - 1, y), 1);
  }

  /** The lowest bit of a contiguous mask, by shifting and masking, even when the shift drops its top bit. */
  lemma {:induction false} UnitIsLowestBit(p: nat, len: nat, w: nat)
    requires FieldOk(p, len, w)
    ensures Unit(FieldMask(p, len), w) == Pow2(p)
    decreases p
  {
    hide Unit;
    if p == 0 {
      UnitOfOnes(len, w);
    } else {
      FieldMaskDouble(p, len);
      UnitDouble(FieldMask(p - 1, len), w);
      UnitIsLowestBit(p - 1, len, w - 1);
    }
  }

  // ----- what the macros do -----

  /** The word with high part h, the field f of len bits, and the p low bits l. */
  function Compose(h: nat, f: nat, l: nat, p: nat, len: nat): nat {
    Join(Join(h, f, len), l, p)
  }

  /** The field of a word. */
  function Field(v: nat, p: nat, len: nat): nat { Low(Shr(v, p), len) }

  /** The bits of a word above the field. */
  function Above(v: nat, p: nat, len: nat): nat { Shr(Shr(v, p), len) }

  /** Every word is composed of its three parts. */
  lemma Decompose(v: nat, p: nat, len: nat)
    ensures v == Compose(Above(v, p, len), Field(v, p, len), Low(v, p), p, len)
  {
    Split(v, p);
    Split(Shr(v, p), len);
  }

  lemma PartsOf(h: nat, f: nat, l: nat, p: nat, len: nat)
    requires f < Pow2(len) && l < Pow2(p)
    ensures var v := Compose(h, f, l, p, len); Above(v, p, len) == h && Field(v, p, len) == f && Low(v, p) == l
  {
    hide Shr, Low, Join;
    Unjoin(Join(h, f, len), l, p);
    Unjoin(h, f, len);
  }

  /** Masking keeps the field in place. */
  lemma MaskField(v: nat, p: nat, len: nat)
    ensures And(v, FieldMask(p, len)) == Join(Field(v, p, len), 0, p)
  {
    hide And, Shr, Low, Join;
    Split(v, p);
    AndJoin(Shr(v, p), Low(v, p), Pow2(len) - 1, 0, p);
    AndLowMask(Shr(v, p), len);
    AndZero(Low(v, p));
  }

  /** DEF_BIT_FIELD_RD() reads the field. */
  lemma ReadExact(v: nat, p: nat, len: nat, w: nat)
    requires FieldOk(p, len, w)
    ensures Unit(FieldMask(p, len), w) > 0 && FieldRd(v, FieldMask(p, len), w) == Field(v, p, len)
  {
    hide And, Shr, Low, Join, Unit, Field, FieldMask;
    UnitIsLowestBit(p, len, w);
    MaskField(v, p, len);
    JoinValue(Field(v, p, len), 0, p);
    DivideOut(Field(v, p, len), Pow2(p));
  }

  lemma DivideOut(f: nat, q: nat)
    requires q > 0
    ensures Quo(f * q + 0, q) == f
  {
    ModUnique(f * q, q, f, 0);
  }

  lemma {:induction false} LowOfLow(x: nat, a: nat, w: nat)
    requires a <= w
    ensures Low(Low(x, w), a) == Low(x, a)
  {
    if a != 0 {
      assert Low(x, w) / 2 == Low(x / 2, w - 1) && Low(x, w) % 2 == x % 2;
      LowOfLow(x / 2, a - 1, w - 1);
    }
  }

  /** Truncating to w bits does not touch a field that lies inside them. */
  lemma {:induction false} FieldOfLow(x: nat, p: nat, len: nat, w: nat)
    requires p + len <= w
    ensures Field(Low(x, w), p, len) == Field(x, p, len)
    decreases p
  {
    if p == 0 {
      LowOfLow(x, len, w);
    } else {
      assert Low(x, w) / 2 == Low(x / 2, w - 1);
      FieldOfLow(x / 2, p - 1, len, w - 1);
    }
  }

  /** DEF_BIT_FIELD_ENC() puts the low len bits of the value into place. */
  lemma EncodeExact(f: nat, p: nat, len: nat, w: nat)
    requires FieldOk(p, len, w)
    ensures FieldEnc(f, FieldMask(p, len), w) == Join(Low(f, len), 0, p)
  {
    hide And, Shr, Low, Join, Unit, FieldMask;
    UnitIsLowestBit(p, len, w);
    JoinValue(f, 0, p);
    MaskField(Low(Join(f, 0, p), w), p, len);
    FieldOfLow(Join(f, 0, p), p, len, w);
    Unjoin(f, 0, p);
  }

  lemma Complement(a: nat, c: nat, q: nat)
    requires 0 < c <= a && 0 < q
    ensures (c - 1) * q < a * q && (a - c) * q + (q - 1) == a * q - 1 - (c - 1) * q
  {
    MulMonotone(c, a, q);
    assert (a - c) * q == a * q - c * q;
    assert (c - 1) * q == c * q - q;
  }

  /** The complement of a contiguous mask: ones above the field and below it. */
  lemma MaskFits(p: nat, len: nat, w: nat)
    requires p + len <= w
    ensures FieldMask(p, len) < Pow2(w) && Pow2(len) <= Pow2(w - p)
    ensures Not(w, FieldMask(p, len)) == Join(Not(w - p, Pow2(len) - 1), Pow2(p) - 1, p)
  {
    var a, c, q := Pow2(w - p), Pow2(len), Pow2(p);
    assert c <= a && a * q == Pow2(w) by {
      Pow2Monotone(len, w - p);
      Pow2Add(w - p, p);
    }
    hide Join, Pow2;
    Complement(a, c, q);
    JoinValue(c - 1, 0, p);
    JoinValue(a - c, q - 1, p);
  }

  /** Clearing the field keeps everything else. */
  lemma ClearField(v: nat, p: nat, len: nat, w: nat)
    requires p + len <= w && v < Pow2(w)
    ensures FieldMask(p, len) < Pow2(w)
    ensures And(v, Not(w, FieldMask(p, len))) == Compose(Above(v, p, len), 0, Low(v, p), p, len)
  {
    hide And, Shr, Low, Join, FieldMask, Not;
    MaskFits(p, len, w);
    ShrBound(v, p, w);
    Split(v, p);
    AndJoin(Shr(v, p), Low(v, p), Not(w - p, Pow2(len) - 1), Pow2(p) - 1, p);
    AndHighMask(Shr(v, p), len, w - p);
    AndOnes(Low(v, p), p);
  }

  /** DEF_BIT_FIELD_WR() replaces the field by the value modulo 2^len and keeps all other bits. */
  lemma WriteExact(v: nat, f: nat, p: nat, len: nat, w: nat)
    requires FieldOk(p, len, w) && v < Pow2(w)
    ensures FieldMask(p, len) < Pow2(w)
    ensures FieldWr(v, f, FieldMask(p, len), w) == Compose(Above(v, p, len), Low(f, len), Low(v, p), p, len)
  {
    hide And, Or, Shr, Low, Join, FieldMask, Not, FieldEnc;
    ClearField(v, p, len, w);
    EncodeExact(f, p, len, w);
    var h, x, l := Above(v, p, len), Low(f, len), Low(v, p);
    JoinZero(x, len);
    OrJoin(Join(h, 0, len), l, Join(0, x, len), 0, p);
    OrJoin(h, 0, 0, x, len);
    OrZero(h); OrZero(x); OrZero(l);
  }

  lemma JoinZero(x: nat, k: nat)
    requires x < Pow2(k)
    ensures Join(0, x, k) == x
  {
    JoinValue(0, x, k);
  }

  lemma OrZero(x: nat)
    ensures Or(x, 0) == x == Or(0, x)
  {}

  /** Reading after writing gives the value modulo 2^len; every bit outside the field is kept; and writing back
      what was read changes nothing. For every contiguous mask of every width. */
  lemma FieldRoundTrip(v: nat, f: nat, p: nat, len: nat, w: nat, q: nat)
    requires FieldOk(p, len, w) && v < Pow2(w) && q == Pow2(len)
    ensures FieldMask(p, len) < Pow2(w) && Unit(FieldMask(p, len), w) > 0
    ensures var v' := FieldWr(v, f, FieldMask(p, len), w);
      && FieldRd(v', FieldMask(p, len), w) == f % q
      && Low(v', p) == Low(v, p) && Above(v', p, len) == Above(v, p, len)
    ensures FieldWr(v, FieldRd(v, FieldMask(p, len), w), FieldMask(p, len), w) == v
  {
    hide And, Or, Shr, Low, Join, FieldMask, Not, FieldEnc, Unit, FieldRd, FieldWr, Field, Above, Compose;
    WriteExact(v, f, p, len, w);
    var v' := FieldWr(v, f, FieldMask(p, len), w);
    PartsOf(Above(v, p, len), Low(f, len), Low(v, p), p, len);
    ReadExact(v', p, len, w);
    ShiftIsDivision(f, len, q);
    ReadExact(v, p, len, w);
    WriteExact(v, Field(v, p, len), p, len, w);
    LowOfField(v, p, len);
    Decompose(v, p, len);
  }

  lemma LowOfField(v: nat, p: nat, len: nat)
    ensures Low(Field(v, p, len), len) == Field(v, p, len)
  {
    LowOfLow(Shr(v, p), len, len);
  }
}
