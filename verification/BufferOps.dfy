/** Mem_Set(), Mem_Copy(), Mem_Move() and Mem_Cmp() of lib_mem.c: byte prologue, aligned word loop, byte epilogue. */
module BufferOps {
  import opened Bits
  import opened Rounding
  import opened ByteMemory

  // ----- byte-wise meanings -----

  /** n bytes from s to d, one after the other from the first. */
  function FwdCopy(m: seq<byte>, d: nat, s: nat, n: nat): (m': seq<byte>)
    requires d + n <= |m| && s + n <= |m|
    ensures |m'| == |m|
    decreases n
  {
    if n == 0 then m else FwdCopy(m[d := m[s]], d + 1, s + 1, n - 1)
  }

  /** n bytes from s to d, one after the other from the last. */
  function BwdCopy(m: seq<byte>, d: nat, s: nat, n: nat): (m': seq<byte>)
    requires d + n <= |m| && s + n <= |m|
    ensures |m'| == |m|
    decreases n
  {
    if n == 0 then m else BwdCopy(m[d + n - 1 := m[s + n - 1]], d, s, n - 1)
  }

  /** memmove: the n bytes at d become the bytes that were at s, and nothing else changes. */
  function Moved(m: seq<byte>, d: nat, s: nat, n: nat): seq<byte>
    requires d + n <= |m| && s + n <= |m|
  {
    m[..d] + m[s..s + n] + m[d + n..]
  }

  /** memset: the n bytes at d become v, and nothing else changes. */
  function Filled(m: seq<byte>, d: nat, v: byte, n: nat): (m': seq<byte>)
    requires d + n <= |m|
    ensures |m'| == |m|
    decreases n
  {
    if n == 0 then m else Filled(m[d := v], d + 1, v, n - 1)
  }

  /** Filling in one piece. */
  lemma {:induction false} FilledAt(m: seq<byte>, d: nat, v: byte, n: nat, k: nat)
    requires d + n <= |m| && k < |m|
    ensures Filled(m, d, v, n)[k] == if d <= k < d + n then v else m[k]
    decreases n
  {
    if n != 0 { FilledAt(m[d := v], d + 1, v, n - 1, k); }
  }

  lemma {:induction false} FwdCopyFrame(m: seq<byte>, d: nat, s: nat, n: nat, k: nat)
    requires d + n <= |m| && s + n <= |m| && k < |m| && !(d <= k < d + n)
    ensures FwdCopy(m, d, s, n)[k] == m[k]
    decreases n
  {
    if n != 0 { FwdCopyFrame(m[d := m[s]], d + 1, s + 1, n - 1, k); }
  }

  /** The ranges for which copying upwards byte by byte is a move: no overlap, or a source that is not below. */
  predicate CopySafe(d: nat, s: nat, n: nat) { d <= s || s + n <= d }

  lemma MovedAt(m: seq<byte>, d: nat, s: nat, n: nat, k: nat)
    requires d + n <= |m| && s + n <= |m| && k < |m|
    ensures |Moved(m, d, s, n)| == |m|
    ensures Moved(m, d, s, n)[k] == if d <= k < d + n then m[s + (k - d)] else m[k]
  {}

  /** Moving the first byte and then the rest; the rest is still in place when the ranges are safe. */
  lemma MovedFirst(m: seq<byte>, d: nat, s: nat, n: nat)
    requires 0 < n && d + n <= |m| && s + n <= |m| && CopySafe(d, s, n)
    ensures Moved(m[d := m[s]], d + 1, s + 1, n - 1) == Moved(m, d, s, n)
  {
    hide Moved;
    var a, b := Moved(m[d := m[s]], d + 1, s + 1, n - 1), Moved(m, d, s, n);
    forall k: nat | k < |m| ensures |a| == |b| == |m| && a[k] == b[k] {
      MovedAt(m[d := m[s]], d + 1, s + 1, n - 1, k);
      MovedAt(m, d, s, n, k);
    }
    MovedAt(m, d, s, n, d);
  }

  lemma MovedLast(m: seq<byte>, d: nat, s: nat, n: nat)
    requires 0 < n && d + n <= |m| && s + n <= |m| && s <= d
    ensures Moved(m[d + n - 1 := m[s + n - 1]], d, s, n - 1) == Moved(m, d, s, n)
  {
    hide Moved;
    var m' := m[d + n - 1 := m[s + n - 1]];
    var a, b := Moved(m', d, s, n - 1), Moved(m, d, s, n);
    forall k: nat | k < |m| ensures |a| == |b| == |m| && a[k] == b[k] {
      MovedAt(m', d, s, n - 1, k);
      MovedAt(m, d, s, n, k);
    }
    MovedAt(m, d, s, n, d);
  }

  lemma MovedNone(m: seq<byte>, d: nat, s: nat)
    requires d <= |m| && s <= |m|
    ensures Moved(m, d, s, 0) == m
  {}

  lemma {:induction false} FwdCopyIsMove(m: seq<byte>, d: nat, s: nat, n: nat)
    requires d + n <= |m| && s + n <= |m| && CopySafe(d, s, n)
    ensures FwdCopy(m, d, s, n) == Moved(m, d, s, n)
    decreases n
  {
    hide Moved;
    if n == 0 {
      MovedNone(m, d, s);
    } else {
      FwdCopyIsMove(m[d := m[s]], d + 1, s + 1, n - 1);
      MovedFirst(m, d, s, n);
    }
  }

  /** Overlapping from below, an upward copy repeats: each byte ends equal to the one it was copied from. */
  lemma {:induction false} FwdCopyRepeats(m: seq<byte>, d: nat, s: nat, n: nat, i: nat)
    requires d + n <= |m| && s < d && i < n
    ensures FwdCopy(m, d, s, n)[d + i] == FwdCopy(m, d, s, n)[s + i]
    decreases n
  {
    var m' := m[d := m[s]];
    if i == 0 {
      FwdCopyFrame(m', d + 1, s + 1, n - 1, d);
      FwdCopyFrame(m', d + 1, s + 1, n - 1, s);
    } else {
      FwdCopyRepeats(m', d + 1, s + 1, n - 1, i - 1);
    }
  }

  lemma UnsafeCopyDiffers(len: nat, d: nat, s: nat, n: nat)
    requires d + n <= len && s + n <= len && !CopySafe(d, s, n)
    ensures exists m: seq<byte> :: |m| == len && FwdCopy(m, d, s, n) != Moved(m, d, s, n)
  {
    hide FwdCopy, Moved;
    var m: seq<byte> := seq(len, k => if k == s then 1 else 0);
    FwdCopyRepeats(m, d, s, n, 0);
    FwdCopyRepeats(m, d, s, n, d - s);
    FwdCopyFrame(m, d, s, n, s);
    assert FwdCopy(m, d, s, n)[d + (d - s)] == 1;
    MovedAt(m, d, s, n, d + (d - s));
  }

  /** Copying upwards is a move of every memory content exactly for the safe ranges. */
  lemma FwdCopyIsMoveIff(len: nat, d: nat, s: nat, n: nat)
    requires d + n <= len && s + n <= len
    ensures (forall m: seq<byte> | |m| == len :: FwdCopy(m, d, s, n) == Moved(m, d, s, n)) <==> CopySafe(d, s, n)
  {
    if CopySafe(d, s, n) {
      forall m: seq<byte> | |m| == len ensures FwdCopy(m, d, s, n) == Moved(m, d, s, n) {
        FwdCopyIsMove(m, d, s, n);
      }
    } else {
      UnsafeCopyDiffers(len, d, s, n);
    }
  }

  lemma {:induction false} BwdCopyIsMove(m: seq<byte>, d: nat, s: nat, n: nat)
    requires d + n <= |m| && s + n <= |m| && s <= d
    ensures BwdCopy(m, d, s, n) == Moved(m, d, s, n)
    decreases n
  {
    hide Moved;
    if n == 0 {
      MovedNone(m, d, s);
    } else {
      BwdCopyIsMove(m[d + n - 1 := m[s + n - 1]], d, s, n - 1);
      MovedLast(m, d, s, n);
    }
  }

  // ----- one word is four bytes -----

  /** A word copied between addresses at least a word apart is four byte copies, upwards or downwards. */
  predicate WordApart(d: nat, s: nat) { d + WORD <= s || s + WORD <= d }

  lemma FwdCopyWord(m: seq<byte>, d: nat, s: nat, n: nat)
    requires WORD <= n && d + n <= |m| && s + n <= |m| && WordApart(d, s)
    ensures FwdCopy(m, d, s, n) == FwdCopy(WordStored(m, d, WordAt(m, s)), d + WORD, s + WORD, n - WORD)
  {
    hide WordStored, WordAt;
    CopyWord(m, s, d);
    var m1 := m[d := m[s]];
    var m2 := m1[d + 1 := m1[s + 1]];
    var m3 := m2[d + 2 := m2[s + 2]];
    var m4 := m3[d + 3 := m3[s + 3]];
    assert FwdCopy(m, d, s, n) == FwdCopy(m1, d + 1, s + 1, n - 1) == FwdCopy(m2, d + 2, s + 2, n - 2);
    assert FwdCopy(m2, d + 2, s + 2, n - 2) == FwdCopy(m3, d + 3, s + 3, n - 3) == FwdCopy(m4, d + 4, s + 4, n - 4);
  }

  lemma BwdCopyWord(m: seq<byte>, d: nat, s: nat, n: nat)
    requires WORD <= n && d + n <= |m| && s + n <= |m| && WordApart(d, s)
    ensures BwdCopy(m, d, s, n) == BwdCopy(WordStored(m, d + n - WORD, WordAt(m, s + n - WORD)), d, s, n - WORD)
  {
    hide WordStored, WordAt;
    var e, f := d + n, s + n;
    CopyWord(m, f - WORD, e - WORD);
    var m1 := m[e - 1 := m[f - 1]];
    var m2 := m1[e - 2 := m1[f - 2]];
    var m3 := m2[e - 3 := m2[f - 3]];
    var m4 := m3[e - 4 := m3[f - 4]];
    assert BwdCopy(m, d, s, n) == BwdCopy(m1, d, s, n - 1) == BwdCopy(m2, d, s, n - 2);
    assert BwdCopy(m2, d, s, n - 2) == BwdCopy(m3, d, s, n - 3) == BwdCopy(m4, d, s, n - 4);
    assert m4 == m[e - 4 := m[f - 4]][e - 3 := m[f - 3]][e - 2 := m[f - 2]][e - 1 := m[f - 1]];
  }

  // ----- word accesses, on word-aligned addresses only -----

  predicate Aligned(a: int) { a % WORD == 0 }

  lemma AlignedStep(a: int)
    requires Aligned(a)
    ensures Aligned(a + WORD) && Aligned(a - WORD)
  {}

  /** The word boundaries just above and just below an address. */
  lemma AlignedAround(a: nat)
    ensures Aligned(a - a % WORD + WORD) && Aligned(a - a % WORD)
    ensures 0 <= a % WORD < WORD && (a % WORD == 0 ==> Aligned(a))
  {}

  method LoadAligned(m: array<byte>, a: nat) returns (v: nat)
    requires Aligned(a) && a + WORD <= m.Length
    ensures v == WordAt(m[..], a)
  {
    v := LoadWord(m, a);
  }

  method StoreAligned(m: array<byte>, a: nat, v: nat)
    requires Aligned(a) && a + WORD <= m.Length
    modifies m
    ensures m[..] == WordStored(old(m[..]), a, v)
  {
    StoreWord(m, a, v);
  }

  /** Equally aligned addresses whose difference is at least a word, going round if need be, are a word apart. */
  lemma GapApart(hi: nat, lo: nat)
    requires hi < MODULUS && lo < MODULUS && hi % WORD == lo % WORD && Wrap(hi - lo) >= WORD
    ensures WordApart(lo, hi)
  {}

  // ----- the four operations -----

  method CopyOctet(m: array<byte>, dest: nat, src: nat)
    requires dest < m.Length && src < m.Length
    modifies m
    ensures m[..] == old(m[..])[dest := old(m[src])]
  {
    m[dest] := m[src];
  }

  /** A word copy whose accesses are both aligned. */
  method CopyWordAligned(m: array<byte>, dest: nat, src: nat)
    requires Aligned(dest) && Aligned(src) && dest + WORD <= m.Length && src + WORD <= m.Length
    modifies m
    ensures m[..] == WordStored(old(m[..]), dest, WordAt(old(m[..]), src))
  {
    hide WordStored, WordAt;
    var word := LoadAligned(m, src);
    StoreAligned(m, dest, word);
  }

  lemma FwdCopyStep(m: seq<byte>, d: nat, s: nat, n: nat)
    requires 0 < n && d + n <= |m| && s + n <= |m|
    ensures FwdCopy(m, d, s, n) == FwdCopy(m[d := m[s]], d + 1, s + 1, n - 1)
  {}

  lemma BwdCopyStep(m: seq<byte>, d: nat, s: nat, n: nat)
    requires 0 < n && d + n <= |m| && s + n <= |m|
    ensures BwdCopy(m, d, s, n) == BwdCopy(m[d + n - 1 := m[s + n - 1]], d, s, n - 1)
  {}

  /** The aligned part of Mem_Copy(): octets up to a word boundary, then words. */
  method CopyAligned(m: array<byte>, pdest: nat, psrc: nat, size: nat) returns (dest: nat, src: nat, sizeRem: nat)
    requires m.Length <= MODULUS && pdest + size <= m.Length && psrc + size <= m.Length
    requires pdest % WORD == psrc % WORD && WordApart(pdest, psrc)
    modifies m
    ensures dest + sizeRem == pdest + size && src - dest == psrc - pdest
    ensures FwdCopy(m[..], dest, src, sizeRem) == old(FwdCopy(m[..], pdest, psrc, size))
  {
    hide WordStored, WordAt, Aligned, WordApart, FwdCopy;
    ghost var goal := FwdCopy(m[..], pdest, psrc, size);
    dest, src, sizeRem := pdest, psrc, size;
    var memAlignModDest := dest % WORD;
    AlignedAround(dest);
    AlignedAround(src);
    if memAlignModDest != 0 {
      var i := memAlignModDest;
      while sizeRem > 0 && i < WORD
        invariant i <= WORD && dest - i == pdest - memAlignModDest
        invariant dest + sizeRem == pdest + size && src - dest == psrc - pdest
        invariant FwdCopy(m[..], dest, src, sizeRem) == goal
        decreases sizeRem
      {
        FwdCopyStep(m[..], dest, src, sizeRem);
        CopyOctet(m, dest, src);
        dest, src, sizeRem, i := dest + 1, src + 1, sizeRem - 1, i + 1;
      }
    }
    while sizeRem >= WORD
      invariant sizeRem >= WORD ==> Aligned(dest) && Aligned(src)
      invariant dest + sizeRem == pdest + size && src - dest == psrc - pdest
      invariant FwdCopy(m[..], dest, src, sizeRem) == goal
    {
      StillApart(pdest, psrc, dest, src);
      FwdCopyWord(m[..], dest, src, sizeRem);
      AlignedStep(dest);
      AlignedStep(src);
      CopyWordAligned(m, dest, src);
      dest, src, sizeRem := dest + WORD, src + WORD, sizeRem - WORD;
    }
  }

  /** Whatever the overlap, Mem_Copy() is the upward byte-wise copy. */
  method MemCopy(m: array<byte>, pdest: nat, psrc: nat, size: nat)
    requires m.Length <= MODULUS && pdest + size <= m.Length && psrc + size <= m.Length
    modifies m
    ensures m[..] == if pdest == 0 || psrc == 0 then old(m[..]) else FwdCopy(old(m[..]), pdest, psrc, size)
  {
    hide Wrap, WordApart;
    if size < 1 || pdest == 0 || psrc == 0 {
      return;
    }
    ghost var goal := FwdCopy(m[..], pdest, psrc, size);
    var dest: nat, src: nat, sizeRem: nat := pdest, psrc, size;
    var memGapOctets := Wrap(src - dest);
    if memGapOctets >= WORD {
      if dest % WORD == src % WORD {
        GapApart(src, dest);
        dest, src, sizeRem := CopyAligned(m, dest, src, sizeRem);
      }
    }
    while sizeRem > 0
      invariant dest + sizeRem == pdest + size && src - dest == psrc - pdest
      invariant FwdCopy(m[..], dest, src, sizeRem) == goal
    {
      m[dest] := m[src];
      dest, src, sizeRem := dest + 1, src + 1, sizeRem - 1;
    }
  }

  lemma StillApart(d: nat, s: nat, d': nat, s': nat)
    requires WordApart(d, s) && s' - d' == s - d
    ensures WordApart(d', s') && WordApart(s', d')
  {}

  /** The aligned part of Mem_Move(): octets down to a word boundary, then words. */
  method MoveAligned(m: array<byte>, pdest: nat, psrc: nat, size: nat) returns (sizeRem: nat)
    requires 0 < size && m.Length <= MODULUS && pdest + size <= m.Length && psrc + size <= m.Length
    requires (pdest + size - 1) % WORD == (psrc + size - 1) % WORD && WordApart(pdest, psrc)
    modifies m
    ensures sizeRem <= size
    ensures BwdCopy(m[..], pdest, psrc, sizeRem) == old(BwdCopy(m[..], pdest, psrc, size))
  {
    hide WordStored, WordAt, Aligned, WordApart, BwdCopy;
    ghost var goal := BwdCopy(m[..], pdest, psrc, size);
    sizeRem := size;
    var dest, src := pdest + size - 1, psrc + size - 1;
    var memAlignModDest := dest % WORD;
    AlignedAround(dest);
    AlignedAround(src);
    if memAlignModDest != WORD - 1 {
      var i := memAlignModDest;
      while sizeRem > 0 && i >= 0
        invariant -1 <= i < WORD && dest - i == pdest + size - 1 - memAlignModDest
        invariant dest == pdest + sizeRem - 1 && src == psrc + sizeRem - 1 && sizeRem <= size
        invariant BwdCopy(m[..], pdest, psrc, sizeRem) == goal
        decreases sizeRem
      {
        BwdCopyStep(m[..], pdest, psrc, sizeRem);
        CopyOctet(m, dest, src);
        dest, src, sizeRem, i := dest - 1, src - 1, sizeRem - 1, i - 1;
      }
    }
    AlignedStep(pdest + size - 1 - memAlignModDest);
    AlignedStep(psrc + size - 1 - memAlignModDest);
    var destAlign, srcAlign := dest - WORD + 1, src - WORD + 1;
    while sizeRem >= WORD
      invariant sizeRem >= WORD ==> Aligned(destAlign) && Aligned(srcAlign)
      invariant destAlign == pdest + sizeRem - WORD && srcAlign == psrc + sizeRem - WORD && sizeRem <= size
      invariant BwdCopy(m[..], pdest, psrc, sizeRem) == goal
    {
      BwdCopyWord(m[..], pdest, psrc, sizeRem);
      AlignedStep(destAlign);
      AlignedStep(srcAlign);
      CopyWordAligned(m, destAlign, srcAlign);
      destAlign, srcAlign, sizeRem := destAlign - WORD, srcAlign - WORD, sizeRem - WORD;
    }
  }

  /** Mem_Move() is memmove for every source, destination, size and overlap. */
  method MemMove(m: array<byte>, pdest: nat, psrc: nat, size: nat)
    requires m.Length <= MODULUS && pdest + size <= m.Length && psrc + size <= m.Length
    modifies m
    ensures m[..] == if pdest == 0 || psrc == 0 then old(m[..]) else Moved(old(m[..]), pdest, psrc, size)
  {
    hide Moved, Wrap, WordApart;
    if size < 1 || pdest == 0 || psrc == 0 {
      MovedNone(m[..], pdest, psrc);
      return;
    }
    if psrc > pdest {
      FwdCopyIsMove(m[..], pdest, psrc, size);
      MemCopy(m, pdest, psrc, size);
      return;
    }
    BwdCopyIsMove(m[..], pdest, psrc, size);
    ghost var goal := Moved(m[..], pdest, psrc, size);
    var sizeRem: nat := size;
    var dest, src := pdest + size - 1, psrc + size - 1;
    var memGapOctets := Wrap(dest - src);
    if memGapOctets >= WORD {
      if dest % WORD == src % WORD {
        GapApart(dest, src);
        StillApart(src, dest, psrc, pdest);
        sizeRem := MoveAligned(m, pdest, psrc, size);
        dest, src := pdest + sizeRem - 1, psrc + sizeRem - 1;
      }
    }
    while sizeRem > 0
      invariant dest == pdest + sizeRem - 1 && src == psrc + sizeRem - 1 && sizeRem <= size
      invariant BwdCopy(m[..], pdest, psrc, sizeRem) == goal
    {
      m[dest] := m[src];
      dest, src, sizeRem := dest - 1, src - 1, sizeRem - 1;
    }
  }

  // ----- Mem_Set() -----

  /** The word whose low i bytes are v. */
  function Repeated(v: byte, i: nat): nat {
    if i == 0 then 0 else Push8(v, Repeated(v, i - 1))
  }

  /** Shifting in one more octet. */
  lemma ShiftInOctet(x: nat, v: byte)
    ensures Or(256 * x, v) == Push8(v, x)
  {
    WordModuli();
    var b: nat := v;
    OrJoin(x, 0, 0, b, 8);
    JoinValue(x, 0, 8);
    JoinValue(0, b, 8);
    JoinValue(x, b, 8);
  }

  lemma RepeatedFits(v: byte)
    ensures Repeated(v, 3) < 0x100_0000 && Repeated(v, 4) == Word4(v, v, v, v)
    ensures Repeated(v, 0) == 0 && Repeated(v, 1) < 256 && Repeated(v, 2) < 65536
  {
    assert Repeated(v, 1) == v;
    assert Repeated(v, 2) == Push8(v, v);
    assert Repeated(v, 3) == Push8(v, Push8(v, v));
  }

  lemma RepeatedStep(v: byte, i: nat)
    ensures Repeated(v, i + 1) == Push8(v, Repeated(v, i))
  {}

  lemma FilledWord(m: seq<byte>, d: nat, v: byte, n: nat)
    requires WORD <= n && d + n <= |m|
    ensures Filled(m, d, v, n) == Filled(WordStored(m, d, Word4(v, v, v, v)), d + WORD, v, n - WORD)
  {
    hide Word4, ByteOf;
    BytesOfWord4(v, v, v, v);
    var m1 := m[d := v];
    var m2 := m1[d + 1 := v];
    var m3 := m2[d + 2 := v];
    var m4 := m3[d + 3 := v];
    assert Filled(m, d, v, n) == Filled(m1, d + 1, v, n - 1) == Filled(m2, d + 2, v, n - 2);
    assert Filled(m2, d + 2, v, n - 2) == Filled(m3, d + 3, v, n - 3) == Filled(m4, d + 4, v, n - 4);
    assert m4 == WordStored(m, d, Word4(v, v, v, v));
  }

  /** The data word of Mem_Set(): the octet in every position. */
  method DataWord(dataVal: byte) returns (dataAlign: nat)
    ensures dataAlign == Word4(dataVal, dataVal, dataVal, dataVal)
  {
    hide Word4, Or, Repeated, Wrap;
    RepeatedFits(dataVal);
    dataAlign := 0;
    for i := 0 to WORD
      invariant dataAlign == Repeated(dataVal, i)
    {
      assert i < 1 || i < 2 || i < 3 || i == 3;
      WrapTurn(256 * dataAlign);
      ShiftInOctet(dataAlign, dataVal);
      RepeatedStep(dataVal, i);
      dataAlign := Or(Wrap(256 * dataAlign), dataVal);
    }
  }

  method MemSet(m: array<byte>, pmem: nat, dataVal: byte, size: nat)
    requires m.Length <= MODULUS && pmem + size <= m.Length
    modifies m
    ensures m[..] == if pmem == 0 then old(m[..]) else Filled(old(m[..]), pmem, dataVal, size)
  {
    hide WordStored, Word4, Aligned;
    if size < 1 || pmem == 0 {
      return;
    }
    ghost var goal := Filled(m[..], pmem, dataVal, size);
    var dataAlign := DataWord(dataVal);
    var mem: nat, sizeRem: nat := pmem, size;
    var memAlignMod := mem % WORD;
    AlignedAround(mem);
    if memAlignMod != 0 {
      var i := memAlignMod;
      while sizeRem > 0 && i < WORD
        invariant i <= WORD && mem - i == pmem - memAlignMod
        invariant mem + sizeRem == pmem + size
        invariant Filled(m[..], mem, dataVal, sizeRem) == goal
        decreases sizeRem
      {
        m[mem] := dataVal;
        mem, sizeRem, i := mem + 1, sizeRem - 1, i + 1;
      }
    }
    while sizeRem >= WORD
      invariant sizeRem >= WORD ==> Aligned(mem)
      invariant mem + sizeRem == pmem + size
      invariant Filled(m[..], mem, dataVal, sizeRem) == goal
    {
      FilledWord(m[..], mem, dataVal, sizeRem);
      AlignedStep(mem);
      StoreAligned(m, mem, dataAlign);
      mem, sizeRem := mem + WORD, sizeRem - WORD;
    }
    while sizeRem > 0
      invariant mem + sizeRem == pmem + size
      invariant Filled(m[..], mem, dataVal, sizeRem) == goal
    {
      m[mem] := dataVal;
      mem, sizeRem := mem + 1, sizeRem - 1;
    }
  }

  method MemClr(m: array<byte>, pmem: nat, size: nat)
    requires m.Length <= MODULUS && pmem + size <= m.Length
    modifies m
    ensures m[..] == if pmem == 0 then old(m[..]) else Filled(old(m[..]), pmem, 0, size)
  {
    MemSet(m, pmem, 0, size);
  }

  // ----- Mem_Cmp() -----

  /** The n bytes at p and at q are the same. */
  ghost predicate SameBytes(m: seq<byte>, p: int, q: int, n: nat)
    requires 0 <= p && p + n <= |m| && 0 <= q && q + n <= |m|
  {
    m[p..p + n] == m[q..q + n]
  }

  lemma SameBytesStep(m: seq<byte>, p: nat, q: nat, n: nat)
    requires 0 < p && 0 < q && p + n <= |m| && q + n <= |m|
    ensures SameBytes(m, p - 1, q - 1, n + 1) <==> m[p - 1] == m[q - 1] && SameBytes(m, p, q, n)
  {
    assert m[p - 1..p + n] == [m[p - 1]] + m[p..p + n];
    assert m[q - 1..q + n] == [m[q - 1]] + m[q..q + n];
  }

  lemma SameBytesWord(m: seq<byte>, p: nat, q: nat, n: nat)
    requires WORD <= p && WORD <= q && p + n <= |m| && q + n <= |m|
    ensures SameBytes(m, p - WORD, q - WORD, n + WORD)
       <==> WordAt(m, p - WORD) == WordAt(m, q - WORD) && SameBytes(m, p, q, n)
  {
    hide SameBytes, WordAt;
    WordDeterminesBytes(m, p - WORD, m, q - WORD);
    SameBytesStep(m, p, q, n);
    SameBytesStep(m, p - 1, q - 1, n + 1);
    SameBytesStep(m, p - 2, q - 2, n + 2);
    SameBytesStep(m, p - 3, q - 3, n + 3);
  }

  /** A difference in a tail is a difference in the whole. */
  lemma TailDiffers(m: seq<byte>, p: nat, q: nat, n: nat, k: nat)
    requires k <= n && p + n <= |m| && q + n <= |m| && SameBytes(m, p, q, n)
    ensures SameBytes(m, p + k, q + k, n - k)
  {
    assert m[p + k..p + n] == m[p..p + n][k..] == m[q..q + n][k..] == m[q + k..q + n];
  }

  /** Comparing two words on aligned addresses. */
  method WordsAgree(m: array<byte>, a: nat, b: nat) returns (same: bool)
    requires Aligned(a) && Aligned(b) && a + WORD <= m.Length && b + WORD <= m.Length
    ensures same <==> WordAt(m[..], a) == WordAt(m[..], b)
  {
    hide WordAt;
    var word1 := LoadAligned(m, a);
    var word2 := LoadAligned(m, b);
    same := word1 == word2;
  }

  /** The octets of Mem_Cmp() down to a word boundary, while nothing differs. */
  method CmpOctets(m: array<byte>, p1: nat, p2: nat, size: nat, octets: nat) returns (memCmp: bool, sizeRem: nat)
    requires p1 + size <= m.Length && p2 + size <= m.Length
    ensures sizeRem <= size && size - sizeRem <= octets
    ensures memCmp <==> SameBytes(m[..], p1 + sizeRem, p2 + sizeRem, size - sizeRem)
    ensures memCmp && sizeRem > 0 ==> size - sizeRem == octets
  {
    hide SameBytes;
    memCmp, sizeRem := true, size;
    var q1, q2 := p1 + size, p2 + size;
    SameBytesNone(m[..], q1, q2);
    var i := octets;
    while memCmp && sizeRem > 0 && i > 0
      invariant sizeRem <= size && q1 == p1 + sizeRem && q2 == p2 + sizeRem
      invariant 0 <= i <= octets && octets - i == size - sizeRem
      invariant memCmp <==> SameBytes(m[..], q1, q2, size - sizeRem)
      decreases sizeRem
    {
      SameBytesStep(m[..], q1, q2, size - sizeRem);
      q1, q2 := q1 - 1, q2 - 1;
      if m[q1] != m[q2] {
        memCmp := false;
      }
      sizeRem, i := sizeRem - 1, i - 1;
    }
  }

  /** The aligned part of Mem_Cmp(): octets down to a word boundary, then words, while nothing differs. */
  method CmpAligned(m: array<byte>, p1: nat, p2: nat, size: nat) returns (memCmp: bool, sizeRem: nat)
    requires m.Length <= MODULUS && p1 + size <= m.Length && p2 + size <= m.Length
    requires (p1 + size) % WORD == (p2 + size) % WORD
    ensures sizeRem <= size
    ensures memCmp <==> SameBytes(m[..], p1 + sizeRem, p2 + sizeRem, size - sizeRem)
  {
    hide SameBytes, WordAt, Aligned;
    AlignedAround(p1 + size);
    AlignedAround(p2 + size);
    memCmp, sizeRem := CmpOctets(m, p1, p2, size, (p1 + size) % WORD);
    if memCmp {
      var q1, q2 := p1 + sizeRem, p2 + sizeRem;
      while memCmp && sizeRem >= WORD
        invariant sizeRem <= size && q1 == p1 + sizeRem && q2 == p2 + sizeRem
        invariant sizeRem >= WORD ==> Aligned(q1) && Aligned(q2)
        invariant memCmp <==> SameBytes(m[..], q1, q2, size - sizeRem)
        decreases sizeRem
      {
        SameBytesWord(m[..], q1, q2, size - sizeRem);
        AlignedStep(q1);
        AlignedStep(q2);
        q1, q2 := q1 - WORD, q2 - WORD;
        var same := WordsAgree(m, q1, q2);
        if !same {
          memCmp := false;
        }
        sizeRem := sizeRem - WORD;
      }
    }
  }

  /** Mem_Cmp() answers yes exactly when all octets agree; a null buffer differs unless nothing is compared. */
  method MemCmp(m: array<byte>, p1: nat, p2: nat, size: nat) returns (memCmp: bool)
    requires m.Length <= MODULUS && p1 + size <= m.Length && p2 + size <= m.Length
    ensures memCmp <==> size == 0 || (p1 != 0 && p2 != 0 && SameBytes(m[..], p1, p2, size))
  {
    hide SameBytes;
    if size < 1 {
      return true;
    }
    if p1 == 0 || p2 == 0 {
      return false;
    }
    memCmp := true;
    var sizeRem: nat := size;
    var q1, q2 := p1 + size, p2 + size;
    SameBytesNone(m[..], q1, q2);
    if q1 % WORD == q2 % WORD {
      memCmp, sizeRem := CmpAligned(m, p1, p2, size);
      q1, q2 := p1 + sizeRem, p2 + sizeRem;
    }
    while memCmp && sizeRem > 0
      invariant sizeRem <= size && q1 == p1 + sizeRem && q2 == p2 + sizeRem
      invariant memCmp <==> SameBytes(m[..], q1, q2, size - sizeRem)
      decreases sizeRem
    {
      SameBytesStep(m[..], q1, q2, size - sizeRem);
      q1, q2 := q1 - 1, q2 - 1;
      if m[q1] != m[q2] {
        memCmp := false;
      }
      sizeRem := sizeRem - 1;
    }
    if SameBytes(m[..], p1, p2, size) {
      TailDiffers(m[..], p1, p2, size, sizeRem);
    }
  }

  lemma SameBytesNone(m: seq<byte>, p: nat, q: nat)
    requires p <= |m| && q <= |m|
    ensures SameBytes(m, p, q, 0)
  {}
}
