/** Memory segments of lib_mem.c: a bump allocator over [AddrBase, AddrEnd] in 32-bit arithmetic. */
module Segments {
  import opened Bits
  import opened Rounding

  /** LIB_MEM_PADDING_ALIGN_NONE */
  const PADDING_NONE: nat := 1

  /** The three addresses of a MEM_SEG. */
  datatype Seg = Seg(base: nat, end: nat, next: nat)

  /** What an allocation call answers; SegOvf carries the value written through p_bytes_reqd. */
  datatype AllocResult =
    | Granted(blk: nat)
    | SegOvf(bytesReqd: nat)
    | InvalidMemSize
    | InvalidMemAlign

  /** The MEM_SEG_INFO that Mem_SegRemSizeGet() fills in. */
  datatype SegInfo = SegInfo(totalSize: nat, usedSize: nat, addrBase: nat, addrNextAlloc: nat)

  function Max(a: nat, b: nat): nat { if a > b then a else b }

  // ----- the code, in wrapping arithmetic -----

  /** Mem_SegAllocExtCritical() */
  function AllocCritical(s: Seg, size: nat, align: nat, pad: nat): (r: (Seg, AllocResult))
    requires s.next < MODULUS && 0 < align < MODULUS && 0 < pad < MODULUS
    ensures r.0.next < MODULUS
    ensures r.1.Granted? ==> r.1.blk < MODULUS
  {
    var blk := RoundIncUpPwr2(s.next, Max(align, pad));
    var next := RoundIncUpPwr2(Wrap(blk + size), pad);
    var rem := Wrap(s.end - s.next + 1);
    var tot := Wrap(next - s.next);
    if rem < tot then (s, SegOvf(Wrap(tot - rem))) else (s.(next := next), Granted(blk))
  }

  /** Mem_SegAllocInternal() */
  function AllocInternal(s: Seg, size: nat, align: nat, pad: nat): (r: (Seg, AllocResult))
    requires s.next < MODULUS && align < MODULUS && 0 < pad < MODULUS
    ensures r.0.next < MODULUS
    ensures r.1.Granted? ==> r.1.blk < MODULUS && 0 < size
  {
    if size < 1 then (s, InvalidMemSize)
    else if !IsPwr2(align) then (s, InvalidMemAlign)
    else AllocCritical(s, size, align, pad)
  }

  /** The statistics of Mem_SegRemSizeGet(). */
  function SegInfoOf(s: Seg, align: nat): SegInfo
    requires s.next < MODULUS && 0 < align < MODULUS
  {
    var next := RoundIncUpPwr2(s.next, align);
    SegInfo(Wrap(s.end - s.base + 1), Wrap(next - s.base), s.base, next)
  }

  /** Mem_SegRemSizeGet() */
  function RemSizeGet(s: Seg, align: nat): nat
    requires s.next < MODULUS && 0 < align < MODULUS
  {
    var i := SegInfoOf(s, align);
    Wrap(i.totalSize - i.usedSize)
  }

  // ----- what it means, in unbounded arithmetic -----

  /** The next free address, which is one past the address space when a full segment ends at 0xFFFFFFFF. */
  function TrueNext(s: Seg): nat {
    if s.next >= s.base then s.next else s.next + MODULUS
  }

  ghost predicate SegOk(s: Seg) {
    && s.base <= s.end < MODULUS
    && s.end - s.base + 1 < MODULUS
    && s.next < MODULUS
    && TrueNext(s) <= s.end + 1
  }

  ghost predicate Request(size: nat, align: nat, pad: nat) {
    0 < size < MODULUS && IsAlign(align) && IsAlign(pad)
  }

  /** Where the block goes: the first address from the next free one with both alignments. */
  ghost function BlkStart(s: Seg, align: nat, pad: nat): nat
    requires align > 0 && pad > 0
  {
    CeilTo(TrueNext(s), Max(align, pad))
  }

  /** Where the following allocation goes, after padding. */
  ghost function BlkLimit(s: Seg, size: nat, align: nat, pad: nat): nat
    requires align > 0 && pad > 0
  {
    CeilTo(BlkStart(s, align, pad) + size, pad)
  }

  /** Alignment gap, size and padding together. */
  ghost function TotalSize(s: Seg, size: nat, align: nat, pad: nat): nat
    requires align > 0 && pad > 0
  {
    BlkLimit(s, size, align, pad) - TrueNext(s)
  }

  ghost predicate Fits(s: Seg, size: nat, align: nat, pad: nat)
    requires align > 0 && pad > 0
  {
    BlkLimit(s, size, align, pad) <= s.end + 1
  }

  ghost function Remaining(s: Seg): nat
    requires SegOk(s)
  {
    s.end + 1 - TrueNext(s)
  }

  // ----- the wrapped arithmetic is exact -----

  lemma WrapDiff(a: nat, b: nat)
    ensures Wrap(Wrap(a) - Wrap(b)) == Wrap(a - b)
  {}

  lemma WrapSum(a: nat, b: nat)
    ensures Wrap(Wrap(a) + b) == Wrap(a + b)
  {}

  /** Every intermediate value of the allocator is the true one modulo 2^32. */
  lemma IntermediateValues(s: Seg, size: nat, align: nat, pad: nat)
    requires SegOk(s) && Request(size, align, pad)
    ensures IsAlign(Max(align, pad))
    ensures RoundIncUpPwr2(s.next, Max(align, pad)) == Wrap(BlkStart(s, align, pad))
    ensures RoundIncUpPwr2(Wrap(Wrap(BlkStart(s, align, pad)) + size), pad) == Wrap(BlkLimit(s, size, align, pad))
    ensures Wrap(s.end - s.next + 1) == Remaining(s)
    ensures Wrap(Wrap(BlkLimit(s, size, align, pad)) - s.next) == Wrap(TotalSize(s, size, align, pad))
  {
    hide RoundIncUpPwr2, CeilTo, IsPow2;
    assert s.next == Wrap(TrueNext(s));
    RoundExact(TrueNext(s), Max(align, pad));
    WrapSum(BlkStart(s, align, pad), size);
    RoundExact(BlkStart(s, align, pad) + size, pad);
    WrapDiff(BlkLimit(s, size, align, pad), TrueNext(s));
  }

  /** Storing an address up to AddrEnd + 1 in the 32-bit AddrNext loses nothing. */
  lemma NextMoved(s: Seg, l: nat)
    requires SegOk(s) && TrueNext(s) <= l <= s.end + 1
    ensures SegOk(s.(next := Wrap(l))) && TrueNext(s.(next := Wrap(l))) == l
  {}

  /** The allocator's whole answer, for a request whose rounded total stays below 2^32. */
  lemma AllocExact(s: Seg, size: nat, align: nat, pad: nat)
    requires SegOk(s) && Request(size, align, pad)
    requires TotalSize(s, size, align, pad) < MODULUS
    ensures var (s', r) := AllocCritical(s, size, align, pad);
      if Fits(s, size, align, pad) then
        && r == Granted(BlkStart(s, align, pad))
        && s' == s.(next := s'.next) && SegOk(s') && TrueNext(s') == BlkLimit(s, size, align, pad)
      else
        && r == SegOvf(BlkLimit(s, size, align, pad) - (s.end + 1))
        && s' == s
  {
    hide RoundIncUpPwr2, CeilTo, IsPow2, BlkStart, BlkLimit, Wrap;
    IntermediateValues(s, size, align, pad);
    BlkBounds(s, size, align, pad);
    var b, l := BlkStart(s, align, pad), BlkLimit(s, size, align, pad);
    WrapTurn(l - TrueNext(s));
    if Fits(s, size, align, pad) {
      WrapTurn(b);
      NextMoved(s, l);
    } else {
      WrapTurn(l - (s.end + 1));
    }
  }

  lemma BlkBounds(s: Seg, size: nat, align: nat, pad: nat)
    requires align > 0 && pad > 0
    ensures TrueNext(s) <= BlkStart(s, align, pad) && BlkStart(s, align, pad) + size <= BlkLimit(s, size, align, pad)
  {}

  /** The fit test agrees with the unbounded one exactly when the total does not wrap into the free space. */
  lemma FitTestExact(s: Seg, size: nat, align: nat, pad: nat)
    requires SegOk(s) && Request(size, align, pad)
    ensures (AllocCritical(s, size, align, pad).1.Granted? <==> Fits(s, size, align, pad))
       <==> (TotalSize(s, size, align, pad) < MODULUS || Wrap(TotalSize(s, size, align, pad)) > Remaining(s))
  {
    hide RoundIncUpPwr2, CeilTo, IsPow2, BlkStart, BlkLimit, Wrap, TrueNext;
    IntermediateValues(s, size, align, pad);
    BlkBounds(s, size, align, pad);
    if TotalSize(s, size, align, pad) < MODULUS { WrapTurn(TotalSize(s, size, align, pad)); }
  }

  /** The allocator's answer to every request, the wrapping total included: it is granted when that total fits, and
      then placed at the aligned address and followed by the wrapped total; otherwise it reports what is missing. */
  lemma AllocAlways(s: Seg, size: nat, align: nat, pad: nat)
    requires SegOk(s) && Request(size, align, pad)
    ensures var ((s', r), tot) := (AllocCritical(s, size, align, pad), Wrap(TotalSize(s, size, align, pad)));
      if tot <= Remaining(s) then
        && r == Granted(Wrap(BlkStart(s, align, pad)))
        && s' == s.(next := s'.next) && SegOk(s') && TrueNext(s') == TrueNext(s) + tot
      else
        r == SegOvf(tot - Remaining(s)) && s' == s
  {
    hide RoundIncUpPwr2, CeilTo, IsPow2, BlkStart, BlkLimit, TotalSize, Wrap;
    IntermediateValues(s, size, align, pad);
    var tot := Wrap(TotalSize(s, size, align, pad));
    if tot <= Remaining(s) {
      NextMovedBy(s, BlkLimit(s, size, align, pad), tot);
    } else {
      WrapTurn(tot - Remaining(s));
    }
  }

  lemma NextMovedBy(s: Seg, l: nat, tot: nat)
    requires SegOk(s) && tot <= Remaining(s) && tot == Wrap(Wrap(l) - s.next)
    ensures SegOk(s.(next := Wrap(l))) && TrueNext(s.(next := Wrap(l))) == TrueNext(s) + tot
  {}

  /** The argument errors, for any size and alignment: a size of 0 comes first, then an alignment that is not a power
      of two; neither changes the segment, and for any other arguments the answer is a block or an overflow. */
  lemma AllocErrors(s: Seg, size: nat, align: nat, pad: nat)
    requires s.next < MODULUS && align < MODULUS && 0 < pad < MODULUS
    ensures var (s', r) := AllocInternal(s, size, align, pad);
      && (r.InvalidMemSize? <==> size == 0)
      && (r.InvalidMemAlign? <==> size > 0 && !IsPow2(align))
      && (!r.Granted? ==> s' == s)
  {
    hide RoundIncUpPwr2, IsPow2, Wrap;
  }

  /** The number reported on overflow is the least growth of the segment that lets the same call succeed. */
  lemma BytesRequiredIsLeast(s: Seg, size: nat, align: nat, pad: nat, extra: nat)
    requires SegOk(s) && Request(size, align, pad)
    requires AllocCritical(s, size, align, pad).1.SegOvf?
    requires SegOk(s.(end := s.end + extra))
    ensures AllocCritical(s.(end := s.end + extra), size, align, pad).1.Granted?
       <==> extra >= AllocCritical(s, size, align, pad).1.bytesReqd
  {
    hide RoundIncUpPwr2, CeilTo, IsPow2, BlkStart, BlkLimit, TotalSize, Wrap;
    IntermediateValues(s, size, align, pad);
    IntermediateValues(s.(end := s.end + extra), size, align, pad);
    WrapTurn(Wrap(TotalSize(s, size, align, pad)) - Remaining(s));
  }

  // ----- reported space -----

  /** Where the next block with this alignment would start. */
  ghost function NextAligned(s: Seg, align: nat): nat
    requires align > 0
  {
    CeilTo(TrueNext(s), align)
  }

  /** The sizes reported for a segment: the remainder is off by a whole turn once rounding passes the end. */
  lemma RemSizeExact(s: Seg, align: nat)
    requires SegOk(s) && IsAlign(align)
    ensures var i, e := SegInfoOf(s, align), NextAligned(s, align);
      && i == SegInfo(s.end - s.base + 1, Wrap(e - s.base), s.base, Wrap(e))
      && RemSizeGet(s, align) == if e <= s.end + 1 then s.end + 1 - e else s.end + 1 - e + MODULUS
  {
    hide RoundIncUpPwr2, CeilTo, IsPow2, Wrap;
    var e, total := NextAligned(s, align), s.end - s.base + 1;
    NextAlignedBound(s, align);
    RoundedNext(s, align);
    WrapTurn(total);
    WrapDiff(total, e - s.base);
    WrapTurn(s.end + 1 - e);
    WrapTurn(s.end + 1 - e + MODULUS);
  }

  lemma RoundedNext(s: Seg, align: nat)
    requires SegOk(s) && IsAlign(align)
    ensures RoundIncUpPwr2(s.next, align) == Wrap(NextAligned(s, align))
    ensures Wrap(Wrap(NextAligned(s, align)) - s.base) == Wrap(NextAligned(s, align) - s.base)
  {
    hide RoundIncUpPwr2, CeilTo, IsPow2;
    RoundExact(TrueNext(s), align);
    assert s.next == Wrap(TrueNext(s));
    WrapDiff(NextAligned(s, align), s.base);
  }

  /** Rounding up never leaves the address space, because 2^32 is itself aligned. */
  lemma NextAlignedBound(s: Seg, align: nat)
    requires SegOk(s) && IsAlign(align)
    ensures TrueNext(s) <= NextAligned(s, align) <= MODULUS
  {
    ModulusIsMultiple(align);
    CeilIsLeast(TrueNext(s), align, MODULUS);
  }

  /** Used and remaining size add up to the total, except where rounding passed the end. */
  lemma SizesAddUp(s: Seg, align: nat)
    requires SegOk(s) && IsAlign(align)
    ensures SegInfoOf(s, align).usedSize + RemSizeGet(s, align) == SegInfoOf(s, align).totalSize
       <==> NextAligned(s, align) <= s.end + 1 || NextAligned(s, align) == s.base + MODULUS
  {
    hide RemSizeGet, SegInfoOf, NextAligned, IsPow2;
    RemSizeExact(s, align);
    NextAlignedBound(s, align);
  }

  /** Mem_SegAllocExt() has no padding, so a block ends where its bytes end. */
  lemma UnpaddedLimit(s: Seg, size: nat, align: nat)
    requires IsAlign(align)
    ensures IsAlign(PADDING_NONE) && Max(align, PADDING_NONE) == align
    ensures BlkLimit(s, size, align, PADDING_NONE) == NextAligned(s, align) + size
  {
    assert Pow2(0) == 1;
    CeilOfMultiple(BlkStart(s, align, 1) + size, 1);
  }

  /** Whether Mem_SegAllocExt() grants exactly the sizes that the reported remainder covers. */
  ghost predicate ReportAgrees(s: Seg, align: nat)
    requires SegOk(s) && IsAlign(align)
  {
    forall size: nat | 0 < size < MODULUS && TotalSize(s, size, align, PADDING_NONE) < MODULUS ::
      AllocInternal(s, size, align, PADDING_NONE).1.Granted? <==> size <= RemSizeGet(s, align)
  }

  /** The report can be trusted if and only if the rounded next address does not pass the segment's end. */
  lemma ReportAgreesIff(s: Seg, align: nat)
    requires SegOk(s) && IsAlign(align)
    ensures ReportAgrees(s, align) <==> NextAligned(s, align) <= s.end + 1
  {
    hide AllocCritical, RemSizeGet, CeilTo, IsPow2, IsPwr2;
    RemSizeExact(s, align);
    forall size: nat | 0 < size < MODULUS && TotalSize(s, size, align, PADDING_NONE) < MODULUS
      ensures AllocInternal(s, size, align, PADDING_NONE).1.Granted? <==> NextAligned(s, align) + size <= s.end + 1
    {
      UnpaddedLimit(s, size, align);
      AllocExact(s, size, align, PADDING_NONE);
    }
    if NextAligned(s, align) > s.end + 1 {
      UnpaddedLimit(s, 1, align);
      assert !AllocInternal(s, 1, align, PADDING_NONE).1.Granted? && 1 <= RemSizeGet(s, align);
    }
  }

  /** A segment whose last byte is free and whose report promises nearly 2^32 bytes, while not even one fits. */
  lemma ReportPromisesTooMuch()
    ensures var s := Seg(4, 9, 9);
      && SegOk(s) && IsAlign(4)
      && RemSizeGet(s, 4) == MODULUS - 2
      && AllocInternal(s, 1, 4, PADDING_NONE).1 == SegOvf(3)
  {
    hide AllocCritical, SegInfoOf, IsPwr2;
    var s := Seg(4, 9, 9);
    assert Pow2(2) == 4;
    assert NextAligned(s, 4) == 12;
    RemSizeExact(s, 4);
    UnpaddedLimit(s, 1, 4);
    AllocExact(s, 1, 4, PADDING_NONE);
  }

  // ----- several blocks from one allocation -----

  /** Whatever is asked for, and even where the fit test errs, the segment's fields stay sound and its next address
      does not move back. */
  lemma AllocKeeps(s: Seg, size: nat, align: nat, pad: nat)
    requires SegOk(s) && size < MODULUS && align < MODULUS && IsAlign(pad)
    ensures var (s', r) := AllocInternal(s, size, align, pad);
      && SegOk(s') && s' == s.(next := s'.next) && TrueNext(s) <= TrueNext(s')
      && (!r.Granted? ==> s' == s)
  {
    hide RoundIncUpPwr2, CeilTo, IsPow2, IsPwr2, BlkStart, BlkLimit, TotalSize;
    if 0 < size && IsPwr2(align) {
      PwrIsAlign(align);
      IntermediateValues(s, size, align, pad);
      var next := Wrap(BlkLimit(s, size, align, pad));
      if Wrap(next - s.next) <= Remaining(s) { TurnedBack(s, next); }
    }
  }

  /** A next address within the free space, however it was reached. */
  lemma TurnedBack(s: Seg, next: nat)
    requires SegOk(s) && next < MODULUS && Wrap(next - s.next) <= Remaining(s)
    ensures SegOk(s.(next := next)) && TrueNext(s) <= TrueNext(s.(next := next))
  {}

  /** Blocks that are granted at all have the true distance: one that wraps is 0, and asking for 0 bytes fails. */
  lemma GrantedDistance(s: Seg, c: nat, n: nat, size: nat, align: nat)
    requires SegOk(s) && 0 < size < MODULUS && IsAlign(align) && c == RoundIncUpPwr2(size, align)
    requires AllocInternal(s, Wrap(c * n), align, PADDING_NONE).1.Granted?
    ensures size <= c == CeilTo(size, align) < MODULUS
  {
    hide AllocCritical, CeilTo, IsPow2, RoundIncUpPwr2;
    RoundWordExact(size, align);
    ModulusIsMultiple(align);
    CeilIsLeast(size, align, MODULUS);
    WrapTurn(if CeilTo(size, align) < MODULUS then CeilTo(size, align) else 0);
  }

  /** An aligned segment with room grants. */
  lemma PlainGrant(s: Seg, size: nat, align: nat)
    requires SegOk(s) && IsAlign(align) && s.base <= s.next && s.next % align == 0
    requires 0 < size && s.next + size <= s.end + 1
    ensures AllocInternal(s, size, align, PADDING_NONE) == (s.(next := Wrap(s.next + size)), Granted(s.next))
  {
    hide AllocCritical, CeilTo, IsPow2, IsPwr2;
    UnpaddedLimit(s, size, align);
    CeilOfMultiple(s.next, align);
    AllocExact(s, size, align, PADDING_NONE);
  }

  /** Where the code places block k of size c, counting from an allocation at start, and whether that is inside. */
  function BlkAt(start: nat, c: nat, k: nat): nat { Wrap(start + k * c) }

  ghost predicate BlkInside(s: Seg, start: nat, c: nat, k: nat) {
    s.base <= BlkAt(start, c, k) && BlkAt(start, c, k) + c <= s.end + 1
  }

  /** When an allocation for n blocks of size c is granted, the blocks all lie inside the segment if and only if the
      true total, alignment gap included, is below 2^32. The product c * n itself is taken modulo 2^32, unchecked. */
  lemma BlksInsideIff(s: Seg, c: nat, n: nat, align: nat)
    requires SegOk(s) && 0 < s.base && 0 < c < MODULUS && 0 < n && IsAlign(align)
    requires AllocInternal(s, Wrap(c * n), align, PADDING_NONE).1.Granted?
    ensures IsAlign(PADDING_NONE)
    ensures var start := AllocInternal(s, Wrap(c * n), align, PADDING_NONE).1.blk;
      (forall k: nat | k < n :: BlkInside(s, start, c, k)) <==> TotalSize(s, c * n, align, PADDING_NONE) < MODULUS
  {
    hide RoundIncUpPwr2, CeilTo, IsPow2, IsPwr2, AllocInternal, BlkAt, BlkStart, BlkLimit;
    var z := Wrap(c * n);
    var start := AllocInternal(s, z, align, PADDING_NONE).1.blk;
    UnpaddedLimit(s, c * n, align);
    GrantedStart(s, z, align);
    if TotalSize(s, c * n, align, PADDING_NONE) < MODULUS {
      NextAlignedBound(s, align);
      WrapTurn(c * n);
      GrantedFits(s, z, align);
      forall k: nat | k < n
        ensures BlkInside(s, start, c, k)
      {
        BlkAtExact(start, c, k, n);
      }
    }
    if forall k: nat | k < n :: BlkInside(s, start, c, k) {
      InsideFits(s, start, c, n, align);
    }
  }

  lemma InsideFits(s: Seg, start: nat, c: nat, n: nat, align: nat)
    requires SegOk(s) && 0 < s.base && 0 < c < MODULUS && 0 < n && IsAlign(align)
    requires start == Wrap(NextAligned(s, align)) && forall k: nat | k < n :: BlkInside(s, start, c, k)
    ensures NextAligned(s, align) + c * n - TrueNext(s) < MODULUS
  {
    hide BlkInside, CeilTo, IsPow2;
    NoTurn(s, start, c, n, n - 1);
    assert (n - 1) * c + c == c * n;
    NextAlignedBound(s, align);
    WrapTurn(NextAligned(s, align));
  }

  lemma GrantedStart(s: Seg, size: nat, align: nat)
    requires SegOk(s) && IsAlign(align) && size < MODULUS && AllocInternal(s, size, align, PADDING_NONE).1.Granted?
    ensures 0 < size && AllocInternal(s, size, align, PADDING_NONE).1.blk == Wrap(NextAligned(s, align))
  {
    hide RoundIncUpPwr2, CeilTo, IsPow2, IsPwr2;
    UnpaddedLimit(s, size, align);
    IntermediateValues(s, size, align, PADDING_NONE);
  }

  lemma GrantedFits(s: Seg, size: nat, align: nat)
    requires SegOk(s) && IsAlign(align) && 0 < size < MODULUS && AllocInternal(s, size, align, PADDING_NONE).1.Granted?
    requires NextAligned(s, align) + size - TrueNext(s) < MODULUS
    ensures AllocInternal(s, size, align, PADDING_NONE).1.blk == NextAligned(s, align)
    ensures NextAligned(s, align) + size <= s.end + 1
  {
    hide AllocCritical, CeilTo, IsPow2, IsPwr2;
    UnpaddedLimit(s, size, align);
    AllocExact(s, size, align, PADDING_NONE);
  }

  lemma BlkAtExact(start: nat, c: nat, k: nat, n: nat)
    requires 0 < c && k < n && start + c * n <= MODULUS
    ensures BlkAt(start, c, k) == start + k * c && start + k * c + c <= start + c * n
  {
    MulMonotone(k + 1, n, c);
    assert (k + 1) * c == k * c + c && n * c == c * n;
    WrapTurn(start + k * c);
  }

  /** Blocks that are all inside follow one another without going round the address space. */
  lemma {:induction false} NoTurn(s: Seg, start: nat, c: nat, n: nat, k: nat)
    requires SegOk(s) && 0 < s.base && 0 < c && k < n && start < MODULUS
    requires forall j: nat | j < n :: BlkInside(s, start, c, j)
    ensures start + k * c + c <= s.end + 1 && s.base <= start
  {
    assert BlkInside(s, start, c, k);
    if k != 0 {
      NoTurn(s, start, c, n, k - 1);
      assert start + k * c == start + (k - 1) * c + c;
    }
  }

  /** With room the block distance is the true one. */
  lemma DistanceExact(s: Seg, n: nat, size: nat, align: nat)
    requires SegOk(s) && 0 < n && 0 < size < MODULUS && IsAlign(align)
    requires NextAligned(s, align) + CeilTo(size, align) * n - TrueNext(s) < MODULUS
    ensures var c := CeilTo(size, align);
      && RoundIncUpPwr2(size, align) == c > 0 && Wrap(c * n) == c * n > 0
  {
    hide CeilTo, IsPow2, RoundIncUpPwr2;
    var c := CeilTo(size, align);
    NextAlignedBound(s, align);
    MulMonotone(1, n, c);
    assert n * c == c * n;
    RoundWordExact(size, align);
    WrapTurn(c);
    WrapTurn(c * n);
  }

  /** An unpadded request whose true total stays below 2^32. */
  lemma PlainExact(s: Seg, size: nat, align: nat)
    requires SegOk(s) && 0 < size < MODULUS && IsAlign(align) && NextAligned(s, align) + size - TrueNext(s) < MODULUS
    ensures var ((s', r), e) := (AllocInternal(s, size, align, PADDING_NONE), NextAligned(s, align) + size);
      && SegOk(s') && s' == s.(next := s'.next)
      && (if e <= s.end + 1 then r == Granted(NextAligned(s, align)) && TrueNext(s') == e
          else r == SegOvf(e - (s.end + 1)) && s' == s)
  {
    hide AllocCritical, CeilTo, IsPow2, IsPwr2;
    UnpaddedLimit(s, size, align);
    AllocExact(s, size, align, PADDING_NONE);
  }

  // ----- whole runs -----

  /** A block handed out, with the coarser of its two alignments. */
  datatype Blk = Blk(addr: nat, size: nat, unit: nat)

  /** A segment with the blocks handed out since it was created or last cleared, oldest first. */
  datatype Heap = Heap(seg: Seg, live: seq<Blk>)

  datatype Op = Alloc(size: nat, align: nat, pad: nat) | Clear

  /** Any arguments a caller may pass; only a padding taken from a segment is required. */
  ghost predicate Legal(op: Op) {
    match op
    case Clear => true
    case Alloc(size, align, pad) => size < MODULUS && align < MODULUS && IsAlign(pad)
  }

  ghost function Step(h: Heap, op: Op): (h': Heap)
    requires SegOk(h.seg) && Legal(op)
    ensures SegOk(h'.seg) && h'.seg.base == h.seg.base && h'.seg.end == h.seg.end
  {
    match op
    case Clear => Heap(h.seg.(next := h.seg.base), [])
    case Alloc(size, align, pad) =>
      AllocKeeps(h.seg, size, align, pad);
      var (s, r) := AllocInternal(h.seg, size, align, pad);
      Heap(s, if r.Granted? then h.live + [Blk(r.blk, size, Max(align, pad))] else h.live)
  }

  /** A request whose true total reaches 2^32 and, taken modulo 2^32, passes for one that fits. */
  ghost predicate WrongGrant(s: Seg, op: Op)
    requires SegOk(s)
  {
    && op.Alloc? && Request(op.size, op.align, op.pad)
    && TotalSize(s, op.size, op.align, op.pad) >= MODULUS
    && Wrap(TotalSize(s, op.size, op.align, op.pad)) <= Remaining(s)
  }

  ghost predicate BlkOk(s: Seg, b: Blk) {
    && b.size > 0 && s.base <= b.addr && b.addr + b.size <= TrueNext(s)
    && b.unit > 0 && b.addr % b.unit == 0
  }

  /** Live blocks lie in the used part of the segment, are aligned, and are laid out one after the other. */
  ghost predicate Safe(h: Heap) {
    && SegOk(h.seg)
    && (forall i | 0 <= i < |h.live| :: BlkOk(h.seg, h.live[i]))
    && (forall i, j | 0 <= i < j < |h.live| :: h.live[i].addr + h.live[i].size <= h.live[j].addr)
  }

  /** Any call but Mem_SegClr() withdraws no block and moves AddrNext forward only, and changes nothing when it
      fails. */
  lemma StepForward(h: Heap, op: Op)
    requires SegOk(h.seg) && Legal(op) && op.Alloc?
    ensures h.live <= Step(h, op).live && TrueNext(h.seg) <= TrueNext(Step(h, op).seg)
    ensures !AllocInternal(h.seg, op.size, op.align, op.pad).1.Granted? ==> Step(h, op) == h
  {
    hide AllocInternal, IsPow2;
    AllocKeeps(h.seg, op.size, op.align, op.pad);
  }

  /** One call keeps a safe segment safe if and only if it is not a wrong grant. */
  lemma StepSafeIff(h: Heap, op: Op)
    requires Safe(h) && 0 < h.seg.base && Legal(op)
    ensures Safe(Step(h, op)) <==> !WrongGrant(h.seg, op)
  {
    hide AllocInternal, CeilTo, IsPow2, IsPwr2, BlkOk, TotalSize;
    match op
    case Clear =>
    case Alloc(size, align, pad) =>
      if !WrongGrant(h.seg, op) {
        RightStepSafe(h, op);
      } else {
        WrongBlk(h.seg, size, align, pad);
        var r := AllocInternal(h.seg, size, align, pad).1;
        assert Step(h, op).live[|h.live|] == Blk(r.blk, size, Max(align, pad));
      }
  }

  lemma RightStepSafe(h: Heap, op: Op)
    requires Safe(h) && Legal(op) && op.Alloc? && !WrongGrant(h.seg, op)
    ensures Safe(Step(h, op))
  {
    hide CeilTo, IsPow2, IsPwr2, RoundIncUpPwr2, BlkStart, BlkLimit, TotalSize, Wrap, BlkOk, TrueNext;
    if op.size != 0 && IsPwr2(op.align) {
      PwrIsAlign(op.align);
      if TotalSize(h.seg, op.size, op.align, op.pad) < MODULUS {
        RightBlk(h.seg, op.size, op.align, op.pad);
        MoreSafe(h, op);
      } else {
        IntermediateValues(h.seg, op.size, op.align, op.pad);
      }
    }
  }

  /** A sound block after all others keeps the segment safe. */
  lemma MoreSafe(h: Heap, op: Op)
    requires Safe(h) && Legal(op) && op.Alloc?
    requires var (s', r) := AllocInternal(h.seg, op.size, op.align, op.pad);
      && TrueNext(h.seg) <= TrueNext(s')
      && (r.Granted? ==> TrueNext(h.seg) <= r.blk && BlkOk(s', Blk(r.blk, op.size, Max(op.align, op.pad))))
    ensures Safe(Step(h, op))
  {
    hide AllocInternal, TrueNext, IsPow2, SegOk;
  }

  /** A block that is granted rightly comes after all earlier ones. */
  lemma RightBlk(s: Seg, size: nat, align: nat, pad: nat)
    requires SegOk(s) && Request(size, align, pad) && TotalSize(s, size, align, pad) < MODULUS
    ensures var (s', r) := AllocInternal(s, size, align, pad);
      && TrueNext(s) <= TrueNext(s')
      && (r.Granted? ==> TrueNext(s) <= r.blk && BlkOk(s', Blk(r.blk, size, Max(align, pad))))
  {
    hide AllocCritical, CeilTo, IsPow2, IsPwr2;
    AllocExact(s, size, align, pad);
    BlkBounds(s, size, align, pad);
    CeilIsMultiple(TrueNext(s), Max(align, pad));
  }

  /** A block that is granted wrongly reaches beyond the used part of the segment, or starts at address 0. */
  lemma WrongBlk(s: Seg, size: nat, align: nat, pad: nat)
    requires SegOk(s) && 0 < s.base && WrongGrant(s, Alloc(size, align, pad))
    ensures var (s', r) := AllocInternal(s, size, align, pad);
      r.Granted? && !BlkOk(s', Blk(r.blk, size, Max(align, pad)))
  {
    hide RoundIncUpPwr2, CeilTo, IsPow2, IsPwr2, Wrap, BlkStart, BlkLimit, TrueNext, Max, SegOk;
    var b, l := BlkStart(s, align, pad), BlkLimit(s, size, align, pad);
    WrongNext(s, size, align, pad);
    StartBound(s, align, pad);
    LimitBound(s, size, align, pad);
    if b < MODULUS { WrapTurn(b); } else { WrapTurn(0); }
  }

  lemma LimitBound(s: Seg, size: nat, align: nat, pad: nat)
    requires align > 0 && pad > 0
    ensures BlkLimit(s, size, align, pad) < BlkStart(s, align, pad) + size + pad
  {
    hide CeilTo;
  }

  /** What the code does on a wrong grant. */
  lemma WrongNext(s: Seg, size: nat, align: nat, pad: nat)
    requires SegOk(s) && WrongGrant(s, Alloc(size, align, pad))
    ensures var (s', r) := AllocInternal(s, size, align, pad);
      && r == Granted(Wrap(BlkStart(s, align, pad)))
      && s'.base == s.base && TrueNext(s') <= BlkLimit(s, size, align, pad) - MODULUS
  {
    hide RoundIncUpPwr2, CeilTo, IsPow2, Wrap, BlkStart, BlkLimit, TrueNext;
    IntermediateValues(s, size, align, pad);
    RoundNext(s, TotalSize(s, size, align, pad));
  }

  lemma StartBound(s: Seg, align: nat, pad: nat)
    requires SegOk(s) && IsAlign(align) && IsAlign(pad)
    ensures BlkStart(s, align, pad) <= MODULUS
  {
    ModulusIsMultiple(Max(align, pad));
    CeilIsLeast(TrueNext(s), Max(align, pad), MODULUS);
  }

  /** The next address after a total that wraps. */
  lemma RoundNext(s: Seg, tot: nat)
    requires SegOk(s) && MODULUS <= tot && Wrap(tot) <= Remaining(s)
    ensures TrueNext(s.(next := Wrap(TrueNext(s) + tot))) <= TrueNext(s) + tot - MODULUS
  {}

  /** This request is granted although it cannot fit, and the block it hands out is not inside the segment. */
  lemma WrappedRequestGranted()
    ensures var s := Seg(4, 99, 4);
      && SegOk(s) && Request(0xFFFF_FFFE, 8, 1)
      && AllocCritical(s, 0xFFFF_FFFE, 8, 1).1.Granted?
      && !Fits(s, 0xFFFF_FFFE, 8, 1)
      && Safe(Heap(s, [])) && !Safe(Step(Heap(s, []), Alloc(0xFFFF_FFFE, 8, 1)))
  {
    hide AllocCritical, Step, BlkOk;
    var s := Seg(4, 99, 4);
    assert Pow2(0) == 1 && Pow2(3) == 8;
    assert BlkStart(s, 8, 1) == 8;
    CeilOfMultiple(8 + 0xFFFF_FFFE, 1);
    FitTestExact(s, 0xFFFF_FFFE, 8, 1);
    StepSafeIff(Heap(s, []), Alloc(0xFFFF_FFFE, 8, 1));
  }

  ghost predicate AllLegal(ops: seq<Op>) { forall op | op in ops :: Legal(op) }

  ghost function Run(h: Heap, ops: seq<Op>): (h': Heap)
    requires SegOk(h.seg) && AllLegal(ops)
    ensures SegOk(h'.seg) && h'.seg.base == h.seg.base && h'.seg.end == h.seg.end
    decreases |ops|
  {
    if ops == [] then h
    else
      assert ops[0] in ops && forall op | op in ops[1..] :: op in ops;
      Run(Step(h, ops[0]), ops[1..])
  }

  /** Every state of the run is safe. */
  ghost predicate SafeRun(h: Heap, ops: seq<Op>)
    requires SegOk(h.seg) && AllLegal(ops)
    decreases |ops|
  {
    Safe(h) && (ops == [] ||
      (assert ops[0] in ops && forall op | op in ops[1..] :: op in ops;
       SafeRun(Step(h, ops[0]), ops[1..])))
  }

  /** No call of the run is a wrong grant. */
  ghost predicate RightRun(h: Heap, ops: seq<Op>)
    requires SegOk(h.seg) && AllLegal(ops)
    decreases |ops|
  {
    ops == [] ||
      (assert ops[0] in ops && forall op | op in ops[1..] :: op in ops;
       !WrongGrant(h.seg, ops[0]) && RightRun(Step(h, ops[0]), ops[1..]))
  }

  /** Over any sequence of calls all states are safe if and only if none of the calls is a wrong grant. */
  lemma {:induction false} RunSafeIff(h: Heap, ops: seq<Op>)
    requires Safe(h) && 0 < h.seg.base && AllLegal(ops)
    ensures SafeRun(h, ops) <==> RightRun(h, ops)
    ensures RightRun(h, ops) ==> Safe(Run(h, ops))
    decreases |ops|
  {
    hide Step, Legal, WrongGrant, BlkOk;
    if ops != [] {
      assert ops[0] in ops && forall op | op in ops[1..] :: op in ops;
      StepSafeIff(h, ops[0]);
      if Safe(Step(h, ops[0])) {
        RunSafeIff(Step(h, ops[0]), ops[1..]);
      }
    }
  }

  /** Over any sequence of calls, wrong grants included, blocks are only withdrawn and AddrNext only moved back by
      Mem_SegClr(). */
  lemma {:induction false} RunForward(h: Heap, ops: seq<Op>)
    requires SegOk(h.seg) && AllLegal(ops) && Clear !in ops
    ensures h.live <= Run(h, ops).live && TrueNext(h.seg) <= TrueNext(Run(h, ops).seg)
    decreases |ops|
  {
    hide Step, Legal;
    if ops != [] {
      assert ops[0] in ops && forall op | op in ops[1..] :: op in ops;
      StepForward(h, ops[0]);
      RunForward(Step(h, ops[0]), ops[1..]);
    }
  }

  lemma PwrIsAlign(align: nat)
    requires align < MODULUS && IsPwr2(align)
    ensures IsAlign(align)
  {}

  /** The byte at a belongs to the block. */
  predicate Owns(b: Blk, a: nat) { b.addr <= a < b.addr + b.size }

  /** What Safe means for two live blocks: no shared byte, both inside [AddrBase, AddrEnd], both doubly aligned. */
  lemma SafeBlocks(h: Heap, i: nat, j: nat, size: nat, align: nat, pad: nat)
    requires Safe(h) && i < |h.live| && j < |h.live| && i != j
    requires IsAlign(align) && IsAlign(pad) && h.live[i].unit == Max(align, pad)
    ensures forall a: nat :: Owns(h.live[i], a) ==> h.seg.base <= a <= h.seg.end && !Owns(h.live[j], a)
    ensures h.live[i].addr % align == 0 && h.live[i].addr % pad == 0
  {
    assert BlkOk(h.seg, h.live[i]);
    AlignDivides(align, Max(align, pad));
    AlignDivides(pad, Max(align, pad));
    MultipleOfMultiple(h.live[i].addr, Max(align, pad), align);
    MultipleOfMultiple(h.live[i].addr, Max(align, pad), pad);
  }

  // ----- MEM_SEG -----

  class MemSeg {
    var AddrBase: nat
    var AddrEnd: nat
    var AddrNext: nat
    var NextPtr: MemSeg?
    var PaddingAlign: nat

    /** The three addresses of the segment. */
    ghost function View(): Seg
      reads this
    {
      Seg(AddrBase, AddrEnd, AddrNext)
    }

    ghost predicate Valid()
      reads this
    {
      SegOk(View()) && IsAlign(PaddingAlign)
    }

    /** The fields are 32-bit words and a padding; nothing more holds of a segment whose range wraps. */
    ghost predicate Words()
      reads this
    {
      AddrBase < MODULUS && AddrEnd < MODULUS && AddrNext < MODULUS && 0 < PaddingAlign < MODULUS
    }

    /** Mem_SegCreateCritical(), without the list head that the caller updates. */
    constructor (base: nat, paddingAlign: nat, size: nat, next: MemSeg?)
      requires base < MODULUS && 0 < size < MODULUS && 0 < paddingAlign < MODULUS
      ensures View() == Seg(base, Wrap(base + (size - 1)), base) && Words()
      ensures Valid() <==> base + size <= MODULUS && IsAlign(paddingAlign)
      ensures NextPtr == next && PaddingAlign == paddingAlign
    {
      AddrBase, AddrEnd, AddrNext := base, Wrap(base + (size - 1)), base;
      NextPtr, PaddingAlign := next, paddingAlign;
    }

    method SegClr()
      requires Words()
      modifies this`AddrNext
      ensures Words() && View() == old(View()).(next := AddrBase) && (old(Valid()) ==> Valid())
    {
      AddrNext := AddrBase;
    }

    /** segInfo is what the caller's structure holds; it is filled in only for a sound alignment. */
    method SegRemSizeGet(align: nat, segInfo: SegInfo) returns (remSize: nat, r: SegInfo, ok: bool)
      requires Words() && align < MODULUS
      ensures ok <==> IsPow2(align)
      ensures if ok then 0 < align && r == SegInfoOf(View(), align) && remSize == RemSizeGet(View(), align)
        else r == segInfo && remSize == 0
    {
      ok := IsPwr2(align);
      if !ok {
        return 0, segInfo, ok;
      }
      var nextAddrAlign := RoundIncUpPwr2(AddrNext, align);
      var totalSize: int := Wrap(AddrEnd - AddrBase + 1);
      var usedSize := Wrap(nextAddrAlign - AddrBase);
      remSize := Wrap(totalSize - usedSize);
      r := SegInfo(totalSize, usedSize, AddrBase, nextAddrAlign);
    }

    /** bytesReqd is the caller's variable behind p_bytes_reqd; it is written on overflow only. */
    method SegAllocExtCritical(size: nat, align: nat, paddingAlign: nat, bytesReqd: nat) returns (r: AllocResult, bytes: nat)
      requires AddrNext < MODULUS && 0 < align < MODULUS && 0 < paddingAlign < MODULUS
      modifies this`AddrNext
      ensures (View(), r) == AllocCritical(old(View()), size, align, paddingAlign)
      ensures bytes == if r.SegOvf? then r.bytesReqd else bytesReqd
    {
      hide RoundIncUpPwr2, Wrap;
      var blkAlign := Max(align, paddingAlign);
      var blkAddr := RoundIncUpPwr2(AddrNext, blkAlign);
      var addrNext := RoundIncUpPwr2(Wrap(blkAddr + size), paddingAlign);
      var sizeRemSeg := Wrap(AddrEnd - AddrNext + 1);
      var sizeTotBlk := Wrap(addrNext - AddrNext);
      if sizeRemSeg < sizeTotBlk {
        bytes := Wrap(sizeTotBlk - sizeRemSeg);
        return SegOvf(bytes), bytes;
      }
      AddrNext := addrNext;
      return Granted(blkAddr), bytesReqd;
    }

    method SegAllocInternal(size: nat, align: nat, paddingAlign: nat, bytesReqd: nat) returns (r: AllocResult, bytes: nat)
      requires AddrNext < MODULUS && align < MODULUS && 0 < paddingAlign < MODULUS
      modifies this`AddrNext
      ensures (View(), r) == AllocInternal(old(View()), size, align, paddingAlign)
      ensures bytes == if r.SegOvf? then r.bytesReqd else bytesReqd
      ensures (r.InvalidMemSize? <==> size == 0) && (r.InvalidMemAlign? <==> size > 0 && !IsPow2(align))
    {
      if size < 1 {
        return InvalidMemSize, bytesReqd;
      }
      if !IsPwr2(align) {
        return InvalidMemAlign, bytesReqd;
      }
      r, bytes := SegAllocExtCritical(size, align, paddingAlign, bytesReqd);
    }

    method SegAlloc(size: nat) returns (r: AllocResult)
      requires AddrNext < MODULUS
      modifies this`AddrNext
      ensures (View(), r) == AllocInternal(old(View()), size, WORD, PADDING_NONE)
      ensures (r.InvalidMemSize? <==> size == 0) && !r.InvalidMemAlign?
    {
      assert Pow2(2) == WORD;
      var a, _ := SegAllocInternal(size, WORD, PADDING_NONE, 0);
      return a;
    }

    method SegAllocExt(size: nat, align: nat, bytesReqd: nat) returns (r: AllocResult, bytes: nat)
      requires AddrNext < MODULUS && align < MODULUS
      modifies this`AddrNext
      ensures (View(), r) == AllocInternal(old(View()), size, align, PADDING_NONE)
      ensures bytes == if r.SegOvf? then r.bytesReqd else bytesReqd
      ensures (r.InvalidMemSize? <==> size == 0) && (r.InvalidMemAlign? <==> size > 0 && !IsPow2(align))
    {
      r, bytes := SegAllocInternal(size, align, PADDING_NONE, bytesReqd);
    }

    method SegAllocHW(size: nat, align: nat, bytesReqd: nat) returns (r: AllocResult, bytes: nat)
      requires Words() && align < MODULUS
      modifies this`AddrNext
      ensures (View(), r) == AllocInternal(old(View()), size, align, PaddingAlign)
      ensures bytes == if r.SegOvf? then r.bytesReqd else bytesReqd
      ensures (r.InvalidMemSize? <==> size == 0) && (r.InvalidMemAlign? <==> size > 0 && !IsPow2(align))
    {
      r, bytes := SegAllocInternal(size, align, PaddingAlign, bytesReqd);
    }
  }
}
