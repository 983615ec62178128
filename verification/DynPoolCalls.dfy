/** Dynamic pools as their callers see them: creation, and get and free calls that run to completion. */
module DynPoolCalls {
  import opened Bits
  import opened Rounding
  import opened Segments
  import opened ByteMemory
  import opened DynPool

  datatype CreateResult =
    | Created
    | InvalidBlkSize
    | InvalidBlkNbr
    | InvalidBlkAlign
    | NoMemory(cause: AllocResult)

  datatype GetResult = Got(blk: nat) | PoolEmpty | NoGrowth(cause: AllocResult)

  // ----- creation -----

  /** Distance between initial blocks: the block size, enlarged to hold a pointer, and aligned. */
  function Stride(blkSize: nat, worst: nat): nat
    requires blkSize < MODULUS && 0 < worst < MODULUS
  {
    RoundIncUpPwr2(if blkSize < WORD then WORD else blkSize, worst)
  }

  /** Memory after linking n blocks from p on, a stride apart, the last one to null. */
  function LinkBlks(m: seq<byte>, p: nat, stride: nat, n: nat): (m': seq<byte>)
    requires n > 0 && p + (n - 1) * stride + WORD <= |m|
    ensures |m'| == |m|
    decreases n
  {
    if n == 1 then WordStored(m, p, 0)
    else
      LastBlk(p, stride, n);
      LinkBlks(WordStored(m, p, p + stride), p + stride, stride, n - 1)
  }

  lemma LastBlk(p: nat, stride: nat, n: nat)
    requires n > 1
    ensures p + (n - 1) * stride == (p + stride) + (n - 2) * stride >= p + stride
  {}

  /** The same in the code's arithmetic, on the whole address space: addresses and link words are 32-bit. */
  function LinkAll(m: seq<byte>, p: nat, stride: nat, n: nat): (m': seq<byte>)
    requires |m| == MODULUS && n > 0
    ensures |m'| == MODULUS
    decreases n
  {
    if n == 1 then WordPut(m, p, 0)
    else LinkAll(WordPut(m, p, Wrap(p + stride)), Wrap(p + stride), stride, n - 1)
  }

  /** Links that do not pass the end of the address space are where they should be. */
  lemma {:induction false} LinkAllExact(m: seq<byte>, p: nat, stride: nat, n: nat)
    requires |m| == MODULUS && n > 0 && WORD <= stride && p + (n - 1) * stride + WORD <= MODULUS
    ensures LinkAll(m, p, stride, n) == LinkBlks(m, p, stride, n)
    decreases n
  {
    hide WordPut, WordStored, Wrap;
    if n == 1 {
      WordPutExact(m, p, 0);
    } else {
      LastBlk(p, stride, n);
      assert (n - 2) * stride >= 0;
      WordPutExact(m, p, p + stride);
      WrapTurn(p + stride);
      LinkAllExact(WordStored(m, p, p + stride), p + stride, stride, n - 1);
    }
  }

  /** The n block addresses from p on. */
  function BlkSeq(p: nat, stride: nat, n: nat): (bs: seq<nat>)
    ensures |bs| == n
    decreases n
  {
    if n == 0 then [] else [p] + BlkSeq(p + stride, stride, n - 1)
  }

  lemma {:induction false} BlkSeqAt(p: nat, stride: nat, n: nat, i: nat)
    requires i < n
    ensures BlkSeq(p, stride, n)[i] == p + i * stride
    decreases n
  {
    if i != 0 {
      BlkSeqAt(p + stride, stride, n - 1, i - 1);
      assert p + stride + (i - 1) * stride == p + i * stride;
    }
  }

  /** The links written at creation form the free list of all initial blocks, in address order. */
  lemma {:induction false} LinkBlksLinks(m: seq<byte>, p: nat, stride: nat, n: nat)
    requires n > 0 && 0 < p && WORD <= stride && p + (n - 1) * stride + WORD <= |m| && p + n * stride <= MODULUS
    ensures Links(LinkBlks(m, p, stride, n), p, BlkSeq(p, stride, n))
    ensures forall k: nat | k < |m| && (k < p || p + n * stride <= k) :: LinkBlks(m, p, stride, n)[k] == m[k]
    decreases n
  {
    hide WordAt, ByteOf;
    var bs := BlkSeq(p, stride, n);
    if n == 1 {
      StoreLoad(m, p, 0);
      assert bs[1..] == [];
    } else {
      LastBlk(p, stride, n);
      assert p + n * stride == (p + stride) + (n - 1) * stride > p + stride;
      var m' := WordStored(m, p, p + stride);
      LinkBlksLinks(m', p + stride, stride, n - 1);
      var m'' := LinkBlks(m', p + stride, stride, n - 1);
      StoreLoad(m, p, p + stride);
      WordDeterminesBytes(m', p, m'', p);
      assert bs[1..] == BlkSeq(p + stride, stride, n - 1);
    }
  }

  ghost function Elems(bs: seq<nat>): set<nat> { set b | b in bs }

  /** A pool whose blocks are all on the free list, next to tasks that are all idle. */
  ghost function Fresh(sh: Shared, pc: map<nat, Pc>, blks: seq<nat>): Sys {
    Sys(sh, pc, map b | b in blks :: Free, blks, 0)
  }

  /** Initial blocks cut from one allocation of the segment make a sound layout. */
  lemma InitLayout(c: Conf, g: Seg, p: nat, stride: nat, n: nat)
    requires ConfOk(c) && SegOk(g) && 0 < p && g.base <= p && c.blkSize <= stride
    requires p % c.blkAlign == 0 && stride % c.blkAlign == 0 && p + n * stride <= TrueNext(g) && 0 < TrueNext(g)
    ensures Layout(c, g, Elems(BlkSeq(p, stride, n)))
    ensures Distinct(BlkSeq(p, stride, n))
  {
    hide BlkSeq, BlkPlaced, ConfOk, SegOk, TrueNext, Pow2, IsPow2;
    assert c.blkSize > 0 && c.blkAlign > 0 by { ConfSizes(c); }
    var bs := BlkSeq(p, stride, n);
    forall i: nat | i < n ensures BlkPlaced(c, g, bs[i]) {
      InitBlkPlaced(c, g, p, stride, n, i);
    }
    forall i: nat, j: nat | i < j < n ensures bs[i] + stride <= bs[j] {
      BlkSeqApart(p, stride, n, i, j);
    }
  }

  lemma BlkSeqApart(p: nat, stride: nat, n: nat, i: nat, j: nat)
    requires i < j < n
    ensures BlkSeq(p, stride, n)[i] + stride <= BlkSeq(p, stride, n)[j]
  {
    hide BlkSeq;
    BlkSeqAt(p, stride, n, i);
    BlkSeqAt(p, stride, n, j);
    MulMonotone(i + 1, j, stride);
  }

  lemma ConfSizes(c: Conf)
    requires ConfOk(c)
    ensures c.blkSize > 0 && c.blkAlign > 0
  {}

  lemma InitBlkPlaced(c: Conf, g: Seg, p: nat, stride: nat, n: nat, i: nat)
    requires c.blkAlign > 0 && 0 < p && g.base <= p && c.blkSize <= stride && i < n
    requires p % c.blkAlign == 0 && stride % c.blkAlign == 0 && p + n * stride <= TrueNext(g)
    ensures BlkPlaced(c, g, BlkSeq(p, stride, n)[i])
  {
    hide BlkSeq, TrueNext;
    BlkSeqAt(p, stride, n, i);
    MulMonotone(i + 1, n, stride);
    MultiplesAdd(p, stride, i, c.blkAlign);
  }

  /** A freshly created pool satisfies the invariant of the machine. */
  lemma FreshInv(c: Conf, sh: Shared, pc: map<nat, Pc>, blks: seq<nat>)
    requires Layout(c, sh.seg, Elems(blks)) && Distinct(blks) && sh.seg.end < |sh.mem|
    requires Links(sh.mem, sh.freePtr, blks) && sh.allocCnt == 0
    requires |pc| > 0 && AllIdle(pc)
    requires Limited(c) ==> |blks| <= c.qtyMax
    ensures Inv(c, Fresh(sh, pc, blks))
  {
    hide Layout, Links;
    var s := Fresh(sh, pc, blks);
    assert s.own.Keys == Elems(blks);
    DistinctCount(blks);
    assert |s.own| == |s.own.Keys|;
    assert HeldBlks(s.own) == {} && TransitTasks(pc) == {} && Reserving(pc) == {} && MissedTasks(pc) == {};
  }

  lemma {:induction false} DistinctCount(bs: seq<nat>)
    requires Distinct(bs)
    ensures |Elems(bs)| == |bs|
  {
    if bs != [] {
      var rest, last := bs[..|bs| - 1], bs[|bs| - 1];
      DistinctCount(rest);
      assert bs == rest + [last];
      assert last !in rest;
      assert Elems(bs) == Elems(rest) + {last} && last !in Elems(rest);
    }
  }

  // ----- calls that run to completion -----

  /** What the calls need in order to stay inside memory. */
  ghost predicate Usable(c: Conf, s: Shared) {
    && (s.freePtr != 0 ==> s.freePtr + WORD <= |s.mem|)
    && s.seg.next < MODULUS && c.blkAlign < MODULUS && 0 < c.blkPad < MODULUS
  }

  /** Mem_DynPoolBlkGet() */
  ghost function BlkGet(c: Conf, s: Shared): (Shared, GetResult)
    requires Usable(c, s)
  {
    var (s1, ok) := if Limited(c) then Reserve(c, s) else (s, true);
    if !ok then (s1, PoolEmpty)
    else
      var (s2, blk) := Pop(s1);
      if blk != 0 then (s2, Got(blk))
      else
        var (s3, r) := Grow(c, s2);
        (s3, if r.Granted? then Got(r.blk) else NoGrowth(r))
  }

  datatype FreeResult = Freed | NullPtr | PoolFull

  /** Mem_DynPoolBlkFree() */
  ghost function BlkFree(c: Conf, s: Shared, blk: nat): (Shared, FreeResult)
    requires blk + WORD <= |s.mem|
  {
    if blk == 0 then (s, NullPtr)
    else
      var (s1, ok) := if Limited(c) then Release(s) else (s, true);
      if !ok then (s1, PoolFull) else (Push(s1, blk), Freed)
  }

  lemma InvUsable(c: Conf, s: Sys)
    requires Inv(c, s)
    ensures Usable(c, s.sh)
    ensures forall b | b in s.own :: b != 0 && b + WORD <= |s.sh.mem|
  {
    InBounds(c, s);
  }

  /** A task's get is a run of the machine: it returns with the task idle again, and its answer says what changed. */
  lemma GetIsRun(c: Conf, s: Sys, t: nat) returns (acts: seq<Act>)
    requires Inv(c, s) && t in s.pc && s.pc[t] == Idle
    ensures DynPool.LegalRun(c, s, acts) && Usable(c, s.sh)
    ensures var (q, (sh, r)) := (DynPool.Run(c, s, acts), BlkGet(c, s.sh));
      && q.sh == sh && q.pc == s.pc
      && q.own == (if r.Got? then s.own[r.blk := HeldBy(t)] else s.own)
      && q.free == (if r.Got? && s.free != [] then s.free[1..] else s.free)
      && q.failed == s.failed + One(r.NoGrowth?)
      && (r.PoolEmpty? <==> Limited(c) && s.sh.allocCnt == c.qtyMax)
  {
    hide Inv, AllocInternal, WordAt;
    InvUsable(c, s);
    InvBound(c, s);
    if Limited(c) {
      var s1 := Next(c, s, DoReserve(t));
      NextInv(c, s, DoReserve(t));
      if s1.pc[t] == Idle {
        acts := [DoReserve(t)] + [];
        RunCons(c, s, DoReserve(t), []);
      } else {
        var rest := PopIsRun(c, s1, t);
        acts := [DoReserve(t)] + rest;
        RunCons(c, s, DoReserve(t), rest);
        assert s1.pc[t := Idle] == s.pc;
      }
    } else {
      acts := PopIsRun(c, s, t);
      assert s.pc[t := Idle] == s.pc;
    }
  }

  lemma InvBound(c: Conf, s: Sys)
    requires Inv(c, s)
    ensures Limited(c) ==> s.sh.allocCnt <= c.qtyMax
  {}

  /** The part of a get after the reservation. */
  lemma PopIsRun(c: Conf, s: Sys, t: nat) returns (acts: seq<Act>)
    requires Inv(c, s) && Enabled(c, s, DoPop(t))
    ensures DynPool.LegalRun(c, s, acts) && Usable(c, s.sh)
    ensures var (s2, blk) := Pop(s.sh);
      var (s3, g) := Grow(c, s2);
      var q := DynPool.Run(c, s, acts);
      && q.pc == s.pc[t := Idle]
      && (if blk != 0 then
            q.sh == s2 && q.own == s.own[blk := HeldBy(t)] && s.free != [] && q.free == s.free[1..] && q.failed == s.failed
          else
            && q.sh == s3 && s.free == [] && q.free == []
            && q.own == (if g.Granted? then s.own[g.blk := HeldBy(t)] else s.own)
            && q.failed == s.failed + One(!g.Granted?))
  {
    hide Inv, AllocInternal, WordAt;
    InvUsable(c, s);
    InBounds(c, s);
    var s1 := Next(c, s, DoPop(t));
    NextInv(c, s, DoPop(t));
    if s.free != [] {
      acts := [DoPop(t)] + [];
      RunCons(c, s, DoPop(t), []);
    } else {
      NextInv(c, s1, DoGrow(t));
      acts := [DoPop(t)] + ([DoGrow(t)] + []);
      RunCons(c, s1, DoGrow(t), []);
      RunCons(c, s, DoPop(t), [DoGrow(t)] + []);
      assert s.pc[t := Missed][t := Idle] == s.pc[t := Idle];
    }
  }

  /** A task's free of a held block is a run of the machine, and it never finds the pool full. */
  lemma FreeIsRun(c: Conf, s: Sys, t: nat, b: nat) returns (acts: seq<Act>)
    requires Inv(c, s) && t in s.pc && s.pc[t] == Idle && b in s.own && s.own[b].HeldBy?
    ensures DynPool.LegalRun(c, s, acts) && b + WORD <= |s.sh.mem|
    ensures var q := DynPool.Run(c, s, acts);
      && BlkFree(c, s.sh, b) == (q.sh, Freed)
      && q.pc == s.pc && q.own == s.own[b := Free] && q.free == [b] + s.free && q.failed == s.failed
  {
    hide Inv, WordStored;
    InvUsable(c, s);
    ReleaseInv(c, s, t, b);
    var s1 := Next(c, s, DoRelease(t, b));
    NextInv(c, s1, DoPush(t));
    acts := [DoRelease(t, b)] + ([DoPush(t)] + []);
    RunCons(c, s1, DoPush(t), []);
    RunCons(c, s, DoRelease(t, b), [DoPush(t)] + []);
    assert s.pc[t := InTransit(b)][t := Idle] == s.pc;
    assert s.own[b := Transit(t)][b := Free] == s.own[b := Free];
  }

  /** LIFO: a get right after a free returns the same block, and only the link left in it tells the difference. */
  lemma GetUndoesFree(c: Conf, s: Sys, t: nat, b: nat)
    requires Inv(c, s) && t in s.pc && s.pc[t] == Idle && b in s.own && s.own[b].HeldBy?
    ensures b + WORD <= |s.sh.mem|
    ensures var s1 := BlkFree(c, s.sh, b).0;
      && Usable(c, s1)
      && BlkGet(c, s1) == (s.sh.(mem := s1.mem), Got(b))
      && s1.mem == WordStored(s.sh.mem, b, s.sh.freePtr)
  {
    hide Layout, Links, Ownership, HeldBlks, Reserving, MissedTasks, TransitTasks, Word4, ByteOf;
    InvUsable(c, s);
    FreePtrIsWord(c, s);
    HeldCounted(s.own, b);
    StoreLoad(s.sh.mem, b, s.sh.freePtr);
  }

  /** What a free answers, in any state: null first, then a limited pool that counts nothing out is full; both leave
      everything as it is. Any other address is linked in front of the list, and a limited pool counts one less. */
  lemma FreeExact(c: Conf, s: Shared, b: nat)
    requires b + WORD <= |s.mem|
    ensures var (s', r) := BlkFree(c, s, b);
      && (r.NullPtr? <==> b == 0)
      && (r.PoolFull? <==> b != 0 && Limited(c) && s.allocCnt == 0)
      && (if r.Freed? then
            && s'.mem == WordStored(s.mem, b, s.freePtr) && s'.freePtr == b && s'.seg == s.seg
            && s'.allocCnt + One(Limited(c)) == s.allocCnt
          else s' == s)
  {
    hide WordStored;
  }

  /** Between calls a limited pool refuses a free as full if and only if nothing is held and no growth has failed. */
  lemma FullIff(c: Conf, s: Sys, b: nat)
    requires Inv(c, s) && Limited(c) && AllIdle(s.pc) && b != 0 && b + WORD <= |s.sh.mem|
    ensures BlkFree(c, s.sh, b).1.PoolFull? <==> HeldBlks(s.own) == {} && s.failed == 0
    ensures BlkFree(c, s.sh, b).1.PoolFull? ==> BlkFree(c, s.sh, b).0 == s.sh
  {
    hide Layout, Links, Ownership;
    FreeExact(c, s.sh, b);
    Quantities(c, s);
  }

  /** A get of a limited pool fails to grow, and so takes one off what is reported as available for good, if and only
      if it is below its maximum, nothing is free, and the next block does not fit the segment. */
  lemma LeakIff(c: Conf, s: Sys)
    requires Inv(c, s) && Limited(c)
    ensures Usable(c, s.sh)
    ensures BlkGet(c, s.sh).1.NoGrowth? <==>
      s.sh.allocCnt < c.qtyMax && s.free == [] && !Fits(s.sh.seg, c.blkSize, c.blkAlign, c.blkPad)
    ensures BlkGet(c, s.sh).1.NoGrowth? ==>
      && NbrAvail(c, BlkGet(c, s.sh).0) == NbrAvail(c, s.sh) - 1
      && BlkLimit(s.sh.seg, c.blkSize, c.blkAlign, c.blkPad) > s.sh.seg.end + 1
      && BlkGet(c, s.sh).1.cause == SegOvf(BlkLimit(s.sh.seg, c.blkSize, c.blkAlign, c.blkPad) - (s.sh.seg.end + 1))
  {
    hide AllocInternal, Layout, Links, Ownership, Counts;
    InBounds(c, s);
    GrowExact(c, s);
  }

  /** When as many growths have failed as the maximum, nothing is held and every get answers that the pool is empty,
      now and after any further run. */
  lemma AllLeaked(c: Conf, s: Sys, acts: seq<Act>)
    requires Inv(c, s) && Limited(c) && s.failed == c.qtyMax && DynPool.LegalRun(c, s, acts)
    ensures var q := DynPool.Run(c, s, acts);
      HeldBlks(q.own) == {} && Usable(c, q.sh) && BlkGet(c, q.sh).1.PoolEmpty?
  {
    hide Layout, Links, Ownership, AllocInternal;
    RunInv(c, s, acts);
    RunLeaks(c, s, acts);
    InvUsable(c, DynPool.Run(c, s, acts));
  }

  /** A pool of at most one block over a full segment: one failing get, and no later one succeeds, even when the
      segment has been replaced by any other, although nothing is held. */
  lemma LeakedForGood(m: seq<byte>, g: Seg)
    requires g.next < MODULUS
    ensures var c, s0 := Conf(4, 4, 1, 1), CreatedState(Seg(4, 7, 8), m, 0, 4, 0);
      && Usable(c, s0) && NbrAvail(c, s0) == 1 && BlkGet(c, s0).1.NoGrowth?
      && var s1 := BlkGet(c, s0).0;
      && NbrAvail(c, s1) == 0
      && Usable(c, s1.(seg := g)) && BlkGet(c, s1.(seg := g)).1.PoolEmpty?
  {
    hide AllocCritical, CeilTo, IsPwr2;
    var f := Seg(4, 7, 8);
    assert Pow2(2) == 4;
    UnpaddedLimit(f, 4, 4);
    CeilOfMultiple(8, 4);
    AllocExact(f, 4, 4, 1);
  }

  /** With one task, that is when calls run to completion, a limited pool never carves more than its maximum. */
  lemma SequentialBound(c: Conf, s: Sys)
    requires Inv(c, s) && Limited(c) && |s.pc| == 1
    ensures |s.own| <= c.qtyMax
  {
    Quantities(c, s);
  }

  /** Why blk_size must fit a pointer: the link written by a free stays inside every block exactly then. */
  lemma LinkFitsIff(blkSize: nat, b: nat)
    ensures (forall s: Shared, x: nat | b + WORD <= |s.mem| && x < |s.mem| && !(b <= x < b + blkSize) ::
               Push(s, b).mem[x] == s.mem[x])
       <==> WORD <= blkSize
  {
    if blkSize < WORD {
      var s := Shared(seq(b + WORD, _ => 1), Seg(0, 0, 0), 0, 0);
      assert ByteOf(0, 3) == 0 by { NextByte(0, 0); NextByte(0, 1); NextByte(0, 2); }
      assert Push(s, b).mem[b + 3] != s.mem[b + 3];
    }
  }

  /** What that means for a pool: created with no initial blocks and a block size below that of a pointer, it hands
      out two neighbouring blocks, and freeing the first changes the first byte of the second, which is still held. */
  lemma SmallBlockCorrupts(m: seq<byte>, size: nat)
    requires 100 <= |m| <= MODULUS && 0 < size < WORD && m[4 + size] != 0
    ensures var c, s0 := Conf(size, 1, 1, UNLIMITED), CreatedState(Seg(4, 99, 4), m, 0, size, 0);
      && Usable(c, s0) && BlkGet(c, s0).1 == Got(4)
      && var s1 := BlkGet(c, s0).0;
      && Usable(c, s1) && BlkGet(c, s1).1 == Got(4 + size)
      && var s2 := BlkGet(c, s1).0;
      && BlkFree(c, s2, 4).1 == Freed && s2.mem == m
      && BlkFree(c, s2, 4).0.mem[4 + size] != m[4 + size]
  {
    hide AllocCritical, CeilTo, IsPow2, IsPwr2;
    var g := Seg(4, 99, 4);
    NoPaddingIsAlign();
    UnpaddedLimit(g, size, 1);
    CeilOfMultiple(4, 1);
    AllocExact(g, size, 1, 1);
    var g1 := AllocInternal(g, size, 1, 1).0;
    UnpaddedLimit(g1, size, 1);
    CeilOfMultiple(4 + size, 1);
    AllocExact(g1, size, 1, 1);
  }

  // ----- MEM_DYN_POOL -----

  /** The true total of the initial blocks, with the gap in front of them, stays below 2^32. */
  ghost predicate RoomOk(g: Seg, blkSize: nat, worst: nat, n: nat)
    requires 0 < worst
  {
    n > 0 ==> TotalSize(g, CeilTo(Max(blkSize, WORD), worst) * n, worst, PADDING_NONE) < MODULUS
  }

  /** The allocation that all initial blocks are cut from, in 32-bit arithmetic. */
  ghost function CarveResult(g: Seg, blkSize: nat, worst: nat, n: nat): (Seg, AllocResult)
    requires g.next < MODULUS && blkSize < MODULUS && 0 < worst < MODULUS
  {
    AllocInternal(g, Wrap(Stride(blkSize, worst) * n), worst, PADDING_NONE)
  }

  /** With room for the total in 32 bits, the initial blocks are granted if and only if they end inside the segment;
      they start at the first aligned address, and what is missing is reported otherwise. */
  lemma CarveIffFits(g: Seg, blkSize: nat, worst: nat, n: nat)
    requires SegOk(g) && 0 < blkSize < MODULUS && IsAlign(worst) && 0 < n < MODULUS && RoomOk(g, blkSize, worst, n)
    ensures var ((g', r), e) := (CarveResult(g, blkSize, worst, n),
        NextAligned(g, worst) + CeilTo(Max(blkSize, WORD), worst) * n);
      if e <= g.end + 1 then r == Granted(NextAligned(g, worst)) && TrueNext(g') == e
      else r == SegOvf(e - (g.end + 1)) && g' == g
  {
    hide AllocInternal, CeilTo, IsPow2, RoundIncUpPwr2;
    var size := Max(blkSize, WORD);
    UnpaddedLimit(g, CeilTo(size, worst) * n, worst);
    DistanceExact(g, n, size, worst);
    PlainExact(g, CeilTo(size, worst) * n, worst);
  }

  /** When the initial blocks are granted, they all lie inside the segment, links included, if and only if their true
      total is below 2^32. */
  lemma InitBlksInsideIff(g: Seg, blkSize: nat, worst: nat, n: nat)
    requires SegOk(g) && 0 < g.base && 0 < blkSize < MODULUS && IsAlign(worst) && n > 0
    requires CarveResult(g, blkSize, worst, n).1.Granted?
    ensures var (c, start) := (Stride(blkSize, worst), CarveResult(g, blkSize, worst, n).1.blk);
      && Max(blkSize, WORD) <= c
      && ((forall k: nat | k < n :: BlkInside(g, start, c, k)) <==> RoomOk(g, blkSize, worst, n))
  {
    hide AllocInternal, CeilTo, IsPow2, RoundIncUpPwr2, BlkInside, TotalSize;
    var c := Stride(blkSize, worst);
    GrantedDistance(g, c, n, Max(blkSize, WORD), worst);
    BlksInsideIff(g, c, n, worst);
  }

  /** The list of the initial blocks can be read back if and only if something precedes them: in a segment that starts
      at address 0 and is empty, the first block would be the null pointer. */
  lemma InitListIff(g: Seg, m: seq<byte>, blkSize: nat, worst: nat, n: nat)
    requires SegOk(g) && 0 < blkSize < MODULUS && IsAlign(worst) && n > 0 && RoomOk(g, blkSize, worst, n)
    requires |m| == MODULUS && CarveResult(g, blkSize, worst, n).1.Granted?
    ensures var p := CarveResult(g, blkSize, worst, n).1.blk;
      Links(LinkAll(m, p, Stride(blkSize, worst), n), p, InitBlks(p, blkSize, worst, n)) <==> 0 < TrueNext(g)
  {
    hide AllocInternal, CeilTo, IsPow2, IsPwr2, RoundIncUpPwr2, RoomOk, LinkAll, LinkBlks;
    var p, c := CarveResult(g, blkSize, worst, n).1.blk, CeilTo(Max(blkSize, WORD), worst);
    CarveExact(g, blkSize, worst, n);
    LinkAllExact(m, p, c, n);
    if 0 < TrueNext(g) {
      LinkBlksLinks(m, p, c, n);
    } else {
      CeilOfMultiple(0, worst);
      assert p == 0;
    }
  }

  /** Two blocks created at address 0: the first get finds nothing and carves a third block. */
  lemma NullBlkLost(m: seq<byte>)
    requires |m| == MODULUS
    ensures var c, g := Conf(4, 4, 1, UNLIMITED), Seg(0, 99, 0);
      && SegOk(g) && IsAlign(4)
      && var (g', r) := CarveResult(g, 4, 4, 2);
      && r == Granted(0) && g' == Seg(0, 99, 8)
      && var s := CreatedState(g', m, 0, 4, 2);
      && Usable(c, s) && BlkGet(c, s).1 == Got(8)
  {
    hide AllocInternal, LinkBlks, RoundIncUpPwr2, Inv, CeilTo, WordAt, IsPow2;
    NullCarve();
    PlainGrant(Seg(0, 99, 8), 4, 4);
  }

  lemma NullCarve()
    ensures IsAlign(4) && CarveResult(Seg(0, 99, 0), 4, 4, 2) == (Seg(0, 99, 8), Granted(0))
  {
    hide AllocInternal, CeilTo, RoundIncUpPwr2;
    assert Pow2(2) == 4;
    CeilOfMultiple(4, 4);
    RoundWordExact(4, 4);
    PlainGrant(Seg(0, 99, 0), 8, 4);
  }

  /** Two initial blocks of 0x80000001 bytes are accepted in a segment of 96 bytes, because their product wraps to 2;
      the second link then overwrites memory far outside the segment. */
  lemma WrappedLinksEscape(m: seq<byte>)
    requires |m| == MODULUS && m[0x8000_0005] != 0
    ensures var g := Seg(4, 99, 4);
      && SegOk(g) && IsAlign(1) && CarveResult(g, 0x8000_0001, 1, 2).1 == Granted(4)
      && Stride(0x8000_0001, 1) == 0x8000_0001
      && LinkAll(m, 4, 0x8000_0001, 2)[0x8000_0005] != m[0x8000_0005]
  {
    hide AllocInternal, CeilTo, IsPow2, RoundIncUpPwr2;
    var g := Seg(4, 99, 4);
    NoPaddingIsAlign();
    CeilOfMultiple(0x8000_0001, 1);
    RoundWordExact(0x8000_0001, 1);
    PlainGrant(g, 2, 1);
    assert LinkAll(m, 4, 0x8000_0001, 2) == WordPut(WordPut(m, 4, 0x8000_0005), 0x8000_0005, 0);
  }

  /** With room, the distance, the total and the start of the initial blocks are the true ones. */
  lemma CarveExact(g: Seg, blkSize: nat, worst: nat, n: nat)
    requires SegOk(g) && 0 < blkSize < MODULUS && IsAlign(worst) && n > 0 && RoomOk(g, blkSize, worst, n)
    requires CarveResult(g, blkSize, worst, n).1.Granted?
    ensures var (c, (g', r)) := (CeilTo(Max(blkSize, WORD), worst), CarveResult(g, blkSize, worst, n));
      && Stride(blkSize, worst) == c && c % worst == 0 && WORD <= c && blkSize <= c
      && SegOk(g') && g' == g.(next := g'.next)
      && g.base <= TrueNext(g) <= r.blk == NextAligned(g, worst) && r.blk % worst == 0
      && r.blk + (n - 1) * c + WORD <= r.blk + n * c == TrueNext(g') <= g.end + 1
  {
    hide AllocCritical, CeilTo, IsPow2, IsPwr2, RoundIncUpPwr2;
    var c := CeilTo(Max(blkSize, WORD), worst);
    GrantedDistance(g, Stride(blkSize, worst), n, Max(blkSize, WORD), worst);
    CeilIsMultiple(Max(blkSize, WORD), worst);
    UnpaddedLimit(g, c * n, worst);
    NextAlignedBound(g, worst);
    WrapTurn(c * n);
    AllocExact(g, c * n, worst, PADDING_NONE);
    CeilIsMultiple(TrueNext(g), worst);
    LastInBounds(NextAligned(g, worst), c, n);
  }

  /** The state that creation leaves behind, for a block size that fits a pointer. */
  lemma CreatedInv(c: Conf, g: Seg, m: seq<byte>, p: nat, stride: nat, n: nat, pc: map<nat, Pc>)
    requires ConfOk(c) && SegOk(g) && 0 < TrueNext(g) && g.end < |m|
    requires n > 0 ==>
      && 0 < p && g.base <= p && c.blkSize <= stride && p + (n - 1) * stride + WORD <= p + n * stride <= TrueNext(g)
      && p % c.blkAlign == 0 && stride % c.blkAlign == 0
    requires n == 0 ==> p == 0
    requires |pc| > 0 && AllIdle(pc)
    requires Limited(c) ==> n <= c.qtyMax
    ensures n > 0 ==> p + (n - 1) * stride + WORD <= |m|
    ensures Inv(c, Fresh(Shared(if n == 0 then m else LinkBlks(m, p, stride, n), g, p, 0), pc, BlkSeq(p, stride, n)))
  {
    hide Layout, Inv, LinkBlks, BlkSeq;
    var blks := BlkSeq(p, stride, n);
    if n == 0 {
      assert blks == [] && Elems(blks) == {};
      EmptyLayout(c, g);
      FreshInv(c, Shared(m, g, p, 0), pc, blks);
    } else {
      LinkBlksLinks(m, p, stride, n);
      InitLayout(c, g, p, stride, n);
      FreshInv(c, Shared(LinkBlks(m, p, stride, n), g, p, 0), pc, blks);
    }
  }

  /** The shared state right after creation. */
  ghost function CreatedState(g: Seg, m: seq<byte>, p: nat, stride: nat, n: nat): Shared
    requires n > 0 ==> p + (n - 1) * stride + WORD <= |m|
  {
    Shared(if n == 0 then m else LinkBlks(m, p, stride, n), g, p, 0)
  }

  lemma CreatedAll(c: Conf, g: Seg, m: seq<byte>, p: nat, stride: nat, n: nat)
    requires ConfOk(c) && SegOk(g) && 0 < TrueNext(g) && g.end < |m|
    requires n > 0 ==>
      && 0 < p && g.base <= p && c.blkSize <= stride && p + (n - 1) * stride + WORD <= p + n * stride <= TrueNext(g)
      && p % c.blkAlign == 0 && stride % c.blkAlign == 0 && stride == CeilTo(Max(c.blkSize, WORD), c.blkAlign)
    requires n == 0 ==> p == 0
    requires Limited(c) ==> n <= c.qtyMax
    ensures n > 0 ==> p + (n - 1) * stride + WORD <= |m|
    ensures StartsSound(c, CreatedState(g, m, p, stride, n), InitBlks(p, c.blkSize, c.blkAlign, n))
  {
    hide Inv, LinkBlks, Fresh, AllIdle, CeilTo;
    assert InitBlks(p, c.blkSize, c.blkAlign, n) == BlkSeq(p, stride, n);
    forall pc: map<nat, Pc> | |pc| > 0 && AllIdle(pc)
      ensures Inv(c, Fresh(CreatedState(g, m, p, stride, n), pc, InitBlks(p, c.blkSize, c.blkAlign, n)))
    {
      CreatedInv(c, g, m, p, stride, n, pc);
    }
  }

  lemma EmptyLayout(c: Conf, g: Seg)
    requires ConfOk(c) && SegOk(g) && 0 < TrueNext(g)
    ensures Layout(c, g, {})
  {}

  lemma LastInBounds(p: nat, stride: nat, n: nat)
    requires n > 0 && WORD <= stride
    ensures p + (n - 1) * stride + WORD <= p + n * stride && stride * n == n * stride
  {
    assert n * stride == (n - 1) * stride + stride;
  }

  /** What becomes of the segment when a pool's initial blocks are cut from it, and where they start. */
  ghost predicate CarveOutcome(g: Seg, g': Seg, r: CreateResult, p: nat, blkSize: nat, worst: nat, n: nat)
    requires g.next < MODULUS && blkSize < MODULUS && 0 < worst < MODULUS
  {
    if n == 0 then r.Created? && g' == g && p == 0
    else
      var (h, a) := CarveResult(g, blkSize, worst, n);
      g' == h && if a.Granted? then r.Created? && p == a.blk else r == NoMemory(a)
  }

  lemma NoPaddingIsAlign()
    ensures IsAlign(PADDING_NONE)
  {
    assert Pow2(0) == 1;
  }

  lemma NotGranted(g: Seg, size: nat, align: nat)
    requires g.next < MODULUS && align < MODULUS && !AllocInternal(g, size, align, PADDING_NONE).1.Granted?
    ensures AllocInternal(g, size, align, PADDING_NONE).0 == g
  {}

  class MemDynPool {
    const Mem: array<byte>
    var PoolSeg: MemSeg
    var BlkSize: nat
    var BlkAlign: nat
    var BlkPaddingAlign: nat
    var BlkFreePtr: nat
    var BlkQtyMax: nat
    var BlkAllocCnt: nat

    ghost function Config(): Conf
      reads this
    {
      Conf(BlkSize, BlkAlign, BlkPaddingAlign, BlkQtyMax)
    }

    ghost function View(): Shared
      reads this, PoolSeg, Mem
    {
      Shared(Mem[..], PoolSeg.View(), BlkFreePtr, BlkAllocCnt)
    }

    /** A pool structure before creation. */
    constructor (mem: array<byte>, seg: MemSeg)
      ensures Mem == mem && PoolSeg == seg
    {
      Mem, PoolSeg := mem, seg;
      BlkSize, BlkAlign, BlkPaddingAlign, BlkFreePtr, BlkQtyMax, BlkAllocCnt := 0, 0, 0, 0, 0, 0;
    }

    /** Mem_DynPoolCreateInternal(), with the whole address space as memory. On success all initial blocks are on the
        free list; if they have room in a sound segment, and the block size fits a pointer, the pool starts in a state
        of the machine's invariant, with any number of tasks. */
    method DynPoolCreateInternal(seg: MemSeg, blkSize: nat, blkAlign: nat, blkPad: nat, qtyInit: nat, qtyMax: nat)
      returns (r: CreateResult)
      requires seg.Words() && Mem.Length == MODULUS
      requires blkSize < MODULUS && blkAlign < MODULUS && IsAlign(blkPad) && qtyInit < MODULUS && qtyMax < MODULUS
      modifies this, seg`AddrNext, Mem
      ensures seg.Words() && (old(seg.Valid()) ==> seg.Valid())
      ensures r.InvalidBlkSize? <==> blkSize == 0
      ensures r.InvalidBlkNbr? <==> blkSize > 0 && qtyMax != UNLIMITED && qtyInit > qtyMax
      ensures r.InvalidBlkAlign? <==> blkSize > 0 && (qtyMax == UNLIMITED || qtyInit <= qtyMax) && !IsPow2(blkAlign)
      ensures !r.Created? ==> Mem[..] == old(Mem[..]) && seg.View() == old(seg.View())
      ensures !r.Created? ==> Config() == old(Config()) && BlkFreePtr == old(BlkFreePtr) && BlkAllocCnt == old(BlkAllocCnt)
      ensures r.Created? || r.NoMemory? ==>
        && 0 < Max(blkAlign, blkPad) < MODULUS
        && CarveOutcome(old(seg.View()), seg.View(), r, if r.Created? then BlkFreePtr else 0, blkSize, Max(blkAlign, blkPad), qtyInit)
      ensures r.Created? ==>
        && PoolSeg == seg && BlkAllocCnt == 0 && IsAlign(blkAlign)
        && Config() == Conf(blkSize, Max(blkAlign, blkPad), blkPad, qtyMax)
        && Mem[..] == if qtyInit == 0 then old(Mem[..])
                      else LinkAll(old(Mem[..]), BlkFreePtr, Stride(blkSize, Max(blkAlign, blkPad)), qtyInit)
      ensures (blkSize > 0 && (qtyMax == UNLIMITED || qtyInit <= qtyMax) && IsPow2(blkAlign) && old(seg.Valid())
               && RoomOk(old(seg.View()), blkSize, Max(blkAlign, blkPad), qtyInit)) ==>
        var (g, worst) := (old(seg.View()), Max(blkAlign, blkPad));
        var blksEnd := NextAligned(g, worst) + CeilTo(Max(blkSize, WORD), worst) * qtyInit;
        && (r.Created? <==> qtyInit == 0 || blksEnd <= g.end + 1)
        && (r.Created? ==> BlkFreePtr == if qtyInit == 0 then 0 else NextAligned(g, worst))
        && TrueNext(seg.View()) == (if r.Created? && qtyInit > 0 then blksEnd else TrueNext(g))
        && (!r.Created? ==> r == NoMemory(SegOvf(blksEnd - (g.end + 1))))
      ensures (r.Created? && old(seg.Valid()) && 0 < old(TrueNext(seg.View()))
               && RoomOk(old(seg.View()), blkSize, Max(blkAlign, blkPad), qtyInit)) ==>
        && (forall x | 0 <= x < Mem.Length && !(old(TrueNext(seg.View())) <= x < TrueNext(seg.View())) ::
              Mem[x] == old(Mem[x]))
        && (WORD <= blkSize && blkSize + 2 * Max(blkAlign, blkPad) <= MODULUS ==>
              StartsSound(Config(), View(), InitBlks(BlkFreePtr, blkSize, Max(blkAlign, blkPad), qtyInit)))
    {
      hide Inv, CeilTo, RoundIncUpPwr2, IsPow2, RoomOk, SegOk, InitBlks, StartsSound, LinkAll, AllocInternal;
      var blkAlignWorst := Max(blkAlign, blkPad);
      if blkSize < 1 {
        return InvalidBlkSize;
      }
      if qtyMax != UNLIMITED && qtyInit > qtyMax {
        return InvalidBlkNbr;
      }
      if !IsPwr2(blkAlign) {
        return InvalidBlkAlign;
      }
      PwrIsAlign(blkAlign);
      var blkSizeAlign := Stride(blkSize, blkAlignWorst);
      var blks := 0;
      ghost var g, before := seg.View(), Mem[..];
      if qtyInit != 0 {
        if SegOk(g) {
          NoPaddingIsAlign();
          AllocKeeps(g, Wrap(blkSizeAlign * qtyInit), blkAlignWorst, PADDING_NONE);
        }
        if SegOk(g) && RoomOk(g, blkSize, blkAlignWorst, qtyInit) {
          CarveIffFits(g, blkSize, blkAlignWorst, qtyInit);
        }
        var a, _ := seg.SegAllocInternal(Wrap(blkSizeAlign * qtyInit), blkAlignWorst, PADDING_NONE, 0);
        if !a.Granted? {
          NotGranted(g, Wrap(blkSizeAlign * qtyInit), blkAlignWorst);
          return NoMemory(a);
        }
        blks := a.blk;
      }
      SetUp(seg, blkSize, blkAlignWorst, blkPad, qtyInit, qtyMax, blks, blkSizeAlign);
      if old(seg.Valid()) && 0 < TrueNext(g) && RoomOk(g, blkSize, blkAlignWorst, qtyInit) {
        StartState(g, before, blkSize, blkPad, qtyMax, qtyInit, blkAlignWorst);
      }
      return Created;
    }

    /** What a creation with room leaves. */
    lemma StartState(g: Seg, before: seq<byte>, blkSize: nat, blkPad: nat, qtyMax: nat, n: nat, worst: nat)
      requires |before| == MODULUS == Mem.Length && SegOk(g) && 0 < TrueNext(g) && 0 < blkSize < MODULUS && IsAlign(worst)
      requires RoomOk(g, blkSize, worst, n) && IsAlign(blkPad) && blkPad <= worst && qtyMax < MODULUS
      requires qtyMax != UNLIMITED ==> n <= qtyMax
      requires Config() == Conf(blkSize, worst, blkPad, qtyMax) && BlkAllocCnt == 0
      requires CarveOutcome(g, PoolSeg.View(), Created, BlkFreePtr, blkSize, worst, n)
      requires Mem[..] == if n == 0 then before else LinkAll(before, BlkFreePtr, Stride(blkSize, worst), n)
      ensures forall x | 0 <= x < Mem.Length && !(TrueNext(g) <= x < TrueNext(PoolSeg.View())) :: Mem[x] == before[x]
      ensures WORD <= blkSize && blkSize + 2 * worst <= MODULUS ==>
        StartsSound(Config(), View(), InitBlks(BlkFreePtr, blkSize, worst, n))
    {
      hide Inv, CeilTo, RoundIncUpPwr2, IsPow2, InitBlks, StartsSound, LinkAll, LinkBlks, AllocInternal, BlkSeq, Links, RoomOk, CarveResult, Stride, TrueNext;
      var c, p := CeilTo(Max(blkSize, WORD), worst), BlkFreePtr;
      assert forall x | 0 <= x < Mem.Length :: Mem[x] == Mem[..][x];
      if n > 0 {
        CarveExact(g, blkSize, worst, n);
        LinkAllExact(before, p, c, n);
        LinkBlksLinks(before, p, c, n);
      }
      if WORD <= blkSize && blkSize + 2 * worst <= MODULUS {
        CreatedAll(Config(), PoolSeg.View(), before, p, c, n);
      }
    }

    /** The pool data and the initial free list. */
    method SetUp(seg: MemSeg, blkSize: nat, worst: nat, blkPad: nat, qtyInit: nat, qtyMax: nat, blks: nat, stride: nat)
      requires Mem.Length == MODULUS
      modifies this, Mem
      ensures PoolSeg == seg && BlkFreePtr == blks && Config() == Conf(blkSize, worst, blkPad, qtyMax) && BlkAllocCnt == 0
      ensures Mem[..] == if qtyInit == 0 then old(Mem[..]) else LinkAll(old(Mem[..]), blks, stride, qtyInit)
    {
      hide LinkAll;
      PoolSeg, BlkSize, BlkAlign, BlkPaddingAlign := seg, blkSize, worst, blkPad;
      BlkQtyMax, BlkAllocCnt, BlkFreePtr := qtyMax, 0, blks;
      if qtyInit != 0 {
        InitLinks(blks, stride, qtyInit);
      }
    }

    /** The loop that links the initial blocks. */
    method InitLinks(blks: nat, stride: nat, qtyInit: nat)
      requires qtyInit > 0 && Mem.Length == MODULUS
      modifies Mem
      ensures Mem[..] == LinkAll(old(Mem[..]), blks, stride, qtyInit)
    {
      hide WordPut;
      ghost var before := Mem[..];
      var p: nat, i: nat := blks, 0;
      while i < qtyInit - 1
        invariant 0 <= i < qtyInit
        invariant LinkAll(Mem[..], p, stride, qtyInit - i) == LinkAll(before, blks, stride, qtyInit)
      {
        PutWord(Mem, p, Wrap(p + stride));
        p, i := Wrap(p + stride), i + 1;
      }
      PutWord(Mem, p, 0);
    }

    method DynPoolBlkGet() returns (r: GetResult)
      requires Usable(Config(), View())
      modifies this`BlkAllocCnt, this`BlkFreePtr, PoolSeg`AddrNext
      ensures (View(), r) == BlkGet(old(Config()), old(View())) && Config() == old(Config())
    {
      hide AllocInternal, Word4;
      if BlkQtyMax != UNLIMITED {
        if BlkAllocCnt >= BlkQtyMax {
          return PoolEmpty;
        }
        BlkAllocCnt := BlkAllocCnt + 1;
      }
      if BlkFreePtr != 0 {
        var blk := BlkFreePtr;
        BlkFreePtr := LoadWord(Mem, blk);
        return Got(blk);
      }
      var a, _ := PoolSeg.SegAllocInternal(BlkSize, BlkAlign, BlkPaddingAlign, 0);
      if !a.Granted? {
        return NoGrowth(a);
      }
      return Got(a.blk);
    }

    method DynPoolBlkFree(blk: nat) returns (r: FreeResult)
      requires blk + WORD <= Mem.Length
      modifies this`BlkAllocCnt, this`BlkFreePtr, Mem
      ensures (View(), r) == BlkFree(old(Config()), old(View()), blk) && Config() == old(Config())
      ensures r.NullPtr? <==> blk == 0
      ensures r.PoolFull? <==> blk != 0 && Limited(Config()) && old(BlkAllocCnt) == 0
      ensures !r.Freed? ==> View() == old(View())
    {
      if blk == 0 {
        return NullPtr;
      }
      if BlkQtyMax != UNLIMITED {
        if BlkAllocCnt == 0 {
          return PoolFull;
        }
        BlkAllocCnt := BlkAllocCnt - 1;
      }
      StoreWord(Mem, blk, BlkFreePtr);
      BlkFreePtr := blk;
      return Freed;
    }

    /** The number of blocks still available, or nothing for a pool without a limit. */
    method DynPoolBlkNbrAvailGet() returns (n: int, unlimited: bool)
      ensures unlimited <==> !Limited(Config())
      ensures n == if unlimited then 0 else NbrAvail(Config(), View())
    {
      if BlkQtyMax != UNLIMITED {
        return BlkQtyMax - BlkAllocCnt, false;
      }
      return 0, true;
    }
  }

  /** Whatever tasks will use the pool, it starts in a state of the machine's invariant with all blocks free. */
  ghost predicate StartsSound(c: Conf, sh: Shared, blks: seq<nat>) {
    forall pc: map<nat, Pc> | |pc| > 0 && AllIdle(pc) :: Inv(c, Fresh(sh, pc, blks))
  }

  /** The initial free list: qtyInit blocks, each enlarged to hold a pointer and aligned. */
  ghost function InitBlks(first: nat, blkSize: nat, worst: nat, qtyInit: nat): seq<nat>
    requires 0 < worst
  {
    BlkSeq(first, CeilTo(Max(blkSize, WORD), worst), qtyInit)
  }
}
