/** Dynamic memory pools of lib_mem.c: an intrusive LIFO list of free blocks that grows from a segment.

    Each call is split into its critical sections, and the machine below lets any number of tasks run them
    in any order, together with other users of the memory and of the segment. */
module DynPool {
  import opened Bits
  import opened Rounding
  import opened Segments
  import opened ByteMemory

  /** LIB_MEM_BLK_QTY_UNLIMITED */
  const UNLIMITED: nat := 0

  /** The fields of MEM_DYN_POOL that never change once the pool is created. */
  datatype Conf = Conf(blkSize: nat, blkAlign: nat, blkPad: nat, qtyMax: nat)

  /** What the critical sections share: memory, the segment, BlkFreePtr and BlkAllocCnt. */
  datatype Shared = Shared(mem: seq<byte>, seg: Seg, freePtr: nat, allocCnt: nat)

  // ----- the critical sections -----

  /** First section of Mem_DynPoolBlkGet(): false is the answer LIB_MEM_ERR_POOL_EMPTY. */
  function Reserve(c: Conf, s: Shared): (Shared, bool) {
    if s.allocCnt >= c.qtyMax then (s, false) else (s.(allocCnt := s.allocCnt + 1), true)
  }

  /** Second section of Mem_DynPoolBlkGet(): 0 when the free list is empty. */
  function Pop(s: Shared): (Shared, nat)
    requires s.freePtr != 0 ==> s.freePtr + WORD <= |s.mem|
  {
    if s.freePtr != 0 then (s.(freePtr := WordAt(s.mem, s.freePtr)), s.freePtr) else (s, 0)
  }

  /** Third section of Mem_DynPoolBlkGet(): a new block from the segment. */
  function Grow(c: Conf, s: Shared): (Shared, AllocResult)
    requires s.seg.next < MODULUS && c.blkAlign < MODULUS && 0 < c.blkPad < MODULUS
  {
    var (seg, r) := AllocInternal(s.seg, c.blkSize, c.blkAlign, c.blkPad);
    (s.(seg := seg), r)
  }

  /** First section of Mem_DynPoolBlkFree(): false is the answer LIB_MEM_ERR_POOL_FULL. */
  function Release(s: Shared): (Shared, bool) {
    if s.allocCnt == 0 then (s, false) else (s.(allocCnt := s.allocCnt - 1), true)
  }

  /** Second section of Mem_DynPoolBlkFree(): the link is written into the block itself. */
  function Push(s: Shared, blk: nat): Shared
    requires blk + WORD <= |s.mem|
  {
    s.(mem := WordStored(s.mem, blk, s.freePtr), freePtr := blk)
  }

  // ----- the machine -----

  /** Where a task is: between calls, after reserving, after finding the list empty, or between the two
      sections of a free. */
  datatype Pc = Idle | Reserved | Missed | InTransit(blk: nat)

  /** Who has a carved block. */
  datatype Owner = Free | HeldBy(task: nat) | Transit(task: nat)

  /** pc: the tasks; own: every block ever carved and its owner; free: the free list, top first;
      failed: growths that the segment refused after a reservation. */
  datatype Sys = Sys(sh: Shared, pc: map<nat, Pc>, own: map<nat, Owner>, free: seq<nat>, failed: nat)

  datatype Act =
    | DoReserve(t: nat)
    | DoPop(t: nat)
    | DoGrow(t: nat)
    | DoRelease(t: nat, blk: nat)
    | DoPush(t: nat)
    | DoStore(addr: nat, val: byte)
    | DoAlloc(size: nat, align: nat, pad: nat)

  predicate Limited(c: Conf) { c.qtyMax != UNLIMITED }

  /** The byte at a belongs to block b. */
  predicate InBlk(c: Conf, b: nat, a: nat) { b <= a < b + c.blkSize }

  ghost predicate AllIdle(pc: map<nat, Pc>) { forall t | t in pc :: pc[t] == Idle }

  /** What tasks and users may do next. A free needs a held block, and nobody writes into a block that has been
      given back; everything else is up to the scheduler. */
  ghost predicate Enabled(c: Conf, s: Sys, a: Act) {
    match a
    case DoReserve(t) => t in s.pc && s.pc[t] == Idle && Limited(c)
    case DoPop(t) => t in s.pc && s.pc[t] == if Limited(c) then Reserved else Idle
    case DoGrow(t) => t in s.pc && s.pc[t] == Missed
    case DoRelease(t, b) => t in s.pc && s.pc[t] == Idle && b in s.own && s.own[b].HeldBy?
    case DoPush(t) => t in s.pc && s.pc[t].InTransit?
    case DoStore(x, _) => x < |s.sh.mem| && forall b | b in s.own && !s.own[b].HeldBy? :: !InBlk(c, b, x)
    case DoAlloc(size, align, pad) => Legal(Alloc(size, align, pad))
  }

  // ----- invariants -----

  ghost predicate ConfOk(c: Conf) {
    && IsAlign(c.blkAlign) && IsAlign(c.blkPad) && c.blkPad <= c.blkAlign
    && WORD <= c.blkSize && c.blkSize + c.blkAlign + c.blkPad <= MODULUS
    && c.qtyMax < MODULUS
  }

  ghost predicate BlkPlaced(c: Conf, g: Seg, b: nat)
    requires c.blkAlign > 0
  {
    0 < b && g.base <= b && b + c.blkSize <= TrueNext(g) && b % c.blkAlign == 0
  }

  /** All blocks ever carved lie in the used part of the segment, aligned and without overlap. */
  ghost predicate Layout(c: Conf, g: Seg, blks: set<nat>) {
    && ConfOk(c) && SegOk(g) && 0 < TrueNext(g)
    && (forall b | b in blks :: BlkPlaced(c, g, b))
    && (forall b, d | b in blks && d in blks && b < d :: b + c.blkSize <= d)
  }

  /** Following the links from p through memory visits exactly free, and then ends in null. */
  ghost predicate Links(m: seq<byte>, p: nat, free: seq<nat>)
    decreases |free|
  {
    if free == [] then p == 0
    else p == free[0] && p != 0 && p + WORD <= |m| && Links(m, WordAt(m, p), free[1..])
  }

  ghost predicate Distinct(free: seq<nat>) {
    forall i, j | 0 <= i < j < |free| :: free[i] != free[j]
  }

  /** The free list, the blocks in transit and the owners tell the same story. */
  ghost predicate Ownership(pc: map<nat, Pc>, own: map<nat, Owner>, free: seq<nat>) {
    && Distinct(free)
    && (forall b :: b in free <==> b in own && own[b] == Free)
    && (forall t | t in pc && pc[t].InTransit? :: pc[t].blk in own && own[pc[t].blk] == Transit(t))
    && (forall b | b in own && own[b].Transit? :: own[b].task in pc && pc[own[b].task] == InTransit(b))
  }

  ghost function HeldBlks(own: map<nat, Owner>): set<nat> { set b | b in own && own[b].HeldBy? }

  predicate IsReserving(p: Pc) { p == Reserved || p == Missed }

  ghost function Reserving(pc: map<nat, Pc>): set<nat> { set t | t in pc && IsReserving(pc[t]) }

  ghost function MissedTasks(pc: map<nat, Pc>): set<nat> { set t | t in pc && pc[t] == Missed }

  ghost function TransitTasks(pc: map<nat, Pc>): set<nat> { set t | t in pc && pc[t].InTransit? }

  /** BlkAllocCnt counts the held blocks, the reservations in progress and the growths that failed. */
  ghost predicate Counts(c: Conf, s: Sys) {
    && |s.own| == |s.free| + |HeldBlks(s.own)| + |TransitTasks(s.pc)|
    && (Limited(c) ==>
          && s.sh.allocCnt == |HeldBlks(s.own)| + |Reserving(s.pc)| + s.failed
          && s.sh.allocCnt <= c.qtyMax
          && |s.own| + |MissedTasks(s.pc)| + 1 <= c.qtyMax + |s.pc|)
  }

  ghost predicate Inv(c: Conf, s: Sys) {
    && Layout(c, s.sh.seg, s.own.Keys)
    && s.sh.seg.end < |s.sh.mem|
    && Links(s.sh.mem, s.sh.freePtr, s.free)
    && Ownership(s.pc, s.own, s.free)
    && Counts(c, s)
  }

  // ----- transitions -----

  /** The next state; the invariant is what keeps every memory access inside memory. */
  ghost function Next(c: Conf, s: Sys, a: Act): Sys
    requires Inv(c, s) && Enabled(c, s, a)
  {
    InBounds(c, s);
    match a
    case DoReserve(t) =>
      var (sh, ok) := Reserve(c, s.sh);
      s.(sh := sh, pc := s.pc[t := if ok then Reserved else Idle])
    case DoPop(t) =>
      var (sh, blk) := Pop(s.sh);
      if blk == 0 then s.(sh := sh, pc := s.pc[t := Missed])
      else s.(sh := sh, pc := s.pc[t := Idle], own := s.own[blk := HeldBy(t)], free := s.free[1..])
    case DoGrow(t) =>
      var (sh, r) := Grow(c, s.sh);
      if r.Granted? then s.(sh := sh, pc := s.pc[t := Idle], own := s.own[r.blk := HeldBy(t)])
      else s.(sh := sh, pc := s.pc[t := Idle], failed := s.failed + 1)
    case DoRelease(t, b) =>
      var (sh, ok) := if Limited(c) then Release(s.sh) else (s.sh, true);
      if ok then s.(sh := sh, pc := s.pc[t := InTransit(b)], own := s.own[b := Transit(t)]) else s
    case DoPush(t) =>
      var b := s.pc[t].blk;
      s.(sh := Push(s.sh, b), pc := s.pc[t := Idle], own := s.own[b := Free], free := [b] + s.free)
    case DoStore(x, v) => s.(sh := s.sh.(mem := s.sh.mem[x := v]))
    case DoAlloc(size, align, pad) => s.(sh := s.sh.(seg := AllocInternal(s.sh.seg, size, align, pad).0))
  }

  lemma InBounds(c: Conf, s: Sys)
    requires Inv(c, s)
    ensures s.sh.freePtr != 0 ==> s.sh.freePtr + WORD <= |s.sh.mem|
    ensures s.sh.freePtr == 0 <==> s.free == []
    ensures s.free != [] ==> s.sh.freePtr == s.free[0] && s.free[0] in s.own && s.own[s.free[0]] == Free
    ensures forall b | b in s.own :: b != 0 && b + c.blkSize <= |s.sh.mem| && b + WORD <= |s.sh.mem|
    ensures s.sh.seg.next < MODULUS && c.blkAlign < MODULUS && 0 < c.blkPad < MODULUS
  {
    assert forall b | b in s.own :: BlkPlaced(c, s.sh.seg, b);
    if s.free != [] {
      assert s.free[0] in s.free;
    }
  }

  // ----- layout -----

  lemma TotalBound(g: Seg, size: nat, align: nat, pad: nat)
    requires 0 < pad <= align
    ensures TotalSize(g, size, align, pad) < size + align + pad
  {
    hide CeilTo;
  }

  /** Growing the pool adds a block beyond every earlier one, or changes nothing. */
  lemma GrowLayout(c: Conf, g: Seg, blks: set<nat>)
    requires Layout(c, g, blks)
    ensures var (g', r) := AllocInternal(g, c.blkSize, c.blkAlign, c.blkPad);
      if r.Granted? then r.blk !in blks && Layout(c, g', blks + {r.blk}) && g'.end == g.end
      else g' == g
  {
    hide AllocCritical, CeilTo, IsPow2, IsPwr2;
    TotalBound(g, c.blkSize, c.blkAlign, c.blkPad);
    AllocExact(g, c.blkSize, c.blkAlign, c.blkPad);
    BlkBounds(g, c.blkSize, c.blkAlign, c.blkPad);
    CeilIsMultiple(TrueNext(g), c.blkAlign);
    assert forall b | b in blks :: BlkPlaced(c, g, b);
  }

  /** Other users of the segment leave the pool's blocks where they are. */
  lemma AllocLayout(c: Conf, g: Seg, blks: set<nat>, size: nat, align: nat, pad: nat)
    requires Layout(c, g, blks) && Legal(Alloc(size, align, pad))
    ensures var g' := AllocInternal(g, size, align, pad).0;
      Layout(c, g', blks) && g'.end == g.end
  {
    hide AllocInternal, IsPow2;
    AllocKeeps(g, size, align, pad);
    assert forall b | b in blks :: BlkPlaced(c, g, b);
  }

  // ----- links -----

  /** Memory changes outside the links of the free blocks do not disturb the free list. */
  lemma {:induction false} LinksFrame(m: seq<byte>, m': seq<byte>, p: nat, free: seq<nat>)
    requires Links(m, p, free) && |m'| == |m|
    requires forall b, k: nat | b in free && b <= k < b + WORD && k < |m| :: m'[k] == m[k]
    ensures Links(m', p, free)
    decreases |free|
  {
    hide Word4;
    if free != [] {
      assert free[0] in free;
      assert forall b | b in free[1..] :: b in free;
      LinksFrame(m, m', WordAt(m, p), free[1..]);
    }
  }

  /** Pushing a block that no free block overlaps. */
  lemma PushLinks(m: seq<byte>, p: nat, free: seq<nat>, b: nat)
    requires Links(m, p, free) && b != 0 && b + WORD <= |m| && p < MODULUS
    requires forall f | f in free :: f + WORD <= b || b + WORD <= f
    ensures Links(WordStored(m, b, p), b, [b] + free)
  {
    LinksFrame(m, WordStored(m, b, p), p, free);
    StoreLoad(m, b, p);
    assert ([b] + free)[1..] == free;
  }

  // ----- counting -----

  function One(b: bool): nat { if b then 1 else 0 }

  /** Moving one task changes each tally by at most one. */
  lemma PcChange(pc: map<nat, Pc>, t: nat, p: Pc)
    requires t in pc
    ensures var pc' := pc[t := p];
      && |pc'| == |pc|
      && |Reserving(pc')| == |Reserving(pc)| - One(IsReserving(pc[t])) + One(IsReserving(p))
      && |MissedTasks(pc')| == |MissedTasks(pc)| - One(pc[t] == Missed) + One(p == Missed)
      && |TransitTasks(pc')| == |TransitTasks(pc)| - One(pc[t].InTransit?) + One(p.InTransit?)
  {
    var pc' := pc[t := p];
    assert pc'.Keys == pc.Keys && |pc'.Keys| == |pc'| && |pc.Keys| == |pc|;
    assert Reserving(pc') - {t} == Reserving(pc) - {t};
    assert MissedTasks(pc') - {t} == MissedTasks(pc) - {t};
    assert TransitTasks(pc') - {t} == TransitTasks(pc) - {t};
    Without(Reserving(pc), t); Without(Reserving(pc'), t);
    Without(MissedTasks(pc), t); Without(MissedTasks(pc'), t);
    Without(TransitTasks(pc), t); Without(TransitTasks(pc'), t);
  }

  /** Giving one block an owner. */
  lemma OwnChange(own: map<nat, Owner>, b: nat, o: Owner)
    ensures var own' := own[b := o];
      && own'.Keys == own.Keys + {b}
      && |own'| == |own| + One(b !in own)
      && |HeldBlks(own')| == |HeldBlks(own)| - One(b in own && own[b].HeldBy?) + One(o.HeldBy?)
  {
    var own' := own[b := o];
    assert own'.Keys == own.Keys + {b} && |own'.Keys| == |own'| && |own.Keys| == |own|;
    assert HeldBlks(own') - {b} == HeldBlks(own) - {b};
    Without(HeldBlks(own), b); Without(HeldBlks(own'), b);
  }

  lemma Without<T>(a: set<T>, x: T)
    ensures |a| == |a - {x}| + One(x in a)
  {
    if x in a { assert a == (a - {x}) + {x}; } else { assert a == a - {x}; }
  }

  lemma {:induction false} Subset<T>(a: set<T>, b: set<T>)
    requires a <= b
    ensures |a| <= |b|
    decreases |a|
  {
    if a != {} {
      var x :| x in a;
      Subset(a - {x}, b - {x});
    }
  }

  /** No task is in two tallies, and a task that has just missed has missed while reserving. */
  lemma Tallies(pc: map<nat, Pc>)
    ensures |Reserving(pc)| + |TransitTasks(pc)| <= |pc|
    ensures |MissedTasks(pc)| <= |Reserving(pc)|
  {
    Subset(Reserving(pc) + TransitTasks(pc), pc.Keys);
    Subset(MissedTasks(pc), Reserving(pc));
  }

  // ----- every step keeps the invariant -----

  lemma ReserveInv(c: Conf, s: Sys, t: nat)
    requires Inv(c, s) && Enabled(c, s, DoReserve(t))
    ensures Inv(c, Next(c, s, DoReserve(t)))
  {
    hide Layout, Links, Distinct, WordAt, Reserving, MissedTasks, TransitTasks, HeldBlks;
    PcChange(s.pc, t, Reserved);
    PcChange(s.pc, t, Idle);
    assert s.pc[t := Idle] == s.pc;
  }

  lemma PopInv(c: Conf, s: Sys, t: nat)
    requires Inv(c, s) && Enabled(c, s, DoPop(t))
    ensures Inv(c, Next(c, s, DoPop(t)))
  {
    hide Layout, WordAt, Counts, Ownership;
    InBounds(c, s);
    PopCounts(c, s, t);
    PcOwnership(s.pc, s.own, s.free, t, Missed);
    if s.free != [] {
      OwnChange(s.own, s.free[0], HeldBy(t));
      assert s.own[s.free[0] := HeldBy(t)].Keys == s.own.Keys;
      PopOwnership(s.pc, s.own, s.free, t);
    }
  }

  /** A task outside a free may move to any other place outside a free. */
  lemma PcOwnership(pc: map<nat, Pc>, own: map<nat, Owner>, free: seq<nat>, t: nat, p: Pc)
    requires Ownership(pc, own, free) && t in pc && !pc[t].InTransit? && !p.InTransit?
    ensures Ownership(pc[t := p], own, free)
  {}

  lemma PopOwnership(pc: map<nat, Pc>, own: map<nat, Owner>, free: seq<nat>, t: nat)
    requires Ownership(pc, own, free) && t in pc && !pc[t].InTransit? && free != []
    ensures Ownership(pc[t := Idle], own[free[0] := HeldBy(t)], free[1..])
  {
    assert free[0] in free;
    assert forall d :: d in free[1..] <==> d in free && d != free[0];
  }

  /** When the list is empty, all carved blocks are held or in transit, and this task is not freeing one. */
  lemma PopCounts(c: Conf, s: Sys, t: nat)
    requires Inv(c, s) && Enabled(c, s, DoPop(t))
    ensures Counts(c, Next(c, s, DoPop(t)))
  {
    hide Layout, Links, WordAt, Ownership, Reserving, MissedTasks, TransitTasks, HeldBlks;
    InBounds(c, s);
    if s.free == [] {
      PcChange(s.pc, t, Missed);
      Tallies(s.pc[t := Missed]);
    } else {
      PcChange(s.pc, t, Idle);
      OwnChange(s.own, s.free[0], HeldBy(t));
    }
  }

  lemma GrowInv(c: Conf, s: Sys, t: nat)
    requires Inv(c, s) && Enabled(c, s, DoGrow(t))
    ensures Inv(c, Next(c, s, DoGrow(t)))
  {
    hide Layout, Links, AllocInternal, Ownership, Counts;
    InBounds(c, s);
    GrowLayout(c, s.sh.seg, s.own.Keys);
    GrowCounts(c, s, t);
    PcOwnership(s.pc, s.own, s.free, t, Idle);
    var r := Grow(c, s.sh).1;
    if r.Granted? {
      OwnChange(s.own, r.blk, HeldBy(t));
      GrowOwnership(s.pc[t := Idle], s.own, s.free, t, r.blk);
    }
  }

  lemma GrowOwnership(pc: map<nat, Pc>, own: map<nat, Owner>, free: seq<nat>, t: nat, b: nat)
    requires Ownership(pc, own, free) && b !in own
    ensures Ownership(pc, own[b := HeldBy(t)], free)
  {}

  lemma GrowCounts(c: Conf, s: Sys, t: nat)
    requires Inv(c, s) && Enabled(c, s, DoGrow(t))
    ensures Counts(c, Next(c, s, DoGrow(t)))
  {
    hide Layout, Links, AllocInternal, Ownership, Reserving, MissedTasks, TransitTasks, HeldBlks;
    InBounds(c, s);
    GrowLayout(c, s.sh.seg, s.own.Keys);
    PcChange(s.pc, t, Idle);
    var r := Grow(c, s.sh).1;
    if r.Granted? {
      OwnChange(s.own, r.blk, HeldBy(t));
    }
  }

  lemma ReleaseInv(c: Conf, s: Sys, t: nat, b: nat)
    requires Inv(c, s) && Enabled(c, s, DoRelease(t, b))
    ensures Inv(c, Next(c, s, DoRelease(t, b)))
    ensures Limited(c) ==> Release(s.sh).1
  {
    hide Layout, Links, Distinct, Reserving, MissedTasks, TransitTasks, HeldBlks;
    HeldCounted(s.own, b);
    PcChange(s.pc, t, InTransit(b));
    OwnChange(s.own, b, Transit(t));
    assert s.own[b := Transit(t)].Keys == s.own.Keys;
  }

  lemma HeldCounted(own: map<nat, Owner>, b: nat)
    requires b in own && own[b].HeldBy?
    ensures |HeldBlks(own)| > 0
  {
    assert b in HeldBlks(own);
  }

  lemma PushInv(c: Conf, s: Sys, t: nat)
    requires Inv(c, s) && Enabled(c, s, DoPush(t))
    ensures Inv(c, Next(c, s, DoPush(t)))
  {
    hide Layout, Links, Counts, WordStored, WordAt, Ownership;
    InBounds(c, s);
    PushCounts(c, s, t);
    PushList(c, s, t);
    PushOwnership(s.pc, s.own, s.free, t);
    OwnChange(s.own, s.pc[t].blk, Free);
    TransitKnown(c, s, t);
  }

  lemma TransitKnown(c: Conf, s: Sys, t: nat)
    requires Inv(c, s) && Enabled(c, s, DoPush(t))
    ensures s.pc[t].blk in s.own && s.own[s.pc[t].blk] == Transit(t) && s.own.Keys + {s.pc[t].blk} == s.own.Keys
  {
    hide Layout, Links, Counts, Distinct;
  }

  lemma PushOwnership(pc: map<nat, Pc>, own: map<nat, Owner>, free: seq<nat>, t: nat)
    requires Ownership(pc, own, free) && t in pc && pc[t].InTransit?
    ensures Ownership(pc[t := Idle], own[pc[t].blk := Free], [pc[t].blk] + free)
  {
    var b := pc[t].blk;
    assert b !in free;
    assert forall d :: d in [b] + free <==> d in free || d == b;
  }

  lemma PushList(c: Conf, s: Sys, t: nat)
    requires Inv(c, s) && Enabled(c, s, DoPush(t))
    ensures var s' := Next(c, s, DoPush(t)); Links(s'.sh.mem, s'.sh.freePtr, s'.free)
  {
    hide Counts, Links, WordAt;
    InBounds(c, s);
    var b := s.pc[t].blk;
    forall f | f in s.free ensures f + WORD <= b || b + WORD <= f {
      assert f in s.own && f != b;
    }
    FreePtrIsWord(c, s);
    PushLinks(s.sh.mem, s.sh.freePtr, s.free, b);
  }

  lemma FreePtrIsWord(c: Conf, s: Sys)
    requires Inv(c, s)
    ensures s.sh.freePtr < MODULUS
  {
    InBounds(c, s);
    if s.free != [] {
      assert BlkPlaced(c, s.sh.seg, s.free[0]);
    }
  }

  lemma PushCounts(c: Conf, s: Sys, t: nat)
    requires Inv(c, s) && Enabled(c, s, DoPush(t))
    ensures Counts(c, Next(c, s, DoPush(t)))
  {
    hide Layout, Links, WordStored, Ownership, Reserving, MissedTasks, TransitTasks, HeldBlks;
    InBounds(c, s);
    TransitKnown(c, s, t);
    PcChange(s.pc, t, Idle);
    OwnChange(s.own, s.pc[t].blk, Free);
  }

  lemma StoreInv(c: Conf, s: Sys, x: nat, v: byte)
    requires Inv(c, s) && Enabled(c, s, DoStore(x, v))
    ensures Inv(c, Next(c, s, DoStore(x, v)))
  {
    hide Links, Counts, Distinct, Layout;
    InBounds(c, s);
    var s' := Next(c, s, DoStore(x, v));
    assert WORD <= c.blkSize by { LayoutConf(c, s); }
    forall b, k: nat | b in s.free && b <= k < b + WORD && k < |s.sh.mem| ensures s'.sh.mem[k] == s.sh.mem[k] {
      assert !InBlk(c, b, x);
    }
    LinksFrame(s.sh.mem, s'.sh.mem, s.sh.freePtr, s.free);
    SameCounts(c, s, s');
  }

  lemma LayoutConf(c: Conf, s: Sys)
    requires Inv(c, s)
    ensures ConfOk(c)
  {}

  lemma SameCounts(c: Conf, s: Sys, s': Sys)
    requires Counts(c, s) && s'.own == s.own && s'.pc == s.pc && s'.free == s.free && s'.failed == s.failed
    requires s'.sh.allocCnt == s.sh.allocCnt
    ensures Counts(c, s')
  {}

  lemma AllocInv(c: Conf, s: Sys, size: nat, align: nat, pad: nat)
    requires Inv(c, s) && Enabled(c, s, DoAlloc(size, align, pad))
    ensures Inv(c, Next(c, s, DoAlloc(size, align, pad)))
  {
    hide Links, Counts, Distinct, Layout, AllocInternal;
    AllocLayout(c, s.sh.seg, s.own.Keys, size, align, pad);
    SameCounts(c, s, Next(c, s, DoAlloc(size, align, pad)));
  }

  /** Every enabled step of every task keeps the invariant. */
  lemma NextInv(c: Conf, s: Sys, a: Act)
    requires Inv(c, s) && Enabled(c, s, a)
    ensures Inv(c, Next(c, s, a))
  {
    hide Inv, Enabled, Next;
    match a
    case DoReserve(t) => ReserveInv(c, s, t);
    case DoPop(t) => PopInv(c, s, t);
    case DoGrow(t) => GrowInv(c, s, t);
    case DoRelease(t, b) => ReleaseInv(c, s, t, b);
    case DoPush(t) => PushInv(c, s, t);
    case DoStore(x, v) => StoreInv(c, s, x, v);
    case DoAlloc(size, align, pad) => AllocInv(c, s, size, align, pad);
  }

  // ----- whole runs -----

  ghost predicate LegalRun(c: Conf, s: Sys, acts: seq<Act>)
    requires Inv(c, s)
    decreases |acts|
  {
    acts == [] || (Enabled(c, s, acts[0]) && (NextInv(c, s, acts[0]); LegalRun(c, Next(c, s, acts[0]), acts[1..])))
  }

  ghost function Run(c: Conf, s: Sys, acts: seq<Act>): Sys
    requires Inv(c, s) && LegalRun(c, s, acts)
    decreases |acts|
  {
    if acts == [] then s else (NextInv(c, s, acts[0]); Run(c, Next(c, s, acts[0]), acts[1..]))
  }

  /** In every state that any interleaving can reach, the invariant holds. */
  lemma {:induction false} RunInv(c: Conf, s: Sys, acts: seq<Act>)
    requires Inv(c, s) && LegalRun(c, s, acts)
    ensures Inv(c, Run(c, s, acts)) && Run(c, s, acts).pc.Keys == s.pc.Keys
    decreases |acts|
  {
    hide Inv, Enabled;
    if acts != [] {
      NextInv(c, s, acts[0]);
      SameTasks(c, s, acts[0]);
      RunInv(c, Next(c, s, acts[0]), acts[1..]);
    }
  }

  lemma SameTasks(c: Conf, s: Sys, a: Act)
    requires Inv(c, s) && Enabled(c, s, a)
    ensures Next(c, s, a).pc.Keys == s.pc.Keys
  {
    hide Inv, AllocInternal;
  }

  // ----- what the invariant gives -----

  /** The block a step hands to its task, or 0. */
  ghost function HandedOut(c: Conf, s: Sys, a: Act): nat
    requires Inv(c, s) && Enabled(c, s, a)
  {
    InBounds(c, s);
    match a
    case DoPop(_) => Pop(s.sh).1
    case DoGrow(_) => if Grow(c, s.sh).1.Granted? then Grow(c, s.sh).1.blk else 0
    case _ => 0
  }

  ghost predicate NoOverlap(c: Conf, b: nat, d: nat) { b + c.blkSize <= d || d + c.blkSize <= b }

  /** No block is handed to a second holder: what a step hands out was free or new, and shares no byte with any
      block that is held or on its way back. */
  lemma NoDoubleHandOut(c: Conf, s: Sys, a: Act)
    requires Inv(c, s) && Enabled(c, s, a) && HandedOut(c, s, a) != 0
    ensures var b := HandedOut(c, s, a);
      && (b in s.own ==> s.own[b] == Free)
      && b in Next(c, s, a).own && Next(c, s, a).own[b] == HeldBy(a.t)
      && b % c.blkAlign == 0
      && forall d | d in s.own && s.own[d] != Free :: NoOverlap(c, b, d)
  {
    hide AllocInternal, Layout, Links, Counts, Ownership;
    InBounds(c, s);
    if a.DoPop? {
      LayoutPair(c, s.sh.seg, s.own.Keys, s.free[0]);
    } else {
      GrowLayout(c, s.sh.seg, s.own.Keys);
      var (g, r) := AllocInternal(s.sh.seg, c.blkSize, c.blkAlign, c.blkPad);
      LayoutPair(c, g, s.own.Keys + {r.blk}, r.blk);
    }
  }

  lemma LayoutPair(c: Conf, g: Seg, blks: set<nat>, b: nat)
    requires Layout(c, g, blks) && b in blks
    ensures c.blkAlign > 0 && b % c.blkAlign == 0
    ensures forall d | d in blks && d != b :: NoOverlap(c, b, d)
  {
    assert BlkPlaced(c, g, b);
  }

  /** Only the users' own stores change the bytes of a held block. */
  lemma HeldBytesKept(c: Conf, s: Sys, a: Act, b: nat, x: nat)
    requires Inv(c, s) && Enabled(c, s, a) && !a.DoStore?
    requires b in s.own && s.own[b].HeldBy? && InBlk(c, b, x)
    ensures x < |s.sh.mem| == |Next(c, s, a).sh.mem| && Next(c, s, a).sh.mem[x] == s.sh.mem[x]
  {
    hide AllocInternal, Layout, Links, Counts, Distinct, ByteOf;
    InBounds(c, s);
    if a.DoPush? {
      LayoutPair(c, s.sh.seg, s.own.Keys, s.pc[a.t].blk);
      LayoutConf(c, s);
    }
  }

  /** Whatever happens, block b is not freed and nobody stores into it. */
  ghost predicate Undisturbed(c: Conf, acts: seq<Act>, b: nat) {
    forall a | a in acts :: Spares(c, a, b)
  }

  predicate Spares(c: Conf, a: Act, b: nat) {
    && (a.DoStore? ==> !InBlk(c, b, a.addr))
    && (a.DoRelease? ==> a.blk != b)
  }

  lemma HeldStep(c: Conf, s: Sys, a: Act, b: nat, x: nat)
    requires Inv(c, s) && Enabled(c, s, a) && Spares(c, a, b)
    requires b in s.own && s.own[b].HeldBy? && InBlk(c, b, x)
    ensures var s' := Next(c, s, a);
      && b in s'.own && s'.own[b] == s.own[b]
      && x < |s.sh.mem| == |s'.sh.mem| && s'.sh.mem[x] == s.sh.mem[x]
  {
    hide AllocInternal, Layout, Links, Counts, Distinct, ByteOf;
    InBounds(c, s);
    if a.DoGrow? {
      GrowLayout(c, s.sh.seg, s.own.Keys);
    }
    if !a.DoStore? {
      HeldBytesKept(c, s, a, b, x);
    }
  }

  /** A block stays with its holder, byte for byte as the holder left it, through every interleaving of the other
      calls, until it is freed. */
  lemma {:induction false} HeldUntilFreed(c: Conf, s: Sys, acts: seq<Act>, b: nat, x: nat)
    requires Inv(c, s) && LegalRun(c, s, acts) && Undisturbed(c, acts, b)
    requires b in s.own && s.own[b].HeldBy? && InBlk(c, b, x)
    ensures var q := Run(c, s, acts);
      && b in q.own && q.own[b] == s.own[b]
      && x < |s.sh.mem| == |q.sh.mem| && q.sh.mem[x] == s.sh.mem[x]
    decreases |acts|
  {
    hide Inv, Enabled, Next, Spares, InBlk;
    if acts != [] {
      NextInv(c, s, acts[0]);
      assert acts[0] in acts && forall a | a in acts[1..] :: a in acts;
      HeldStep(c, s, acts[0], b, x);
      HeldUntilFreed(c, Next(c, s, acts[0]), acts[1..], b, x);
    } else {
      HeldInside(c, s, b, x);
    }
  }

  lemma HeldInside(c: Conf, s: Sys, b: nat, x: nat)
    requires Inv(c, s) && b in s.own && InBlk(c, b, x)
    ensures x < |s.sh.mem|
  {
    InBounds(c, s);
  }

  /** Every carved block is in exactly one place: on the free list, held, or between the two sections of one
      task's free. */
  lemma ExactlyOnePlace(c: Conf, s: Sys, b: nat)
    requires Inv(c, s) && b in s.own
    ensures One(b in s.free) + One(s.own[b].HeldBy?) + One(exists t :: t in s.pc && s.pc[t] == InTransit(b)) == 1
    ensures forall t, u | t in s.pc && u in s.pc && s.pc[t] == InTransit(b) && s.pc[u] == InTransit(b) :: t == u
  {
    hide Layout, Links, Counts, Distinct;
    if s.own[b].Transit? {
      assert s.pc[s.own[b].task] == InTransit(b);
    }
  }

  /** A limited pool never has more blocks out than its maximum less the growths that failed, and N tasks together
      carve at most N - 1 blocks more than the maximum. */
  lemma Quantities(c: Conf, s: Sys)
    requires Inv(c, s) && Limited(c)
    ensures |HeldBlks(s.own)| + s.failed <= c.qtyMax
    ensures |s.own| <= c.qtyMax + |s.pc| - 1
    ensures (forall t | t in s.pc :: !IsReserving(s.pc[t])) ==> s.sh.allocCnt == |HeldBlks(s.own)| + s.failed
  {
    hide Layout, Links, Ownership;
    if forall t | t in s.pc :: !IsReserving(s.pc[t]) {
      assert Reserving(s.pc) == {};
    }
  }

  /** Mem_DynPoolBlkNbrAvailGet() on a limited pool. */
  function NbrAvail(c: Conf, s: Shared): int { c.qtyMax - s.allocCnt }

  /** Between calls the reported number is what the maximum leaves, less the growths that failed; so it is the
      maximum minus the held blocks exactly when no growth failed. */
  lemma NbrAvailExact(c: Conf, s: Sys)
    requires Inv(c, s) && Limited(c) && forall t | t in s.pc :: !IsReserving(s.pc[t])
    ensures 0 <= NbrAvail(c, s.sh) == c.qtyMax - |HeldBlks(s.own)| - s.failed
    ensures NbrAvail(c, s.sh) == c.qtyMax - |HeldBlks(s.own)| <==> s.failed == 0
  {
    hide Layout, Links, Ownership, HeldBlks;
    Quantities(c, s);
  }

  // ----- growths that fail -----

  /** The step grows the pool, and the next block does not fit the segment. */
  ghost predicate Leaks(c: Conf, s: Sys, a: Act)
    requires Inv(c, s)
  {
    a.DoGrow? && !Fits(s.sh.seg, c.blkSize, c.blkAlign, c.blkPad)
  }

  lemma LeakStep(c: Conf, s: Sys, a: Act)
    requires Inv(c, s) && Enabled(c, s, a)
    ensures Next(c, s, a).failed == s.failed + One(Leaks(c, s, a))
  {
    hide AllocInternal, Links, Counts, Ownership, CeilTo, IsPow2, Fits, ByteOf;
    GrowExact(c, s);
  }

  /** For a pool's own requests the wrapped fit test is right, and on failure reports what is missing. */
  lemma GrowExact(c: Conf, s: Sys)
    requires Inv(c, s)
    ensures c.blkAlign < MODULUS && 0 < c.blkPad < MODULUS && s.sh.seg.next < MODULUS
    ensures var (g, r) := (s.sh.seg, AllocInternal(s.sh.seg, c.blkSize, c.blkAlign, c.blkPad).1);
      if Fits(g, c.blkSize, c.blkAlign, c.blkPad) then r.Granted?
      else r == SegOvf(BlkLimit(g, c.blkSize, c.blkAlign, c.blkPad) - (g.end + 1))
  {
    hide AllocCritical, Links, Counts, Ownership, CeilTo, IsPow2;
    TotalBound(s.sh.seg, c.blkSize, c.blkAlign, c.blkPad);
    AllocExact(s.sh.seg, c.blkSize, c.blkAlign, c.blkPad);
  }

  /** How many steps of a run grow the pool while the segment is too full. */
  ghost function LeakCount(c: Conf, s: Sys, acts: seq<Act>): nat
    requires Inv(c, s) && LegalRun(c, s, acts)
    decreases |acts|
  {
    if acts == [] then 0
    else (NextInv(c, s, acts[0]); One(Leaks(c, s, acts[0])) + LeakCount(c, Next(c, s, acts[0]), acts[1..]))
  }

  /** Over any run the failed growths are those steps, and the number never goes down; each takes one block off what
      the pool can ever hand out again. */
  lemma {:induction false} RunLeaks(c: Conf, s: Sys, acts: seq<Act>)
    requires Inv(c, s) && LegalRun(c, s, acts)
    ensures var q := Run(c, s, acts);
      && q.failed == s.failed + LeakCount(c, s, acts)
      && (Limited(c) ==> |HeldBlks(q.own)| + s.failed + LeakCount(c, s, acts) <= c.qtyMax)
    decreases |acts|
  {
    hide Inv, Enabled, Next, Leaks, HeldBlks;
    if acts == [] {
      if Limited(c) { Quantities(c, s); }
    } else {
      NextInv(c, s, acts[0]);
      LeakStep(c, s, acts[0]);
      RunLeaks(c, Next(c, s, acts[0]), acts[1..]);
    }
  }

  /** After a run from a state without failed growths, ending between calls, the reported number is the maximum minus
      the held blocks if and only if the pool never grew while its next block did not fit the segment. */
  lemma NbrAvailIff(c: Conf, s: Sys, acts: seq<Act>)
    requires Inv(c, s) && Limited(c) && s.failed == 0 && LegalRun(c, s, acts)
    requires forall t | t in Run(c, s, acts).pc :: !IsReserving(Run(c, s, acts).pc[t])
    ensures var q := Run(c, s, acts);
      NbrAvail(c, q.sh) == c.qtyMax - |HeldBlks(q.own)| <==> LeakCount(c, s, acts) == 0
  {
    hide Inv, LegalRun, Run, LeakCount, HeldBlks;
    RunInv(c, s, acts);
    RunLeaks(c, s, acts);
    NbrAvailExact(c, Run(c, s, acts));
  }

  lemma RunCons(c: Conf, s: Sys, a: Act, rest: seq<Act>)
    requires Inv(c, s) && Enabled(c, s, a) && Inv(c, Next(c, s, a)) && LegalRun(c, Next(c, s, a), rest)
    ensures LegalRun(c, s, [a] + rest) && Run(c, s, [a] + rest) == Run(c, Next(c, s, a), rest)
  {
    hide Inv, Enabled, Next;
    assert ([a] + rest)[0] == a && ([a] + rest)[1..] == rest;
  }

  lemma {:induction false} RunAppend(c: Conf, s: Sys, first: seq<Act>, rest: seq<Act>)
    requires Inv(c, s) && LegalRun(c, s, first)
    requires Inv(c, Run(c, s, first)) && LegalRun(c, Run(c, s, first), rest)
    ensures LegalRun(c, s, first + rest) && Run(c, s, first + rest) == Run(c, Run(c, s, first), rest)
    decreases |first|
  {
    hide Inv, Enabled, Next;
    if first == [] {
      assert first + rest == rest;
    } else {
      NextInv(c, s, first[0]);
      RunAppend(c, Next(c, s, first[0]), first[1..], rest);
      RunCons(c, s, first[0], first[1..] + rest);
      assert first + rest == [first[0]] + (first[1..] + rest);
    }
  }
}
