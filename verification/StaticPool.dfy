/** Static memory pools of lib_mem.c: a LIFO table of the addresses of free blocks. */
module StaticPool {
  import opened Bits
  import opened Rounding
  import opened Segments
  import opened SegmentList

  /** The fields of MEM_POOL that never change once the pool is created. */
  datatype Geometry = Geometry(start: nat, end: nat, blkNbr: nat, blkSize: nat)

  /** MEM_POOL; tbl is the contents of BlkFreeTbl. */
  datatype Pool = Pool(geo: Geometry, tbl: seq<nat>, ix: nat)

  datatype GetResult = Got(blk: nat) | GetInvalidBlkSize | PoolEmpty

  datatype FreeResult = Freed | NullPtr | InvalidBlkAddr | InvalidBlkAddrInPool | PoolFull

  // ----- the code -----

  /** Mem_PoolBlkGet() */
  function BlkGet(p: Pool, size: nat): (Pool, GetResult)
    requires p.ix <= |p.tbl|
  {
    if size < 1 || size > p.geo.blkSize then (p, GetInvalidBlkSize)
    else if p.ix > 0 then
      var blk := p.tbl[p.ix - 1];
      (Pool(p.geo, p.tbl[p.ix - 1 := 0], p.ix - 1), if blk == 0 then PoolEmpty else Got(blk))
    else (p, PoolEmpty)
  }

  /** Mem_PoolBlkIsValidAddr() */
  predicate BlkIsValidAddr(g: Geometry, mem: nat)
    requires g.blkSize > 0
  {
    !(mem < g.start || mem > g.end) && (mem - g.start) % g.blkSize == 0
  }

  /** Mem_PoolBlkFree() */
  function BlkFree(p: Pool, blk: nat): (Pool, FreeResult)
    requires p.geo.blkSize > 0 && |p.tbl| == p.geo.blkNbr
  {
    if blk == 0 then (p, NullPtr)
    else if !BlkIsValidAddr(p.geo, blk) then (p, InvalidBlkAddr)
    else if blk in p.tbl then (p, InvalidBlkAddrInPool)
    else if p.ix >= p.geo.blkNbr then (p, PoolFull)
    else (Pool(p.geo, p.tbl[p.ix := blk], p.ix + 1), Freed)
  }

  // ----- blocks, free and held -----

  function BlkAddr(g: Geometry, k: nat): nat { g.start + k * g.blkSize }

  ghost predicate IsBlk(g: Geometry, a: nat) {
    exists k: nat :: k < g.blkNbr && a == BlkAddr(g, k)
  }

  /** The first k block addresses. */
  ghost function Blks(g: Geometry, k: nat): set<nat> {
    if k == 0 then {} else Blks(g, k - 1) + {BlkAddr(g, k - 1)}
  }

  /** The addresses in the first i entries of a table. */
  ghost function Entries(tbl: seq<nat>, i: nat): set<nat>
    requires i <= |tbl|
  {
    if i == 0 then {} else Entries(tbl, i - 1) + {tbl[i - 1]}
  }

  ghost function FreeBlks(p: Pool): set<nat>
    requires p.ix <= |p.tbl|
  {
    Entries(p.tbl, p.ix)
  }

  /** The blocks handed out and not yet given back. */
  ghost function Held(p: Pool): set<nat>
    requires p.ix <= |p.tbl|
  {
    Blks(p.geo, p.geo.blkNbr) - FreeBlks(p)
  }

  ghost predicate GeometryOk(g: Geometry) {
    && 0 < g.start && 0 < g.blkNbr && 0 < g.blkSize
    && g.end + 1 == g.start + g.blkNbr * g.blkSize <= MODULUS
  }

  /** The first ix entries are distinct block addresses and the others are null. */
  ghost predicate Inv(p: Pool) {
    && GeometryOk(p.geo)
    && |p.tbl| == p.geo.blkNbr && p.ix <= p.geo.blkNbr
    && (forall i | 0 <= i < p.ix :: IsBlk(p.geo, p.tbl[i]))
    && (forall i, j | 0 <= i < j < p.ix :: p.tbl[i] != p.tbl[j])
    && (forall i | p.ix <= i < p.geo.blkNbr :: p.tbl[i] == 0)
  }

  lemma BlkAddrInjective(g: Geometry, j: nat, k: nat)
    requires g.blkSize > 0 && j < k
    ensures BlkAddr(g, j) < BlkAddr(g, k)
  {
    MulMonotone(j + 1, k, g.blkSize);
  }

  lemma {:induction false} BlksMembers(g: Geometry, k: nat)
    requires g.blkSize > 0
    ensures forall a: nat :: a in Blks(g, k) <==> exists j: nat :: j < k && a == BlkAddr(g, j)
    ensures |Blks(g, k)| == k
  {
    hide BlkAddr;
    if k != 0 {
      BlksMembers(g, k - 1);
      var last := BlkAddr(g, k - 1);
      forall j: nat | j < k - 1 ensures BlkAddr(g, j) != last {
        BlkAddrInjective(g, j, k - 1);
      }
      assert last !in Blks(g, k - 1);
    }
  }

  lemma {:induction false} EntriesMembers(tbl: seq<nat>, i: nat)
    requires i <= |tbl|
    ensures forall a: nat :: a in Entries(tbl, i) <==> exists j: nat :: j < i && a == tbl[j]
    ensures (forall j, k | 0 <= j < k < i :: tbl[j] != tbl[k]) ==> |Entries(tbl, i)| == i
  {
    if i != 0 { EntriesMembers(tbl, i - 1); }
  }

  /** Entries from i on do not matter. */
  lemma {:induction false} EntriesPrefix(tbl: seq<nat>, j: nat, v: nat, i: nat)
    requires i <= j < |tbl|
    ensures Entries(tbl, i) == Entries(tbl[j := v], i)
  {
    if i != 0 { EntriesPrefix(tbl, j, v, i - 1); }
  }

  lemma HeldMembers(p: Pool)
    requires Inv(p)
    ensures forall a: nat :: a in FreeBlks(p) <==> exists j: nat :: j < p.ix && a == p.tbl[j]
    ensures forall a: nat :: a in Held(p) <==> IsBlk(p.geo, a) && a !in FreeBlks(p)
    ensures FreeBlks(p) <= Blks(p.geo, p.geo.blkNbr)
    ensures |FreeBlks(p)| == p.ix && |Held(p)| == p.geo.blkNbr - p.ix
  {
    hide BlkAddr, Blks, Entries;
    BlksMembers(p.geo, p.geo.blkNbr);
    EntriesMembers(p.tbl, p.ix);
    assert Blks(p.geo, p.geo.blkNbr) == FreeBlks(p) + Held(p) && FreeBlks(p) !! Held(p);
  }

  /** The address check accepts exactly the block addresses. */
  lemma ValidAddrIff(g: Geometry, a: nat)
    requires GeometryOk(g)
    ensures BlkIsValidAddr(g, a) <==> IsBlk(g, a)
    ensures IsBlk(g, a) ==> a > 0
  {
    if IsBlk(g, a) {
      var k: nat :| k < g.blkNbr && a == BlkAddr(g, k);
      MulMonotone(k + 1, g.blkNbr, g.blkSize);
      ModUnique(a - g.start, g.blkSize, k, 0);
    } else if BlkIsValidAddr(g, a) {
      AddrIndex(g, a);
    }
  }

  lemma AddrIndex(g: Geometry, a: nat)
    requires GeometryOk(g) && BlkIsValidAddr(g, a)
    ensures IsBlk(g, a)
  {
    var k := (a - g.start) / g.blkSize;
    if k >= g.blkNbr { MulMonotone(g.blkNbr, k, g.blkSize); }
    assert a == BlkAddr(g, k);
  }

  // ----- single calls -----

  /** A successful get hands out a block nobody holds; it fails for size exactly when the size does not fit, and
      as empty exactly when every block is held. */
  lemma GetExact(p: Pool, size: nat)
    requires Inv(p)
    ensures var (p', r) := BlkGet(p, size);
      && Inv(p') && p'.geo == p.geo
      && (r.GetInvalidBlkSize? <==> size == 0 || size > p.geo.blkSize)
      && (r.PoolEmpty? <==> 0 < size <= p.geo.blkSize && |Held(p)| == p.geo.blkNbr)
      && (r.Got? ==> IsBlk(p.geo, r.blk) && r.blk !in Held(p) && Held(p') == Held(p) + {r.blk})
      && (!r.Got? ==> p' == p)
  {
    hide BlkAddr, Held, IsBlk, GeometryOk;
    HeldMembers(p);
    if p.ix > 0 { PopExact(p); }
  }

  /** Taking the top entry off the table. */
  lemma PopExact(p: Pool)
    requires Inv(p) && p.ix > 0
    ensures var (blk, p') := (p.tbl[p.ix - 1], Pool(p.geo, p.tbl[p.ix - 1 := 0], p.ix - 1));
      && Inv(p') && blk > 0 && IsBlk(p.geo, blk)
      && blk !in Held(p) && Held(p') == Held(p) + {blk}
  {
    hide BlkAddr, Blks, Entries, IsBlk, GeometryOk;
    var (blk, p') := (p.tbl[p.ix - 1], Pool(p.geo, p.tbl[p.ix - 1 := 0], p.ix - 1));
    ValidAddrIff(p.geo, blk);
    HeldMembers(p);
    EntriesPrefix(p.tbl, p.ix - 1, 0, p.ix - 1);
    EntriesSplit(p.tbl, p.ix);
    assert FreeBlks(p) == FreeBlks(p') + {blk};
    HeldMembers(p');
    assert blk !in FreeBlks(p');
  }

  lemma EntriesSplit(tbl: seq<nat>, i: nat)
    requires 0 < i <= |tbl|
    ensures Entries(tbl, i) == Entries(tbl, i - 1) + {tbl[i - 1]}
  {}

  /** A free succeeds exactly for the held blocks: a foreign address and a second free are both refused, and the
      table can never be found full. */
  lemma FreeExact(p: Pool, blk: nat)
    requires Inv(p)
    ensures p.geo.blkSize > 0
    ensures var (p', r) := BlkFree(p, blk);
      && Inv(p') && p'.geo == p.geo
      && (r.Freed? <==> blk in Held(p))
      && (r.NullPtr? <==> blk == 0)
      && (r.InvalidBlkAddr? <==> blk != 0 && !IsBlk(p.geo, blk))
      && (r.InvalidBlkAddrInPool? <==> IsBlk(p.geo, blk) && blk !in Held(p))
      && !r.PoolFull?
      && (if r.Freed? then Held(p') == Held(p) - {blk} else p' == p)
  {
    hide Inv, Held, FreeBlks, IsBlk, BlkIsValidAddr;
    GeometryOf(p);
    ValidAddrIff(p.geo, blk);
    InTableIff(p, blk);
    if blk in Held(p) {
      PushExact(p, blk);
    }
  }

  lemma GeometryOf(p: Pool)
    requires Inv(p)
    ensures p.geo.blkSize > 0 && p.ix <= |p.tbl| == p.geo.blkNbr && GeometryOk(p.geo)
  {}

  /** A block is held exactly when the table does not list it. */
  lemma InTableIff(p: Pool, a: nat)
    requires Inv(p)
    ensures a in Held(p) <==> IsBlk(p.geo, a) && a !in p.tbl
  {
    hide BlkAddr, Blks, Entries, IsBlk, Held, FreeBlks;
    HeldMembers(p);
    if IsBlk(p.geo, a) {
      ValidAddrIff(p.geo, a);
    }
  }

  lemma PushExact(p: Pool, blk: nat)
    requires Inv(p) && blk in Held(p)
    ensures p.ix < p.geo.blkNbr
    ensures var p' := Pool(p.geo, p.tbl[p.ix := blk], p.ix + 1); Inv(p') && Held(p') == Held(p) - {blk}
  {
    hide Inv, Held, FreeBlks, IsBlk;
    // the pigeonhole: a block that is not in the table leaves room in it
    GeometryOf(p);
    HeldMembers(p);
    assert |Held(p)| > 0;
    InTableIff(p, blk);
    PushKeepsInv(p, blk);
    PushTakes(p, blk);
  }

  lemma PushKeepsInv(p: Pool, blk: nat)
    requires Inv(p) && p.ix < p.geo.blkNbr && IsBlk(p.geo, blk) && blk !in p.tbl
    ensures Inv(Pool(p.geo, p.tbl[p.ix := blk], p.ix + 1))
  {
    hide IsBlk, GeometryOk;
  }

  lemma PushTakes(p: Pool, blk: nat)
    requires p.ix < |p.tbl|
    ensures Held(Pool(p.geo, p.tbl[p.ix := blk], p.ix + 1)) == Held(p) - {blk}
  {
    hide Blks;
    EntriesPrefix(p.tbl, p.ix, blk, p.ix);
    EntriesSplit(p.tbl[p.ix := blk], p.ix + 1);
  }

  /** LIFO: getting right after freeing returns the same block and restores the pool. */
  lemma GetUndoesFree(p: Pool, blk: nat, size: nat)
    requires Inv(p) && blk in Held(p) && 0 < size <= p.geo.blkSize
    ensures p.geo.blkSize > 0 && BlkGet(BlkFree(p, blk).0, size) == (p, Got(blk))
  {
    hide BlkAddr, Blks, Entries, IsBlk;
    HeldMembers(p);
    FreeExact(p, blk);
    assert BlkFree(p, blk).0.tbl[p.ix := 0] == p.tbl;
  }

  // ----- whole runs -----

  datatype Op = Get(size: nat) | Free(blk: nat)

  function Step(p: Pool, op: Op): Pool
    requires p.ix <= |p.tbl| == p.geo.blkNbr && p.geo.blkSize > 0
  {
    match op
    case Get(size) => BlkGet(p, size).0
    case Free(blk) => BlkFree(p, blk).0
  }

  lemma StepInv(p: Pool, op: Op)
    requires Inv(p)
    ensures p.geo.blkSize > 0 && Inv(Step(p, op)) && Step(p, op).geo == p.geo
  {
    hide IsBlk;
    match op
    case Get(size) => GetExact(p, size);
    case Free(blk) => FreeExact(p, blk);
  }

  ghost function Run(p: Pool, ops: seq<Op>): Pool
    requires Inv(p)
    decreases |ops|
  {
    if ops == [] then p else (StepInv(p, ops[0]); Run(Step(p, ops[0]), ops[1..]))
  }

  /** Over any sequence of calls with any arguments, free and held blocks partition the pool. */
  lemma {:induction false} RunPartition(p: Pool, ops: seq<Op>)
    requires Inv(p)
    ensures var q := Run(p, ops);
      && Inv(q) && q.geo == p.geo
      && FreeBlks(q) + Held(q) == Blks(p.geo, p.geo.blkNbr) && FreeBlks(q) !! Held(q)
      && |FreeBlks(q)| == q.ix && q.ix + |Held(q)| == p.geo.blkNbr
    decreases |ops|
  {
    hide BlkAddr, Blks, Entries, IsBlk, GeometryOk;
    if ops == [] {
      HeldMembers(p);
    } else {
      StepInv(p, ops[0]);
      RunPartition(Step(p, ops[0]), ops[1..]);
    }
  }

  // ----- carving a pool out of a segment -----

  /** sizeof(MEM_SEG) on the 32-bit target. */
  const SEG_SIZE: nat := 20

  datatype CreateErr =
    | PoolCreated
    | BadSegSize
    | BadBlkNbr
    | BadBlkSize
    | BadBlkAlign
    | BadSegOverlap
    | NoMemory(cause: AllocResult)

  lemma WordAlign()
    ensures IsAlign(WORD) && IsAlign(PADDING_NONE)
  {
    assert Pow2(2) == 4 && Pow2(0) == 1;
  }

  /** An unpadded allocation keeps the list linked, and sound if it was. */
  method PlainSegAlloc(mgr: SegMgr, seg: MemSeg, size: nat, align: nat) returns (r: AllocResult)
    requires mgr.Linked() && seg in mgr.Segs && size < MODULUS && align < MODULUS
    modifies seg`AddrNext
    ensures mgr.Linked() && (old(mgr.Valid()) ==> mgr.Valid())
    ensures (seg.View(), r) == AllocInternal(old(seg.View()), size, align, PADDING_NONE)
  {
    hide AllocInternal, Disjoint, IsPow2;
    WordAlign();
    if SegOk(seg.View()) {
      AllocKeeps(seg.View(), size, align, PADDING_NONE);
    }
    var a, _ := seg.SegAllocInternal(size, align, PADDING_NONE, 0);
    return a;
  }

  /** Where a pool is to go: the heap, the segment for its blocks, and whether they are the same; or why not. */
  datatype Place = Place(heap: Seg, home: Seg, onHeap: bool) | Nowhere(heap: Seg, err: CreateErr)

  /** What creation does to the heap and to the segment of the blocks, its error, and the addresses of blocks and
      table. */
  datatype Carving = Carving(heap: Seg, home: Seg, err: CreateErr, blks: nat, tbl: nat)

  /** Without a base address the pool goes on the heap; with one it goes into the segment of exactly that range, or
      into a new empty one whose descriptor the heap pays for. v is the verdict on the range, found its segment. */
  ghost function PlaceOf(heap: Seg, v: Verdict, found: Seg, foundIsHeap: bool, memBase: nat, memSize: nat): (p: Place)
    requires heap.next < MODULUS && found.next < MODULUS && memBase < MODULUS
    ensures p.heap.next < MODULUS && (p.Place? ==> p.home.next < MODULUS)
  {
    if memBase == 0 then Place(heap, heap, true)
    else
      match v
      case SegExists(_) => Place(heap, found, foundIsHeap)
      case SegOverlap(_) => Nowhere(heap, BadSegOverlap)
      case NoOverlap =>
        var (heap1, r) := AllocInternal(heap, SEG_SIZE, WORD, PADDING_NONE);
        if r.Granted? then Place(heap1, Seg(memBase, NewEnd(memBase, memSize), memBase), false)
        else Nowhere(heap1, NoMemory(r))
  }

  /** The distance of the blocks as the code computes it. */
  function BlkSizeAlign(blkSize: nat, blkAlign: nat): (c: nat)
    requires blkSize < MODULUS && 0 < blkAlign < MODULUS
    ensures c < MODULUS
  {
    RoundIncUpPwr2(blkSize, blkAlign)
  }

  /** Carving blocks and table, in 32-bit arithmetic. */
  ghost function Carved(p: Place, blkNbr: nat, blkSize: nat, blkAlign: nat): Carving
    requires p.heap.next < MODULUS && (p.Place? ==> p.home.next < MODULUS)
    requires blkSize < MODULUS && 0 < blkAlign < MODULUS
  {
    if p.Nowhere? then Carving(p.heap, p.heap, p.err, 0, 0)
    else
      var (home1, r) := AllocInternal(p.home, Wrap(BlkSizeAlign(blkSize, blkAlign) * blkNbr), blkAlign, PADDING_NONE);
      var heap1 := if p.onHeap then home1 else p.heap;
      if !r.Granted? then Carving(heap1, home1, NoMemory(r), 0, 0)
      else
        var (heap2, t) := AllocInternal(heap1, Wrap(WORD * blkNbr), WORD, PADDING_NONE);
        var home2 := if p.onHeap then heap2 else home1;
        if t.Granted? then Carving(heap2, home2, PoolCreated, r.blk, t.blk)
        else Carving(heap2, home2, NoMemory(t), r.blk, 0)
  }

  /** The segment the table comes from, after the blocks have been allocated. */
  ghost function TblSeg(p: Place, blkNbr: nat, blkSize: nat, blkAlign: nat): Seg
    requires p.Place? && p.home.next < MODULUS && blkSize < MODULUS && 0 < blkAlign < MODULUS
  {
    if p.onHeap
    then AllocInternal(p.home, Wrap(BlkSizeAlign(blkSize, blkAlign) * blkNbr), blkAlign, PADDING_NONE).0
    else p.heap
  }

  ghost predicate PlaceOk(p: Place) {
    && p.Place? && SegOk(p.home) && SegOk(p.heap) && 0 < p.home.base && 0 < p.heap.base
    && (p.onHeap ==> p.home == p.heap)
  }

  /** Where the blocks end, in unbounded arithmetic. */
  ghost function BlksEnd(p: Place, blkNbr: nat, blkSize: nat, blkAlign: nat): nat
    requires p.Place? && 0 < blkAlign
  {
    NextAligned(p.home, blkAlign) + CeilTo(blkSize, blkAlign) * blkNbr
  }

  /** Where the search for the table's place starts: after the blocks, or at the heap's next address. */
  ghost function TblFrom(p: Place, blkNbr: nat, blkSize: nat, blkAlign: nat): nat
    requires p.Place? && 0 < blkAlign
  {
    if p.onHeap then BlksEnd(p, blkNbr, blkSize, blkAlign) else TrueNext(p.heap)
  }

  /** The true sizes of blocks and table, with the gaps in front of them, stay below 2^32. */
  ghost predicate RoomOk(p: Place, blkNbr: nat, blkSize: nat, blkAlign: nat)
    requires p.Place? && 0 < blkAlign
  {
    && BlksEnd(p, blkNbr, blkSize, blkAlign) - TrueNext(p.home) < MODULUS
    && var from := TblFrom(p, blkNbr, blkSize, blkAlign); CeilTo(from, WORD) + WORD * blkNbr - from < MODULUS
  }

  /** Every block lies inside its segment, and every table entry inside the heap. */
  ghost predicate AllInside(p: Place, o: Carving, blkNbr: nat, c: nat)
    requires p.Place?
  {
    && (forall k: nat | k < blkNbr :: BlkInside(p.home, o.blks, c, k))
    && (forall k: nat | k < blkNbr :: BlkInside(p.heap, o.tbl, WORD, k))
  }

  /** The products of creation are taken modulo 2^32 and never checked: a creation that succeeds has put every block
      and every table entry inside its segment if and only if the true totals are below 2^32. */
  lemma CreationSoundIff(p: Place, blkNbr: nat, blkSize: nat, blkAlign: nat)
    requires PlaceOk(p) && 0 < blkNbr < MODULUS && 0 < blkSize < MODULUS && IsAlign(blkAlign)
    requires Carved(p, blkNbr, blkSize, blkAlign).err.PoolCreated?
    ensures AllInside(p, Carved(p, blkNbr, blkSize, blkAlign), blkNbr, BlkSizeAlign(blkSize, blkAlign))
       <==> RoomOk(p, blkNbr, blkSize, blkAlign)
  {
    hide AllocInternal, CeilTo, IsPow2, RoundIncUpPwr2, BlkInside, TotalSize;
    var c := BlkSizeAlign(blkSize, blkAlign);
    var t := TblSeg(p, blkNbr, blkSize, blkAlign);
    WordAlign();
    GrantedDistance(p.home, c, blkNbr, blkSize, blkAlign);
    BlksInsideIff(p.home, c, blkNbr, blkAlign);
    BlksTotal(p.home, c * blkNbr, blkAlign);
    if BlksEnd(p, blkNbr, blkSize, blkAlign) - TrueNext(p.home) < MODULUS {
      AllocKeeps(p.home, Wrap(c * blkNbr), blkAlign, PADDING_NONE);
      BlksInsideIff(t, WORD, blkNbr, WORD);
      BlksTotal(t, WORD * blkNbr, WORD);
      TblNext(p, blkNbr, blkSize, blkAlign);
      SameInside(p.heap, t, Carved(p, blkNbr, blkSize, blkAlign).tbl, blkNbr);
    }
  }

  lemma BlksTotal(s: Seg, size: nat, align: nat)
    requires SegOk(s) && IsAlign(align)
    ensures TotalSize(s, size, align, PADDING_NONE) == NextAligned(s, align) + size - TrueNext(s)
  {
    UnpaddedLimit(s, size, align);
  }

  /** After blocks with room the next address is where they end. */
  lemma TblNext(p: Place, blkNbr: nat, blkSize: nat, blkAlign: nat)
    requires PlaceOk(p) && 0 < blkNbr < MODULUS && 0 < blkSize < MODULUS && IsAlign(blkAlign)
    requires BlksEnd(p, blkNbr, blkSize, blkAlign) - TrueNext(p.home) < MODULUS
    requires AllocInternal(p.home, Wrap(BlkSizeAlign(blkSize, blkAlign) * blkNbr), blkAlign, PADDING_NONE).1.Granted?
    ensures TrueNext(TblSeg(p, blkNbr, blkSize, blkAlign)) == TblFrom(p, blkNbr, blkSize, blkAlign)
  {
    hide AllocCritical, CeilTo, IsPow2, IsPwr2, RoundIncUpPwr2;
    if p.onHeap {
      var c := BlkSizeAlign(blkSize, blkAlign);
      GrantedDistance(p.home, c, blkNbr, blkSize, blkAlign);
      NextAlignedBound(p.home, blkAlign);
      WrapTurn(c * blkNbr);
      UnpaddedLimit(p.home, c * blkNbr, blkAlign);
      AllocExact(p.home, c * blkNbr, blkAlign, PADDING_NONE);
    }
  }

  /** Where the blocks of a creation with room start. */
  lemma SoundStart(p: Place, blkNbr: nat, blkSize: nat, blkAlign: nat)
    requires PlaceOk(p) && 0 < blkNbr < MODULUS && 0 < blkSize < MODULUS && IsAlign(blkAlign)
    requires RoomOk(p, blkNbr, blkSize, blkAlign)
    requires AllocInternal(p.home, Wrap(BlkSizeAlign(blkSize, blkAlign) * blkNbr), blkAlign, PADDING_NONE).1.Granted?
    ensures var (c, start) := (BlkSizeAlign(blkSize, blkAlign),
        AllocInternal(p.home, Wrap(BlkSizeAlign(blkSize, blkAlign) * blkNbr), blkAlign, PADDING_NONE).1.blk);
      && c == CeilTo(blkSize, blkAlign) > 0 && Wrap(c * blkNbr) == c * blkNbr
      && p.home.base <= start && start + c * blkNbr <= p.home.end + 1 && start % blkAlign == 0
  {
    hide AllocInternal, CeilTo, IsPow2, RoundIncUpPwr2;
    var c := BlkSizeAlign(blkSize, blkAlign);
    GrantedDistance(p.home, c, blkNbr, blkSize, blkAlign);
    UnpaddedLimit(p.home, c * blkNbr, blkAlign);
    NextAlignedBound(p.home, blkAlign);
    WrapTurn(c * blkNbr);
    GrantedStart(p.home, Wrap(c * blkNbr), blkAlign);
    GrantedFits(p.home, c * blkNbr, blkAlign);
    CeilIsMultiple(TrueNext(p.home), blkAlign);
  }

  /** A segment's next address does not matter for what lies inside. */
  lemma SameInside(s: Seg, t: Seg, start: nat, n: nat)
    requires s.base == t.base && s.end == t.end
    ensures forall k: nat | k < n :: BlkInside(s, start, WORD, k) <==> BlkInside(t, start, WORD, k)
  {}

  /** Two blocks of 0x80000001 bytes are accepted in a segment of 96 bytes, because their product wraps to 2. */
  lemma WrappedPoolAccepted()
    ensures var p := Place(Seg(4096, 8191, 4096), Seg(4, 99, 4), false);
      var o := Carved(p, 2, 0x8000_0001, 1);
      && PlaceOk(p) && o.err.PoolCreated? && !RoomOk(p, 2, 0x8000_0001, 1)
      && !BlkInside(p.home, o.blks, 0x8000_0001, 0)
  {
    hide AllocInternal, CeilTo, RoundIncUpPwr2, IsPow2, BlkAt;
    var p := Place(Seg(4096, 8191, 4096), Seg(4, 99, 4), false);
    WordAlign();
    ExactSize(0x8000_0001);
    PlainGrant(p.home, 2, 1);
    PlainGrant(p.heap, 8, WORD);
    UnpaddedLimit(p.home, 0x1_0000_0002, 1);
    CeilOfMultiple(4, 1);
  }

  lemma ExactSize(n: nat)
    requires n < MODULUS
    ensures CeilTo(n, 1) == n && (n > 0 ==> BlkSizeAlign(n, 1) == n)
  {
    hide CeilTo, RoundIncUpPwr2, IsPow2;
    WordAlign();
    CeilOfMultiple(n, 1);
    RoundWordExact(n, 1);
    WrapTurn(n);
  }

  /** 65536 blocks of 65536 bytes wrap to 0 bytes, which are refused: not every layout beyond 2^32 does harm. */
  lemma WrappedPoolRefused(p: Place)
    requires PlaceOk(p)
    ensures Carved(p, 65536, 65536, 1).err == NoMemory(InvalidMemSize)
  {
    hide AllocCritical, CeilTo, RoundIncUpPwr2, IsPow2;
    ExactSize(65536);
  }

  // ----- when creation succeeds, in unbounded arithmetic -----

  /** Where the descriptor of a new segment ends on the heap. */
  ghost function DescEnd(heap: Seg): nat { CeilTo(TrueNext(heap), WORD) + SEG_SIZE }

  /** Where the table ends. */
  ghost function TblEnd(p: Place, blkNbr: nat, blkSize: nat, blkAlign: nat): nat
    requires p.Place? && 0 < blkAlign
  {
    CeilTo(TblFrom(p, blkNbr, blkSize, blkAlign), WORD) + WORD * blkNbr
  }

  /** A creation in the segment home whose totals stay below 2^32: it succeeds if and only if the blocks end inside home
      and the table after them inside the heap, and it puts the blocks at the first aligned address. heapFrom is the
      heap's next address. */
  ghost predicate CreatedIffFits(home: Seg, heapEnd: nat, heapFrom: nat, onHeap: bool,
                                 blkNbr: nat, blkSize: nat, blkAlign: nat, created: bool, start: nat)
    requires 0 < blkAlign
  {
    var blksEnd := NextAligned(home, blkAlign) + CeilTo(blkSize, blkAlign) * blkNbr;
    var tblFrom := if onHeap then blksEnd else heapFrom;
    var tblEnd := CeilTo(tblFrom, WORD) + WORD * blkNbr;
    blksEnd - TrueNext(home) < MODULUS && tblEnd - tblFrom < MODULUS ==>
      && (created <==> blksEnd <= home.end + 1 && tblEnd <= heapEnd + 1)
      && (created ==> start == NextAligned(home, blkAlign))
  }

  lemma FitsExact(p: Place, blkNbr: nat, blkSize: nat, blkAlign: nat)
    requires p.Place? && SegOk(p.home) && SegOk(p.heap) && (p.onHeap ==> p.home == p.heap)
    requires 0 < blkNbr < MODULUS && 0 < blkSize < MODULUS && IsAlign(blkAlign)
    ensures var o := Carved(p, blkNbr, blkSize, blkAlign);
      CreatedIffFits(p.home, p.heap.end, TrueNext(p.heap), p.onHeap, blkNbr, blkSize, blkAlign, o.err.PoolCreated?,
                     if o.err.PoolCreated? then o.blks else 0)
  {
    hide Carved, CeilTo, IsPow2, TrueNext;
    if RoomOk(p, blkNbr, blkSize, blkAlign) {
      CarvedExact(p, blkNbr, blkSize, blkAlign);
    }
  }

  /** A given range that meets no segment of the list, and so needs a segment of its own. */
  ghost predicate IsNew(rs: seq<Range>, memBase: nat, memSize: nat) { memBase != 0 && !Meets(rs, memBase, memSize) }

  /** A given range that meets a segment without being one. */
  ghost predicate Clashes(rs: seq<Range>, memBase: nat, memSize: nat) {
    memBase != 0 && Meets(rs, memBase, memSize) && !Listed(rs, memBase, memSize)
  }

  /** The heap has room for the descriptor of a new segment. */
  ghost predicate DescFits(heap: Seg) { DescEnd(heap) <= heap.end + 1 }

  /** The list of segments afterwards, and the one the pool goes into, whose range is homeRange. */
  ghost predicate ListRight(before: seq<MemSeg>, rs: seq<Range>, h: Seg, segs: seq<MemSeg>, heap: MemSeg, home: MemSeg,
                            homeRange: Range, memBase: nat, memSize: nat)
  {
    && (!IsNew(rs, memBase, memSize) || !DescFits(h) ==> segs == before && home in before)
    && (memBase == 0 ==> home == heap)
    && (memBase != 0 && Listed(rs, memBase, memSize) ==> homeRange.first == memBase && homeRange.last + 1 == memBase + memSize)
    && (IsNew(rs, memBase, memSize) && DescFits(h) ==>
          segs == [home] + before && home !in before && homeRange.first == memBase && homeRange.last + 1 == memBase + memSize)
  }

  /** The place of a pool: the heap itself without a base address; otherwise the segment of exactly the given range, an
      overlap error if the range only meets segments, and a new empty segment if it meets none, provided the heap has
      room for the descriptor. */
  lemma PlaceExact(heap: Seg, rs: seq<Range>, found: Seg, foundIsHeap: bool, memBase: nat, memSize: nat)
    requires Disjoint(rs) && SegOk(heap) && found.next < MODULUS && memBase < MODULUS
    requires memBase != 0 ==> NewOk(memBase, memSize) && memBase + memSize <= MODULUS
    ensures var p := PlaceOf(heap, VerdictOn(rs, memBase, memSize), found, foundIsHeap, memBase, memSize);
      if memBase == 0 then p == Place(heap, heap, true)
      else if Listed(rs, memBase, memSize) then p == Place(heap, found, foundIsHeap)
      else if Meets(rs, memBase, memSize) then p == Nowhere(heap, BadSegOverlap)
      else if DescFits(heap) then
        && p.Place? && !p.onHeap && p.home == Seg(memBase, memBase + memSize - 1, memBase)
        && SegOk(p.heap) && p.heap == heap.(next := p.heap.next) && TrueNext(p.heap) == DescEnd(heap)
      else p == Nowhere(heap, NoMemory(SegOvf(DescEnd(heap) - (heap.end + 1))))
  {
    hide AllocCritical, CeilTo, IsPow2, IsPwr2, Meets, Scan, Disjoint;
    if memBase != 0 {
      ScanMeans(rs, memBase, memSize);
      EndExact(memBase, memSize);
      WordAlign();
      UnpaddedLimit(heap, SEG_SIZE, WORD);
      NextAlignedBound(heap, WORD);
      AllocExact(heap, SEG_SIZE, WORD, PADDING_NONE);
    }
  }

  /** The verdict on the given range; there is none to ask for without a base address. */
  ghost function VerdictOn(rs: seq<Range>, memBase: nat, memSize: nat): Verdict {
    if memBase == 0 then NoOverlap else Scan(rs, memBase, NewEnd(memBase, memSize))
  }

  /** With room for the totals in 32 bits, carving succeeds if and only if the blocks end inside their segment and the
      table, which comes after, ends inside the heap; and it puts both at the first aligned address. */
  lemma CarvedExact(p: Place, blkNbr: nat, blkSize: nat, blkAlign: nat)
    requires p.Place? && SegOk(p.home) && SegOk(p.heap) && (p.onHeap ==> p.home == p.heap)
    requires 0 < blkNbr < MODULUS && 0 < blkSize < MODULUS && IsAlign(blkAlign)
    requires RoomOk(p, blkNbr, blkSize, blkAlign)
    ensures var (o, b, t) := (Carved(p, blkNbr, blkSize, blkAlign), BlksEnd(p, blkNbr, blkSize, blkAlign),
        TblEnd(p, blkNbr, blkSize, blkAlign));
      && SegOk(o.home) && SegOk(o.heap)
      && (if b > p.home.end + 1 then
            o.err == NoMemory(SegOvf(b - (p.home.end + 1))) && o.home == p.home && o.heap == p.heap
          else if t > p.heap.end + 1 then
            && o.err == NoMemory(SegOvf(t - (p.heap.end + 1)))
            && TrueNext(o.home) == b && (if p.onHeap then o.heap == o.home else o.heap == p.heap)
          else
            && o.err.PoolCreated? && TrueNext(o.heap) == t && (if p.onHeap then o.heap == o.home else TrueNext(o.home) == b)
            && o.blks == NextAligned(p.home, blkAlign) && o.tbl == CeilTo(TblFrom(p, blkNbr, blkSize, blkAlign), WORD))
  {
    hide AllocInternal, CeilTo, IsPow2, RoundIncUpPwr2, TrueNext, Wrap;
    WordAlign();
    DistanceExact(p.home, blkNbr, blkSize, blkAlign);
    PlainExact(p.home, CeilTo(blkSize, blkAlign) * blkNbr, blkAlign);
    if BlksEnd(p, blkNbr, blkSize, blkAlign) <= p.home.end + 1 {
      WrapTurn(WORD * blkNbr);
      PlainExact(TblSeg(p, blkNbr, blkSize, blkAlign), WORD * blkNbr, WORD);
    }
  }

  // ----- choosing the segment -----

  /** What the verdict and the place mean, in terms of the ranges on the list. */
  lemma PlaceMeans(heap: Seg, rs: seq<Range>, found: Seg, foundIsHeap: bool, memBase: nat, memSize: nat)
    requires Disjoint(rs) && SegOk(heap) && found.next < MODULUS && memBase < MODULUS
    requires memBase != 0 ==> NewOk(memBase, memSize) && memBase + memSize <= MODULUS
    ensures var (v, isNew) := (VerdictOn(rs, memBase, memSize), IsNew(rs, memBase, memSize));
      var p := PlaceOf(heap, v, found, foundIsHeap, memBase, memSize);
      && (v.SegExists? <==> memBase != 0 && Listed(rs, memBase, memSize))
      && (v.SegExists? ==> v.ix < |rs| && rs[v.ix] == Range(memBase, memBase + memSize - 1))
      && (v.NoOverlap? <==> memBase == 0 || isNew)
      && (p.Nowhere? <==> Clashes(rs, memBase, memSize) || (isNew && !DescFits(heap)))
      && (p.Nowhere? ==> if Clashes(rs, memBase, memSize) then p.err.BadSegOverlap? else p.err.NoMemory?)
      && (p.Place? ==> TrueNext(p.heap) == if isNew then DescEnd(heap) else TrueNext(heap))
      && (p.Place? && isNew ==> p.home == Seg(memBase, memBase + memSize - 1, memBase) && !p.onHeap)
      && (p.Place? && !isNew ==> p.home == (if memBase == 0 then heap else found) && p.onHeap == (memBase == 0 || foundIsHeap))
  {
    hide PlaceOf, Meets, Scan, Disjoint, TrueNext, CeilTo, DescEnd;
    PlaceExact(heap, rs, found, foundIsHeap, memBase, memSize);
    if memBase != 0 {
      ScanMeans(rs, memBase, memSize);
    }
  }

  /** What a creation on a sound list means, in terms of the ranges on the list and of unbounded arithmetic. */
  lemma CreationMeans(heap: Seg, rs: seq<Range>, found: Seg, foundIsHeap: bool, memBase: nat, memSize: nat,
                      blkNbr: nat, blkSize: nat, blkAlign: nat)
    requires Disjoint(rs) && SegOk(heap) && SegOk(found) && (foundIsHeap ==> found == heap) && memBase < MODULUS
    requires memBase != 0 ==> NewOk(memBase, memSize) && memBase + memSize <= MODULUS
    requires 0 < blkNbr < MODULUS && 0 < blkSize < MODULUS && IsAlign(blkAlign)
    ensures var (v, isNew) := (VerdictOn(rs, memBase, memSize), IsNew(rs, memBase, memSize));
      var o := Carved(PlaceOf(heap, v, found, foundIsHeap, memBase, memSize), blkNbr, blkSize, blkAlign);
      && (v.SegExists? <==> memBase != 0 && Listed(rs, memBase, memSize))
      && (o.err.BadSegOverlap? <==> Clashes(rs, memBase, memSize))
      && (isNew && !DescFits(heap) ==> o.err.NoMemory?)
      && (!Clashes(rs, memBase, memSize) && (isNew ==> DescFits(heap)) ==>
            CreatedIffFits(if memBase == 0 then heap else if isNew then Seg(memBase, memBase + memSize - 1, memBase) else found,
                           heap.end, if isNew then DescEnd(heap) else TrueNext(heap), memBase == 0 || (!isNew && foundIsHeap),
                           blkNbr, blkSize, blkAlign, o.err.PoolCreated?, if o.err.PoolCreated? then o.blks else 0))
  {
    hide PlaceOf, DescFits, DescEnd, Scan, Disjoint, TrueNext, CeilTo, AllocInternal, CreatedIffFits, IsPow2,
      RoundIncUpPwr2, Meets, Listed;
    var p := PlaceOf(heap, VerdictOn(rs, memBase, memSize), found, foundIsHeap, memBase, memSize);
    PlaceMeans(heap, rs, found, foundIsHeap, memBase, memSize);
    PlaceSound(heap, rs, found, foundIsHeap, memBase, memSize);
    if p.Place? {
      FitsExact(p, blkNbr, blkSize, blkAlign);
    }
  }

  lemma PlaceSound(heap: Seg, rs: seq<Range>, found: Seg, foundIsHeap: bool, memBase: nat, memSize: nat)
    requires Disjoint(rs) && SegOk(heap) && SegOk(found) && (foundIsHeap ==> found == heap) && memBase < MODULUS
    requires memBase != 0 ==> NewOk(memBase, memSize) && memBase + memSize <= MODULUS
    ensures var p := PlaceOf(heap, VerdictOn(rs, memBase, memSize), found, foundIsHeap, memBase, memSize);
      p.Place? ==> SegOk(p.home) && SegOk(p.heap) && p.heap.end == heap.end && (p.onHeap ==> p.home == p.heap)
  {
    hide PlaceOf, Meets, Listed, Disjoint, CeilTo, AllocInternal;
    PlaceExact(heap, rs, found, foundIsHeap, memBase, memSize);
  }

  /** The segment of the list that a verdict is about, or the heap. */
  ghost function Found(v: Verdict, segs: seq<MemSeg>, heap: MemSeg): (s: MemSeg)
    ensures heap in segs ==> s in segs
  {
    if v.SegExists? && v.ix < |segs| then segs[v.ix] else heap
  }

  /** The segment of exactly the given range, or the heap. */
  ghost function FoundAt(mgr: SegMgr, heap: MemSeg, memBase: nat, memSize: nat): (s: MemSeg)
    reads mgr, mgr.Segs
    ensures heap in mgr.Segs ==> s in mgr.Segs
  {
    Found(VerdictOn(RangesOf(mgr.Segs), memBase, memSize), mgr.Segs, heap)
  }

  /** The place of a pool, given the list and the heap. */
  ghost function PlaceAt(mgr: SegMgr, heap: MemSeg, memBase: nat, memSize: nat): (p: Place)
    requires mgr.Linked() && heap in mgr.Segs && memBase < MODULUS
    reads mgr, mgr.Segs
    ensures p.heap.next < MODULUS && (p.Place? ==> p.home.next < MODULUS)
  {
    var found := FoundAt(mgr, heap, memBase, memSize);
    PlaceOf(heap.View(), VerdictOn(RangesOf(mgr.Segs), memBase, memSize), found.View(), found == heap, memBase, memSize)
  }

  /** The list is unchanged, or has the new segment in front. */
  ghost predicate Extends(segs: seq<MemSeg>, before: seq<MemSeg>, seg: MemSeg) {
    segs == before || segs == [seg] + before
  }

  /** First part of Mem_PoolCreate(): the segment to carve the pool from, created if its range is new. The range given
      is not checked, so the list stays sound only if that range does not wrap. */
  method ChooseSeg(mgr: SegMgr, heap: MemSeg, memBase: nat, memSize: nat) returns (err: CreateErr, seg: MemSeg)
    requires mgr.Linked() && heap in mgr.Segs
    requires memBase == 0 || NewOk(memBase, memSize)
    modifies mgr, heap`AddrNext
    ensures mgr.Linked() && heap in mgr.Segs && seg in mgr.Segs && Extends(mgr.Segs, old(mgr.Segs), seg)
    ensures old(mgr.Valid()) ==> (mgr.Valid() <==> mgr.Segs == old(mgr.Segs) || memBase + memSize <= MODULUS)
    ensures old(mgr.Valid()) && !mgr.Valid() ==> !Disjoint(RangesOf(mgr.Segs))
    ensures seg in old(mgr.Segs) || fresh(seg)
    ensures err.PoolCreated? || err.NoMemory? || err.BadSegOverlap?
    ensures mgr.Segs != old(mgr.Segs) ==> fresh(seg) && seg.PaddingAlign == PADDING_NONE
    ensures var v := old(VerdictOn(RangesOf(mgr.Segs), memBase, memSize));
      var found := old(FoundAt(mgr, heap, memBase, memSize));
      var p := old(PlaceAt(mgr, heap, memBase, memSize));
      && heap.View() == p.heap
      && (if p.Place? then err.PoolCreated? && seg.View() == p.home && (seg == heap <==> p.onHeap) else err == p.err && seg == heap)
      && (v.SegExists? ==> seg == found)
      && (mgr.Segs != old(mgr.Segs) <==> memBase != 0 && v.NoOverlap? && p.Place?)
    ensures old(mgr.Valid()) && (memBase == 0 || memBase + memSize <= MODULUS) ==>
      var (rs, h) := (old(RangesOf(mgr.Segs)), old(heap.View()));
      && (err.BadSegOverlap? <==> Clashes(rs, memBase, memSize))
      && (err.NoMemory? <==> IsNew(rs, memBase, memSize) && !DescFits(h))
      && ListRight(old(mgr.Segs), rs, h, mgr.Segs, heap, seg, Range(seg.AddrBase, seg.AddrEnd), memBase, memSize)
  {
    hide SegOk, Disjoint, AllocInternal, IsPow2, Clashes, IsNew, DescFits, TrueNext, Listed, DescEnd, CeilTo, Scan;
    ghost var before, rs0, h := mgr.Segs, RangesOf(mgr.Segs), heap.View();
    if mgr.Valid() && (memBase == 0 || memBase + memSize <= MODULUS) {
      var v0 := VerdictOn(rs0, memBase, memSize);
      PlaceMeans(h, rs0, Found(v0, before, heap).View(), Found(v0, before, heap) == heap, memBase, memSize);
    }
    seg := heap;
    if memBase == 0 {
      return PoolCreated, seg;
    }
    var v, found := mgr.SegOverlapChkCritical(memBase, memSize);
    match v
    case SegExists(i) =>
      RangesAt(mgr.Segs, i);
      return PoolCreated, found;
    case SegOverlap(_) =>
      return BadSegOverlap, seg;
    case NoOverlap =>
      err, seg := NewSeg(mgr, heap, memBase, memSize);
  }

  /** A new segment for a range that is found free, with its descriptor from the heap. */
  method NewSeg(mgr: SegMgr, heap: MemSeg, memBase: nat, memSize: nat) returns (err: CreateErr, seg: MemSeg)
    requires mgr.Linked() && heap in mgr.Segs && NewOk(memBase, memSize)
    requires Scan(RangesOf(mgr.Segs), memBase, NewEnd(memBase, memSize)).NoOverlap?
    modifies mgr, heap`AddrNext
    ensures mgr.Linked()
    ensures old(mgr.Valid()) ==> (mgr.Valid() <==> mgr.Segs == old(mgr.Segs) || memBase + memSize <= MODULUS)
    ensures old(mgr.Valid()) && !mgr.Valid() ==> !Disjoint(RangesOf(mgr.Segs))
    ensures var (heap1, r) := AllocInternal(old(heap.View()), SEG_SIZE, WORD, PADDING_NONE);
      && heap.View() == heap1
      && (if r.Granted? then
            && err.PoolCreated? && mgr.Segs == [seg] + old(mgr.Segs) && fresh(seg) && seg.PaddingAlign == PADDING_NONE
            && seg.View() == Seg(memBase, NewEnd(memBase, memSize), memBase)
          else err == NoMemory(r) && seg == heap && mgr.Segs == old(mgr.Segs))
  {
    hide SegOk, Disjoint, AllocInternal, IsPow2, Scan;
    WordAlign();
    ghost var rs := RangesOf(mgr.Segs);
    var r := PlainSegAlloc(mgr, heap, SEG_SIZE, WORD);
    if !r.Granted? {
      return NoMemory(r), heap;
    }
    if mgr.Valid() && memBase + memSize <= MODULUS {
      NewIsApart(rs, memBase, memSize);
    }
    seg := mgr.SegCreateCritical(memBase, PADDING_NONE, memSize);
    if memBase + memSize > MODULUS {
      WrappedRange(rs, memBase, memSize);
    }
    return PoolCreated, seg;
  }

  lemma RangesAt(segs: seq<MemSeg>, i: nat)
    requires i < |segs|
    ensures RangesOf(segs)[i] == Range(segs[i].AddrBase, segs[i].AddrEnd)
  {
    if i != 0 { RangesAt(segs[1..], i - 1); }
  }

  lemma WrappedRange(rs: seq<Range>, base: nat, size: nat)
    requires NewOk(base, size) && base + size > MODULUS
    ensures !Disjoint([Range(base, NewEnd(base, size))] + rs)
  {
    var more := [Range(base, NewEnd(base, size))] + rs;
    WrapTurn(base + (size - 1) - MODULUS);
    assert !RangeOk(more[0]);
  }

  /** A range that wraps is taken for free although it covers part of an existing segment; a pool of 16 blocks of 4
      bytes is created there, and one of its blocks is the first word of that segment. */
  lemma WrappedRangeAccepted()
    ensures var (rs, heap, base, size) := ([Range(4, 99)], Seg(4096, 8191, 4096), 0xFFFF_FFF0, 0x40);
      && Disjoint(rs) && NewOk(base, size) && Shares(base, size, rs[0])
      && Scan(rs, base, NewEnd(base, size)) == NoOverlap
      && var p := PlaceOf(heap, NoOverlap, heap, true, base, size);
      && p == Place(Seg(4096, 8191, 4116), Seg(0xFFFF_FFF0, 0x2F, 0xFFFF_FFF0), false)
      && Carved(p, 16, 4, 4).err.PoolCreated?
      && BlkAt(Carved(p, 16, 4, 4).blks, BlkSizeAlign(4, 4), 5) == rs[0].first
  {
    hide AllocInternal, CeilTo, IsPow2, RoundIncUpPwr2;
    var heap := Seg(4096, 8191, 4096);
    WordAlign();
    assert ByteAt(0xFFFF_FFF0, 0x40, 0x14, 4) && InRange(Range(4, 99), 4);
    PlainGrant(heap, SEG_SIZE, WORD);
    CeilOfMultiple(4, 4);
    RoundWordExact(4, 4);
    PlainGrant(Seg(4096, 8191, 4116), WORD * 16, WORD);
    WrappedGrant();
  }

  lemma WrappedGrant()
    ensures AllocInternal(Seg(0xFFFF_FFF0, 0x2F, 0xFFFF_FFF0), 64, 4, PADDING_NONE)
         == (Seg(0xFFFF_FFF0, 0x2F, 0x30), Granted(0xFFFF_FFF0))
  {
    hide CeilTo, RoundIncUpPwr2;
    WordAlign();
    CeilOfMultiple(0xFFFF_FFF0, 4);
    RoundWordExact(0xFFFF_FFF0, 4);
    CeilOfMultiple(0x30, 1);
    RoundWordExact(0x30, 1);
  }

  lemma NewIsApart(rs: seq<Range>, base: nat, size: nat)
    requires Disjoint(rs) && NewOk(base, size) && base + size <= MODULUS && Scan(rs, base, NewEnd(base, size)).NoOverlap?
    ensures forall r | r in rs :: Apart(r, Range(base, base + size - 1))
  {
    ScanDecides(rs, base, size);
    forall r | r in rs
      ensures Apart(r, Range(base, base + size - 1))
    {
      OverlapTestExact(base, size, r);
    }
  }

  /** A table that lists every block is a pool with nothing held. */
  lemma FullTable(p: Pool)
    requires GeometryOk(p.geo) && |p.tbl| == p.geo.blkNbr == p.ix
    requires forall i: nat | i < p.ix :: p.tbl[i] == BlkAddr(p.geo, i)
    ensures Inv(p) && Held(p) == {}
  {
    hide BlkAddr, Blks, Entries;
    forall i: nat, j: nat | i < j < p.ix ensures p.tbl[i] != p.tbl[j] {
      BlkAddrInjective(p.geo, i, j);
    }
    HeldMembers(p);
  }

  // ----- MEM_POOL -----

  class MemPool {
    var PoolAddrStart: nat
    var PoolAddrEnd: nat
    var BlkNbr: nat
    var BlkSize: nat
    var BlkFreeTbl: array<nat>
    var BlkFreeTblIx: nat

    ghost function View(): Pool
      reads this, BlkFreeTbl
    {
      Pool(Geometry(PoolAddrStart, PoolAddrEnd, BlkNbr, BlkSize), BlkFreeTbl[..], BlkFreeTblIx)
    }

    /** Mem_PoolClr() */
    constructor ()
      ensures fresh(BlkFreeTbl) && View() == Pool(Geometry(0, 0, 0, 0), [], 0)
    {
      PoolAddrStart, PoolAddrEnd, BlkNbr, BlkSize := 0, 0, 0, 0;
      BlkFreeTbl, BlkFreeTblIx := new nat[0], 0;
    }

    /** What InitPool() leaves: entry i of the table is block i, in 32-bit arithmetic, and every block is free. */
    ghost predicate Filled(poolMem: nat, poolSize: nat, blkNbr: nat, c: nat)
      reads this, BlkFreeTbl
    {
      && View().geo == Geometry(poolMem, Wrap(poolMem + (poolSize - 1)), blkNbr, c)
      && BlkFreeTblIx == BlkFreeTbl.Length == blkNbr
      && forall i: nat | i < blkNbr :: BlkFreeTbl[i] == BlkAt(poolMem, c, i)
    }

    /** A pool created at the place p, with its blocks from poolMem on. If they have room in a sound segment, it is in its
        invariant with nothing held, and its blocks are aligned and inside the segment, whose range is home. */
    ghost predicate Built(p: Place, poolMem: nat, home: Range, blkNbr: nat, blkSize: nat, blkAlign: nat)
      requires 0 < blkAlign < MODULUS && blkSize < MODULUS
      reads this, BlkFreeTbl
    {
      && PoolAddrStart == poolMem
      && Filled(poolMem, Wrap(BlkSizeAlign(blkSize, blkAlign) * blkNbr), blkNbr, BlkSizeAlign(blkSize, blkAlign))
      && (PlaceOk(p) && RoomOk(p, blkNbr, blkSize, blkAlign) ==>
            && BlkFreeTblIx <= BlkFreeTbl.Length && Inv(View()) && Held(View()) == {}
            && BlkSize == CeilTo(blkSize, blkAlign) && PoolAddrStart % blkAlign == 0
            && home.first <= PoolAddrStart && PoolAddrEnd <= home.last)
    }

    /** Mem_PoolCreate(), on a pool that Mem_PoolClr() has just reset. */
    method PoolCreate(mgr: SegMgr, heap: MemSeg, memBase: nat, memSize: nat, blkNbr: nat, blkSize: nat, blkAlign: nat)
      returns (err: CreateErr, ghost home: MemSeg)
      requires mgr.Linked() && heap in mgr.Segs
      requires memBase < MODULUS && memSize < MODULUS
      requires blkNbr < MODULUS && blkSize < MODULUS && blkAlign < MODULUS
      modifies this, mgr, mgr.Segs`AddrNext
      ensures mgr.Linked() && home in mgr.Segs && Extends(mgr.Segs, old(mgr.Segs), home)
      ensures mgr.Segs != old(mgr.Segs) ==> fresh(home) && home.PaddingAlign == PADDING_NONE
      ensures !err.PoolCreated? ==> View().geo == old(View()).geo && BlkFreeTblIx == old(BlkFreeTblIx)
      ensures old(mgr.Valid()) ==> (mgr.Valid() <==> mgr.Segs == old(mgr.Segs) || memBase + memSize <= MODULUS)
      // the argument errors
      ensures err.BadSegSize? <==> memBase != 0 && memSize == 0
      ensures err.BadBlkNbr? <==> (memBase == 0 || memSize != 0) && blkNbr == 0
      ensures err.BadBlkSize? <==> (memBase == 0 || memSize != 0) && blkNbr != 0 && blkSize == 0
      ensures err.BadBlkAlign? <==> (memBase == 0 || memSize != 0) && blkNbr != 0 && blkSize != 0 && !IsPow2(blkAlign)
      ensures err.BadSegSize? || err.BadBlkNbr? || err.BadBlkSize? || err.BadBlkAlign? ==> mgr.Segs == old(mgr.Segs)
      // what the call means on a sound list
      ensures (!(err.BadSegSize? || err.BadBlkNbr? || err.BadBlkSize? || err.BadBlkAlign?)
               && old(mgr.Valid()) && (memBase == 0 || memBase + memSize <= MODULUS)) ==>
        var (rs, h) := (old(RangesOf(mgr.Segs)), old(heap.View()));
        && (err.BadSegOverlap? <==> Clashes(rs, memBase, memSize))
        && (IsNew(rs, memBase, memSize) && !DescFits(h) ==> err.NoMemory?)
        && ListRight(old(mgr.Segs), rs, h, mgr.Segs, heap, home, Range(home.AddrBase, home.AddrEnd), memBase, memSize)
        && (!Clashes(rs, memBase, memSize) && (IsNew(rs, memBase, memSize) ==> DescFits(h)) ==>
              && 0 < blkAlign
              && CreatedIffFits(if IsNew(rs, memBase, memSize) then Seg(memBase, memBase + memSize - 1, memBase) else old(home.View()),
                                heap.AddrEnd, if IsNew(rs, memBase, memSize) then DescEnd(h) else TrueNext(h), home == heap,
                                blkNbr, blkSize, blkAlign, err.PoolCreated?, if err.PoolCreated? then PoolAddrStart else 0))
      // what it does in 32-bit arithmetic, on any list
      ensures !(err.BadSegSize? || err.BadBlkNbr? || err.BadBlkSize? || err.BadBlkAlign?) ==>
        var v := old(VerdictOn(RangesOf(mgr.Segs), memBase, memSize));
        var found := old(FoundAt(mgr, heap, memBase, memSize));
        var p := old(PlaceAt(mgr, heap, memBase, memSize));
        && 0 < blkAlign
        && var o := Carved(p, blkNbr, blkSize, blkAlign);
        && heap.View() == o.heap
        && home.View() == o.home
        && err == o.err
        && (v.SegExists? ==> home == found)
        && (mgr.Segs != old(mgr.Segs) <==> memBase != 0 && v.NoOverlap? && p.Place?)
        && (err.PoolCreated? ==> PoolAddrStart == o.blks && Built(p, o.blks, Range(home.AddrBase, home.AddrEnd), blkNbr, blkSize, blkAlign))
    {
      hide CeilTo, IsPow2, Inv, Held, SegOk, Disjoint, Scan, RoomOk, Filled, DescFits, DescEnd, CreatedIffFits, TrueNext,
        RoundIncUpPwr2, AllocInternal, PlaceOf, Carved, Meets, Listed, Built;
      home := heap;
      err := CheckArgs(memBase, memSize, blkNbr, blkSize, blkAlign);
      if !err.PoolCreated? {
        return;
      }
      ghost var rs, h, before := RangesOf(mgr.Segs), heap.View(), mgr.Segs;
      ghost var found := Found(VerdictOn(rs, memBase, memSize), before, heap);
      if mgr.Valid() && (memBase == 0 || memBase + memSize <= MODULUS) {
        FoundSound(mgr, found);
        CreationMeans(h, rs, found.View(), found == heap, memBase, memSize, blkNbr, blkSize, blkAlign);
      }
      err, home := AllocPool(mgr, heap, memBase, memSize, blkNbr, blkSize, blkAlign);
    }

    /** Mem_PoolCreate() after its argument checks. */
    method AllocPool(mgr: SegMgr, heap: MemSeg, memBase: nat, memSize: nat, blkNbr: nat, blkSize: nat, blkAlign: nat)
      returns (err: CreateErr, ghost home: MemSeg)
      requires mgr.Linked() && heap in mgr.Segs
      requires memBase < MODULUS && memSize < MODULUS && (memBase != 0 ==> memSize != 0)
      requires 0 < blkAlign < MODULUS && IsPwr2(blkAlign) && 0 < blkNbr < MODULUS && 0 < blkSize < MODULUS
      modifies this, mgr, mgr.Segs`AddrNext
      ensures mgr.Linked() && home in mgr.Segs && Extends(mgr.Segs, old(mgr.Segs), home)
      ensures mgr.Segs != old(mgr.Segs) ==> fresh(home) && home.PaddingAlign == PADDING_NONE
      ensures !err.PoolCreated? ==> View().geo == old(View()).geo && BlkFreeTblIx == old(BlkFreeTblIx)
      ensures old(mgr.Valid()) ==> (mgr.Valid() <==> mgr.Segs == old(mgr.Segs) || memBase + memSize <= MODULUS)
      ensures err.PoolCreated? || err.NoMemory? || err.BadSegOverlap?
      ensures old(mgr.Valid()) && (memBase == 0 || memBase + memSize <= MODULUS) ==>
        ListRight(old(mgr.Segs), old(RangesOf(mgr.Segs)), old(heap.View()), mgr.Segs, heap, home,
                  Range(home.AddrBase, home.AddrEnd), memBase, memSize)
      ensures var v := old(VerdictOn(RangesOf(mgr.Segs), memBase, memSize));
        var found := old(FoundAt(mgr, heap, memBase, memSize));
        var p := old(PlaceAt(mgr, heap, memBase, memSize));
        && 0 < blkAlign
        && var o := Carved(p, blkNbr, blkSize, blkAlign);
        && heap.View() == o.heap
        && home.View() == o.home
        && err == o.err
        && (v.SegExists? ==> home == found)
        && (mgr.Segs != old(mgr.Segs) <==> memBase != 0 && v.NoOverlap? && p.Place?)
        && (err.PoolCreated? ==> PoolAddrStart == o.blks && Built(p, o.blks, Range(home.AddrBase, home.AddrEnd), blkNbr, blkSize, blkAlign))
    {
      hide CeilTo, RoundIncUpPwr2, IsPow2, Inv, Held, SegOk, Disjoint, AllocInternal, Scan, RoomOk, Filled, ListRight, Clashes,
        IsNew, DescFits, DescEnd, CreatedIffFits, TrueNext, Built;
      PwrIsAlign(blkAlign);
      var seg;
      err, seg := ChooseSeg(mgr, heap, memBase, memSize);
      home := seg;
      if !err.PoolCreated? {
        return;
      }
      err := CarvePool(mgr, heap, seg, blkNbr, blkSize, blkAlign);
    }

    lemma FoundSound(mgr: SegMgr, found: MemSeg)
      requires mgr.Valid() && found in mgr.Segs
      ensures SegOk(found.View())
    {}

    /** The argument checks of Mem_PoolCreate(). */
    method CheckArgs(memBase: nat, memSize: nat, blkNbr: nat, blkSize: nat, blkAlign: nat) returns (err: CreateErr)
      requires blkAlign < MODULUS
      ensures err.BadSegSize? <==> memBase != 0 && memSize == 0
      ensures err.BadBlkNbr? <==> (memBase == 0 || memSize != 0) && blkNbr == 0
      ensures err.BadBlkSize? <==> (memBase == 0 || memSize != 0) && blkNbr != 0 && blkSize == 0
      ensures err.BadBlkAlign? <==> (memBase == 0 || memSize != 0) && blkNbr != 0 && blkSize != 0 && !IsPow2(blkAlign)
      ensures err.PoolCreated? || err.BadSegSize? || err.BadBlkNbr? || err.BadBlkSize? || err.BadBlkAlign?
      ensures err.PoolCreated? ==> IsAlign(blkAlign) && IsPwr2(blkAlign)
    {
      if memBase != 0 && memSize < 1 {
        return BadSegSize;
      }
      if blkNbr < 1 {
        return BadBlkNbr;
      }
      if blkSize < 1 {
        return BadBlkSize;
      }
      if !IsPwr2(blkAlign) {
        return BadBlkAlign;
      }
      PwrIsAlign(blkAlign);
      return PoolCreated;
    }

    /** Middle part of Mem_PoolCreate(): the memory of the pool and of its table. */
    method CarvePool(mgr: SegMgr, heap: MemSeg, seg: MemSeg, blkNbr: nat, blkSize: nat, blkAlign: nat)
      returns (err: CreateErr)
      requires mgr.Linked() && heap in mgr.Segs && seg in mgr.Segs
      requires IsAlign(blkAlign) && 0 < blkNbr < MODULUS && 0 < blkSize < MODULUS
      modifies this, heap`AddrNext, seg`AddrNext
      ensures mgr.Linked() && (old(mgr.Valid()) ==> mgr.Valid())
      ensures err.PoolCreated? || err.NoMemory?
      ensures !err.PoolCreated? ==> View().geo == old(View()).geo && BlkFreeTblIx == old(BlkFreeTblIx)
      ensures old(mgr.Valid()) ==>
        CreatedIffFits(old(seg.View()), heap.AddrEnd, old(TrueNext(heap.View())), seg == heap,
                       blkNbr, blkSize, blkAlign, err.PoolCreated?, if err.PoolCreated? then PoolAddrStart else 0)
      ensures var p := Place(old(heap.View()), old(seg.View()), seg == heap);
        var o := Carved(p, blkNbr, blkSize, blkAlign);
        && heap.View() == o.heap
        && seg.View() == o.home
        && err == o.err
        && (err.PoolCreated? ==> PoolAddrStart == o.blks && Built(p, o.blks, Range(seg.AddrBase, seg.AddrEnd), blkNbr, blkSize, blkAlign))
    {
      hide CeilTo, RoundIncUpPwr2, IsPow2, Inv, Held, SegOk, Disjoint, AllocInternal, Scan, RoomOk, Filled, CreatedIffFits, TrueNext;
      ghost var p := Place(heap.View(), seg.View(), seg == heap);
      if mgr.Valid() {
        FitsExact(p, blkNbr, blkSize, blkAlign);
      }
      var blkSizeAlign := BlkSizeAlign(blkSize, blkAlign);
      var poolSize := Wrap(blkSizeAlign * blkNbr);
      var mem := PlainSegAlloc(mgr, seg, poolSize, blkAlign);
      if !mem.Granted? {
        return NoMemory(mem);
      }
      var tbl := PlainSegAlloc(mgr, heap, Wrap(WORD * blkNbr), WORD);
      if !tbl.Granted? {
        return NoMemory(tbl);
      }
      InitPool(mem.blk, poolSize, blkNbr, blkSizeAlign);
      if PlaceOk(p) && RoomOk(p, blkNbr, blkSize, blkAlign) {
        SoundStart(p, blkNbr, blkSize, blkAlign);
        StartsFull(mem.blk, poolSize, blkNbr, blkSizeAlign);
      }
      StartOf(mem.blk, poolSize, blkNbr, blkSizeAlign);
      return PoolCreated;
    }

    lemma StartOf(poolMem: nat, poolSize: nat, blkNbr: nat, c: nat)
      requires Filled(poolMem, poolSize, blkNbr, c)
      ensures PoolAddrStart == poolMem
    {}

    /** A pool whose blocks do not wrap starts in its invariant. */
    lemma StartsFull(poolMem: nat, poolSize: nat, blkNbr: nat, c: nat)
      requires Filled(poolMem, poolSize, blkNbr, c)
      requires 0 < poolMem && 0 < blkNbr && 0 < c && poolSize == c * blkNbr && poolMem + poolSize <= MODULUS
      ensures Inv(View()) && Held(View()) == {}
      ensures PoolAddrStart == poolMem && PoolAddrEnd == poolMem + poolSize - 1 && BlkSize == c
      ensures BlkFreeTblIx <= BlkFreeTbl.Length
    {
      hide Held, Inv, BlkAt;
      MulMonotone(1, blkNbr, c);
      assert blkNbr * c == c * blkNbr >= c;
      WrapTurn(poolMem + (poolSize - 1));
      forall i: nat | i < blkNbr
        ensures View().tbl[i] == BlkAddr(View().geo, i)
      {
        BlkAtExact(poolMem, c, i, blkNbr);
      }
      FullTable(View());
    }

    /** Last part of Mem_PoolCreate(): the block table and the pool data. */
    method InitPool(poolMem: nat, poolSize: nat, blkNbr: nat, blkSizeAlign: nat)
      requires poolMem < MODULUS && 0 < poolSize && blkSizeAlign < MODULUS
      modifies this
      ensures Filled(poolMem, poolSize, blkNbr, blkSizeAlign)
    {
      hide Wrap;
      BlkFreeTbl := new nat[blkNbr];
      var blk := poolMem;
      WrapTurn(poolMem);
      for blkIx := 0 to blkNbr
        invariant fresh(BlkFreeTbl) && BlkFreeTbl.Length == blkNbr
        invariant blk == BlkAt(poolMem, blkSizeAlign, blkIx)
        invariant forall i: nat | i < blkIx :: BlkFreeTbl[i] == BlkAt(poolMem, blkSizeAlign, i)
      {
        BlkFreeTbl[blkIx] := blk;
        WrapSum(poolMem + blkIx * blkSizeAlign, blkSizeAlign);
        assert poolMem + blkIx * blkSizeAlign + blkSizeAlign == poolMem + (blkIx + 1) * blkSizeAlign;
        blk := Wrap(blk + blkSizeAlign);
      }
      PoolAddrStart, PoolAddrEnd := poolMem, Wrap(poolMem + (poolSize - 1));
      BlkNbr, BlkSize, BlkFreeTblIx := blkNbr, blkSizeAlign, blkNbr;
    }

    method PoolBlkGet(size: nat) returns (r: GetResult)
      requires BlkFreeTblIx <= BlkFreeTbl.Length
      modifies this`BlkFreeTblIx, BlkFreeTbl
      ensures (View(), r) == BlkGet(old(View()), size)
    {
      if size < 1 {
        return GetInvalidBlkSize;
      }
      if size > BlkSize {
        return GetInvalidBlkSize;
      }
      var blk := 0;
      if BlkFreeTblIx > 0 {
        BlkFreeTblIx := BlkFreeTblIx - 1;
        blk := BlkFreeTbl[BlkFreeTblIx];
        BlkFreeTbl[BlkFreeTblIx] := 0;
      }
      if blk == 0 {
        return PoolEmpty;
      }
      return Got(blk);
    }

    method PoolBlkFree(blk: nat) returns (r: FreeResult)
      requires BlkSize > 0 && BlkFreeTbl.Length == BlkNbr
      modifies this`BlkFreeTblIx, BlkFreeTbl
      ensures (View(), r) == BlkFree(old(View()), blk)
    {
      if blk == 0 {
        return NullPtr;
      }
      if !BlkIsValidAddr(Geometry(PoolAddrStart, PoolAddrEnd, BlkNbr, BlkSize), blk) {
        return InvalidBlkAddr;
      }
      var tblIx := 0;
      while tblIx < BlkNbr
        invariant tblIx <= BlkNbr
        invariant forall i | 0 <= i < tblIx :: BlkFreeTbl[i] != blk
      {
        if BlkFreeTbl[tblIx] == blk {
          return InvalidBlkAddrInPool;
        }
        tblIx := tblIx + 1;
      }
      if BlkFreeTblIx >= BlkNbr {
        return PoolFull;
      }
      BlkFreeTbl[BlkFreeTblIx] := blk;
      BlkFreeTblIx := BlkFreeTblIx + 1;
      return Freed;
    }

    /** The count reported as available is the number of blocks nobody holds. */
    method PoolBlkGetNbrAvail() returns (n: nat)
      requires Inv(View())
      ensures n == |FreeBlks(View())| == BlkNbr - |Held(View())|
    {
      HeldMembers(View());
      n := BlkFreeTblIx;
    }
  }
}
