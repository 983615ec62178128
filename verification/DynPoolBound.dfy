/** How many blocks the interleaved calls of a limited dynamic pool can carve. */
module DynPoolBound {
  import opened Bits
  import opened Rounding
  import opened Segments
  import opened DynPool
  import opened DynPoolCalls

  /** The segment grants k more blocks, one after the other. */
  ghost predicate Room(c: Conf, g: Seg, k: nat)
    requires g.next < MODULUS && c.blkAlign < MODULUS && 0 < c.blkPad < MODULUS
    decreases k
  {
    k == 0 ||
    var (g', r) := AllocInternal(g, c.blkSize, c.blkAlign, c.blkPad);
    r.Granted? && Room(c, g', k - 1)
  }

  /** So it does when that many blocks fit with their gaps and paddings. */
  lemma {:induction false} RoomBySize(c: Conf, g: Seg, k: nat)
    requires ConfOk(c) && c.blkAlign < MODULUS && SegOk(g) && g.next < MODULUS
    requires TrueNext(g) + k * (c.blkSize + c.blkAlign + c.blkPad) <= g.end + 1
    ensures Room(c, g, k)
    decreases k
  {
    hide AllocInternal, SegOk, TrueNext, IsPow2;
    if k > 0 {
      OneLess(k, c.blkSize + c.blkAlign + c.blkPad);
      OneFits(c, g);
      RoomBySize(c, AllocInternal(g, c.blkSize, c.blkAlign, c.blkPad).0, k - 1);
    }
  }

  lemma OneLess(k: nat, unit: nat)
    requires k > 0
    ensures k * unit == (k - 1) * unit + unit >= unit
  {}

  lemma OneFits(c: Conf, g: Seg)
    requires ConfOk(c) && SegOk(g) && TrueNext(g) + c.blkSize + c.blkAlign + c.blkPad <= g.end + 1
    ensures c.blkAlign < MODULUS
    ensures var (g', r) := AllocInternal(g, c.blkSize, c.blkAlign, c.blkPad);
      && r.Granted? && SegOk(g') && g'.next < MODULUS && g'.end == g.end && TrueNext(g') <= TrueNext(g) + c.blkSize + c.blkAlign + c.blkPad
  {
    hide AllocCritical, CeilTo, IsPow2, IsPwr2;
    TotalBound(g, c.blkSize, c.blkAlign, c.blkPad);
    AllocExact(g, c.blkSize, c.blkAlign, c.blkPad);
  }

  // ----- handing out everything -----

  /** Nothing is reserved and no growth has failed. */
  ghost predicate Settled(s: Sys) {
    s.failed == 0 && forall t | t in s.pc :: s.pc[t] == Idle || s.pc[t].InTransit?
  }

  /** The counters of a settled pool. */
  lemma SettledCounts(c: Conf, s: Sys)
    requires Inv(c, s) && Limited(c) && Settled(s)
    ensures s.sh.allocCnt == |HeldBlks(s.own)| <= c.qtyMax
    ensures |s.own| == |s.free| + s.sh.allocCnt + |TransitTasks(s.pc)|
    ensures s.sh.seg.next < MODULUS && c.blkAlign < MODULUS && 0 < c.blkPad < MODULUS
  {
    hide Layout, Links, Ownership;
    InBounds(c, s);
    assert Reserving(s.pc) == {};
  }

  /** An uninterrupted get of a settled pool that is not all handed out: from the free list, or by growing. */
  lemma GetOne(c: Conf, s: Sys, u: nat, k: nat) returns (acts: seq<Act>)
    requires Inv(c, s) && Limited(c) && Settled(s) && u in s.pc && s.pc[u] == Idle && s.sh.allocCnt < c.qtyMax
    requires s.sh.seg.next < MODULUS && c.blkAlign < MODULUS && 0 < c.blkPad < MODULUS
    requires Room(c, s.sh.seg, if s.free == [] then k + 1 else k)
    ensures DynPool.LegalRun(c, s, acts)
    ensures var q := DynPool.Run(c, s, acts);
      && Inv(c, q) && Settled(q) && q.pc == s.pc && q.sh.allocCnt == s.sh.allocCnt + 1
      && q.free == (if s.free == [] then [] else s.free[1..])
      && q.sh.seg.next < MODULUS && Room(c, q.sh.seg, k)
  {
    hide Inv, AllocInternal;
    acts := GetIsRun(c, s, u);
    RunInv(c, s, acts);
    GetSucceeds(c, s);
  }

  lemma GetSucceeds(c: Conf, s: Sys)
    requires Inv(c, s) && Limited(c) && s.sh.allocCnt < c.qtyMax
    requires s.sh.seg.next < MODULUS && c.blkAlign < MODULUS && 0 < c.blkPad < MODULUS
    requires s.free == [] ==> AllocInternal(s.sh.seg, c.blkSize, c.blkAlign, c.blkPad).1.Granted?
    ensures Usable(c, s.sh)
    ensures var (sh, r) := BlkGet(c, s.sh);
      && r.Got? && sh.allocCnt == s.sh.allocCnt + 1
      && sh.seg == if s.free == [] then AllocInternal(s.sh.seg, c.blkSize, c.blkAlign, c.blkPad).0 else s.sh.seg
  {
    hide AllocInternal, Layout, Links, Ownership, Counts;
    InBounds(c, s);
  }

  /** One task takes blocks until all are handed out; the segment still has room for k more. */
  lemma {:induction false} Fill(c: Conf, s: Sys, u: nat, k: nat) returns (acts: seq<Act>)
    requires Inv(c, s) && Limited(c) && s.failed == 0 && AllIdle(s.pc) && u in s.pc && |s.own| <= c.qtyMax
    requires s.sh.seg.next < MODULUS && c.blkAlign < MODULUS && 0 < c.blkPad < MODULUS
    requires Room(c, s.sh.seg, c.qtyMax - |s.own| + k)
    ensures DynPool.LegalRun(c, s, acts)
    ensures var q := DynPool.Run(c, s, acts);
      && Inv(c, q) && Settled(q) && q.pc == s.pc && q.sh.allocCnt == c.qtyMax && q.free == []
      && q.sh.seg.next < MODULUS && Room(c, q.sh.seg, k)
    decreases c.qtyMax - s.sh.allocCnt
  {
    hide Inv, AllocInternal, Room;
    SettledCounts(c, s);
    assert TransitTasks(s.pc) == {};
    if s.sh.allocCnt == c.qtyMax {
      acts := [];
    } else {
      var more := c.qtyMax - |s.own| + k;
      var first := GetOne(c, s, u, if s.free == [] then more - 1 else more);
      var q := DynPool.Run(c, s, first);
      SettledCounts(c, q);
      var rest := Fill(c, q, u, k);
      RunAppend(c, s, first, rest);
      acts := first + rest;
    }
  }

  // ----- overtaking -----

  ghost function IdleOthers(pc: map<nat, Pc>, u: nat): set<nat> {
    set t | t in pc && t != u && pc[t] == Idle
  }

  /** A block is given back by t, which is interrupted before it reaches the free list. */
  lemma ReleaseOne(c: Conf, s: Sys, t: nat, u: nat, b: nat)
    requires Inv(c, s) && Limited(c) && Settled(s) && t in s.pc && u in s.pc && t != u
    requires s.pc[t] == Idle && s.pc[u] == Idle && b in s.own && s.own[b].HeldBy? && 0 < s.sh.allocCnt
    ensures Enabled(c, s, DoRelease(t, b))
    ensures var q := Next(c, s, DoRelease(t, b));
      && Inv(c, q) && Settled(q) && q.pc == s.pc[t := InTransit(b)] && q.free == s.free
      && q.sh.allocCnt == s.sh.allocCnt - 1 && q.sh.seg == s.sh.seg
  {
    hide AllocInternal, Layout, Links, Ownership, Counts;
    NextInv(c, s, DoRelease(t, b));
  }

  /** All blocks are handed out and u has nothing to do. */
  ghost predicate AllOut(c: Conf, s: Sys, u: nat) {
    && Inv(c, s) && Limited(c) && Settled(s) && u in s.pc && s.pc[u] == Idle
    && s.sh.allocCnt == c.qtyMax && s.free == []
    && s.sh.seg.next < MODULUS && c.blkAlign < MODULUS && 0 < c.blkPad < MODULUS
  }

  /** Every other task in turn gives back a block and is overtaken by u, which finds the list still empty. */
  lemma {:induction false} OvertakeAll(c: Conf, s: Sys, u: nat) returns (acts: seq<Act>)
    requires AllOut(c, s, u) && Room(c, s.sh.seg, |IdleOthers(s.pc, u)|)
    ensures DynPool.LegalRun(c, s, acts)
    ensures var q := DynPool.Run(c, s, acts);
      AllOut(c, q, u) && IdleOthers(q.pc, u) == {} && q.pc.Keys == s.pc.Keys
    decreases |IdleOthers(s.pc, u)|
  {
    hide Inv, AllocInternal, Room, Enabled, Next;
    if IdleOthers(s.pc, u) == {} {
      acts := [];
    } else {
      var t :| t in IdleOthers(s.pc, u);
      SettledCounts(c, s);
      var b :| b in HeldBlks(s.own);
      ReleaseOne(c, s, t, u, b);
      var a := DoRelease(t, b);
      var s1 := Next(c, s, a);
      assert IdleOthers(s1.pc, u) == IdleOthers(s.pc, u) - {t};
      var first := GetOne(c, s1, u, |IdleOthers(s1.pc, u)|);
      RunCons(c, s, a, first);
      var q := DynPool.Run(c, s, [a] + first);
      var rest := OvertakeAll(c, q, u);
      RunAppend(c, s, [a] + first, rest);
      acts := ([a] + first) + rest;
    }
  }

  // ----- the exact bound -----

  /** A pool in use by N idle tasks, no growth having failed, with no more than its maximum carved and room in its
      segment for that maximum and N - 1 blocks more. */
  ghost predicate Roomy(c: Conf, s: Sys) {
    && Inv(c, s) && Limited(c) && s.failed == 0 && AllIdle(s.pc) && |s.pc| > 0 && |s.own| <= c.qtyMax
    && s.sh.seg.next < MODULUS && c.blkAlign < MODULUS && 0 < c.blkPad < MODULUS
    && Room(c, s.sh.seg, c.qtyMax - |s.own| + |s.pc| - 1)
  }

  /** The bound of Quantities is reached for every number N of tasks: there is a run after which N - 1 blocks more than
      the maximum have been carved. */
  lemma BoundIsReached(c: Conf, s: Sys) returns (acts: seq<Act>)
    requires Roomy(c, s)
    ensures DynPool.LegalRun(c, s, acts) && |DynPool.Run(c, s, acts).own| == c.qtyMax + |s.pc| - 1
  {
    hide Inv, Room, AllocInternal, Enabled, Next;
    assert |s.pc.Keys| == |s.pc|;
    var u :| u in s.pc.Keys;
    var first := Fill(c, s, u, |s.pc| - 1);
    var q := DynPool.Run(c, s, first);
    assert IdleOthers(q.pc, u) == s.pc.Keys - {u};
    var rest := OvertakeAll(c, q, u);
    RunAppend(c, s, first, rest);
    acts := first + rest;
    var z := DynPool.Run(c, s, acts);
    SettledCounts(c, z);
    assert TransitTasks(z.pc) == s.pc.Keys - {u} by {
      assert forall t | t in z.pc && t != u :: t !in IdleOthers(z.pc, u);
    }
  }

  /** No run carves more blocks than the maximum. */
  ghost predicate NeverOver(c: Conf, s: Sys)
    requires Inv(c, s)
  {
    forall acts | DynPool.LegalRun(c, s, acts) :: |DynPool.Run(c, s, acts).own| <= c.qtyMax
  }

  /** A limited pool keeps to its maximum on all runs if and only if a single task uses it. */
  lemma NeverOverIff(c: Conf, s: Sys)
    requires Roomy(c, s)
    ensures NeverOver(c, s) <==> |s.pc| == 1
  {
    hide Inv, Room;
    if |s.pc| == 1 {
      forall acts | DynPool.LegalRun(c, s, acts)
        ensures |DynPool.Run(c, s, acts).own| <= c.qtyMax
      {
        RunInv(c, s, acts);
        var q := DynPool.Run(c, s, acts);
        assert |q.pc.Keys| == |q.pc| && |s.pc.Keys| == |s.pc|;
        Quantities(c, q);
      }
    } else {
      var acts := BoundIsReached(c, s);
    }
  }

  /** In particular from the state creation leaves, for any number of tasks. */
  lemma CreatedBoundIff(c: Conf, sh: Shared, pc: map<nat, Pc>, blks: seq<nat>)
    requires StartsSound(c, sh, blks) && Limited(c) && |pc| > 0 && AllIdle(pc)
    requires |blks| <= c.qtyMax && sh.seg.next < MODULUS && c.blkAlign < MODULUS && 0 < c.blkPad < MODULUS
    requires Room(c, sh.seg, c.qtyMax - |blks| + |pc| - 1)
    ensures var s := Fresh(sh, pc, blks);
      && Inv(c, s) && (NeverOver(c, s) <==> |pc| == 1)
      && exists acts | DynPool.LegalRun(c, s, acts) :: |DynPool.Run(c, s, acts).own| == c.qtyMax + |pc| - 1
  {
    hide Inv, Room, NeverOver, AllocInternal;
    var s := Fresh(sh, pc, blks);
    FreshSize(c, sh, pc, blks);
    NeverOverIff(c, s);
    var acts := BoundIsReached(c, s);
  }

  lemma FreshSize(c: Conf, sh: Shared, pc: map<nat, Pc>, blks: seq<nat>)
    requires Inv(c, Fresh(sh, pc, blks))
    ensures |Fresh(sh, pc, blks).own| == |blks|
  {
    hide Layout, Links, Counts;
    var own := Fresh(sh, pc, blks).own;
    assert own.Keys == Elems(blks) && |own| == |own.Keys|;
    DistinctCount(blks);
  }
}
