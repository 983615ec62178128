/** The global list of segments of lib_mem.c, which must never overlap. */
module SegmentList {
  import opened Bits
  import opened Rounding
  import opened Segments

  /** Addresses first..last, both included. */
  datatype Range = Range(first: nat, last: nat)

  /** Answer of Mem_SegOverlapChkCritical(), with the position of the segment it returns. */
  datatype Verdict = NoOverlap | SegExists(ix: nat) | SegOverlap(ix: nat)

  datatype CreateResult = Created | InvalidSegSize | InvalidMemAlign | InvalidSegExists | InvalidSegOverlap

  // ----- the code's test -----

  /** Last address of a new segment, in 32-bit arithmetic. */
  function NewEnd(base: nat, size: nat): nat {
    Wrap(base + (size - 1))
  }

  /** The four comparisons of the overlap test. */
  predicate OverlapTest(base: nat, end: nat, r: Range) {
    || (base >= r.first && base <= r.last)
    || (base <= r.first && end >= r.first)
  }

  /** The scan from the head of the list: the first segment that answers decides. */
  function Scan(rs: seq<Range>, base: nat, end: nat): Verdict
  {
    if rs == [] then NoOverlap
    else if base == rs[0].first && end == rs[0].last then SegExists(0)
    else if OverlapTest(base, end, rs[0]) then SegOverlap(0)
    else match Scan(rs[1..], base, end)
         case NoOverlap => NoOverlap
         case SegExists(i) => SegExists(i + 1)
         case SegOverlap(i) => SegOverlap(i + 1)
  }

  // ----- what it decides -----

  ghost predicate RangeOk(r: Range) { r.first <= r.last < MODULUS }

  /** The byte at a is one of the size bytes starting at base, going round the address space if need be. */
  ghost predicate Covers(base: nat, size: nat, a: nat) {
    exists k: nat :: ByteAt(base, size, k, a)
  }

  ghost predicate ByteAt(base: nat, size: nat, k: nat, a: nat) { k < size && a == Wrap(base + k) }

  ghost predicate Shares(base: nat, size: nat, r: Range) {
    exists a: nat :: InRange(r, a) && Covers(base, size, a)
  }

  predicate InRange(r: Range, a: nat) { r.first <= a <= r.last }

  ghost predicate NewOk(base: nat, size: nat) { base < MODULUS && 0 < size < MODULUS }

  /** For a range that does not wrap, sharing a byte is what the four comparisons test. */
  lemma OverlapTestExact(base: nat, size: nat, r: Range)
    requires NewOk(base, size) && base + size <= MODULUS && RangeOk(r)
    ensures OverlapTest(base, NewEnd(base, size), r) <==> Shares(base, size, r)
  {
    hide Wrap;
    WrapTurn(base + (size - 1));
    if OverlapTest(base, NewEnd(base, size), r) {
      var a := if base >= r.first then base else r.first;
      WrapTurn(a);
      assert ByteAt(base, size, a - base, a);
      assert InRange(r, a);
    }
    if Shares(base, size, r) {
      var a: nat :| InRange(r, a) && Covers(base, size, a);
      var k: nat :| ByteAt(base, size, k, a);
      WrapTurn(base + k);
    }
  }

  /** The test is right against every possible segment exactly when the new range does not wrap. */
  lemma OverlapTestIff(base: nat, size: nat)
    requires NewOk(base, size)
    ensures (forall r | RangeOk(r) :: OverlapTest(base, NewEnd(base, size), r) <==> Shares(base, size, r))
       <==> base + size <= MODULUS
  {
    if base + size <= MODULUS {
      forall r | RangeOk(r) ensures OverlapTest(base, NewEnd(base, size), r) <==> Shares(base, size, r) {
        OverlapTestExact(base, size, r);
      }
    } else {
      var r := Range(0, 0);
      assert ByteAt(base, size, MODULUS - base, 0);
      assert InRange(r, 0) && Shares(base, size, r);
      assert RangeOk(r) && !OverlapTest(base, NewEnd(base, size), r);
    }
  }

  ghost predicate Apart(r: Range, q: Range) { r.last < q.first || q.last < r.first }

  /** The segments on the list are proper ranges, no two of which meet. */
  ghost predicate Disjoint(rs: seq<Range>) {
    && (forall i | 0 <= i < |rs| :: RangeOk(rs[i]))
    && (forall i, j | 0 <= i < j < |rs| :: Apart(rs[i], rs[j]))
  }

  /** Position-free description of a verdict on a list that contains the segments rs. */
  ghost predicate Decides(v: Verdict, rs: seq<Range>, base: nat, size: nat)
    requires size > 0
  {
    match v
    case NoOverlap => forall r | r in rs :: !Shares(base, size, r)
    case SegExists(i) => i < |rs| && rs[i] == Range(base, base + size - 1)
    case SegOverlap(i) => i < |rs| && Shares(base, size, rs[i]) && Range(base, base + size - 1) !in rs
  }

  lemma {:induction false} ScanDecides(rs: seq<Range>, base: nat, size: nat)
    requires Disjoint(rs) && NewOk(base, size) && base + size <= MODULUS
    ensures Decides(Scan(rs, base, NewEnd(base, size)), rs, base, size)
  {
    if rs != [] {
      var rest := rs[1..];
      assert forall i | 0 <= i < |rest| :: rest[i] == rs[i + 1];
      ScanDecides(rest, base, size);
      OverlapTestExact(base, size, rs[0]);
    }
  }

  /** On any list "exists" names a segment of exactly the new range. */
  lemma {:induction false} ScanFinds(rs: seq<Range>, base: nat, end: nat)
    ensures var v := Scan(rs, base, end);
      !v.NoOverlap? ==> v.ix < |rs| && (v.SegExists? <==> rs[v.ix] == Range(base, end))
  {
    if rs != [] {
      ScanFinds(rs[1..], base, end);
    }
  }

  lemma SharesItself(base: nat, size: nat)
    requires NewOk(base, size)
    ensures Shares(base, size, Range(base, base + size - 1))
  {
    assert ByteAt(base, size, 0, base) && InRange(Range(base, base + size - 1), base);
  }

  /** On a disjoint list the verdict, and the segment it names when the range exists, ignore the order. */
  lemma VerdictIgnoresOrder(rs: seq<Range>, qs: seq<Range>, base: nat, size: nat)
    requires Disjoint(rs) && Disjoint(qs) && multiset(rs) == multiset(qs)
    requires NewOk(base, size) && base + size <= MODULUS
    ensures var v, u := Scan(rs, base, NewEnd(base, size)), Scan(qs, base, NewEnd(base, size));
      && v.NoOverlap? == u.NoOverlap? && v.SegOverlap? == u.SegOverlap?
      && (v.SegExists? ==> u.SegExists? && v.ix < |rs| && u.ix < |qs| && rs[v.ix] == qs[u.ix])
  {
    hide Disjoint, Scan, Shares;
    ScanDecides(rs, base, size);
    ScanDecides(qs, base, size);
    assert forall r :: r in rs <==> r in multiset(rs);
    assert forall r :: r in qs <==> r in multiset(qs);
    var v, u := Scan(rs, base, NewEnd(base, size)), Scan(qs, base, NewEnd(base, size));
    var r := Range(base, base + size - 1);
    SharesItself(base, size);
    if !v.NoOverlap? { assert rs[v.ix] in qs; }
    if !u.NoOverlap? { assert qs[u.ix] in rs; }
  }

  // ----- creation -----

  /** Mem_SegCreate() on the list of ranges, head first. */
  function CreateSeg(rs: seq<Range>, base: nat, size: nat, paddingAlign: nat): (seq<Range>, CreateResult)
  {
    if size < 1 then (rs, InvalidSegSize)
    else if NewEnd(base, size) < base then (rs, InvalidSegSize)
    else if paddingAlign != PADDING_NONE && !IsPwr2(paddingAlign) then (rs, CreateResult.InvalidMemAlign)
    else match Scan(rs, base, NewEnd(base, size))
         case SegExists(_) => (rs, InvalidSegExists)
         case SegOverlap(_) => (rs, InvalidSegOverlap)
         case NoOverlap => ([Range(base, NewEnd(base, size))] + rs, Created)
  }

  /** A segment is created exactly when its arguments are sound and it meets no segment on the list. */
  lemma CreateExact(rs: seq<Range>, base: nat, size: nat, paddingAlign: nat)
    requires Disjoint(rs) && base < MODULUS && size < MODULUS
    ensures CreateSeg(rs, base, size, paddingAlign).1.Created?
       <==> size > 0 && base + size <= MODULUS && IsPow2(paddingAlign) && forall r | r in rs :: !Shares(base, size, r)
    ensures var (rs', c) := CreateSeg(rs, base, size, paddingAlign);
      && Disjoint(rs')
      && rs' == if c.Created? then [Range(base, base + size - 1)] + rs else rs
  {
    assert Pow2(0) == 1;
    if size > 0 && base + size <= MODULUS {
      ScanDecides(rs, base, size);
      var v, r := Scan(rs, base, NewEnd(base, size)), Range(base, base + size - 1);
      SharesItself(base, size);
      if v.NoOverlap? {
        forall i | 0 <= i < |rs| ensures Apart(r, rs[i]) {
          assert rs[i] in rs;
          OverlapTestExact(base, size, rs[i]);
        }
      } else {
        assert rs[v.ix] in rs;
      }
    }
  }

  /** The new range shares an address with some segment. */
  ghost predicate Meets(rs: seq<Range>, base: nat, size: nat) { exists r | r in rs :: Shares(base, size, r) }

  /** Some segment is exactly the new range. */
  ghost predicate Listed(rs: seq<Range>, base: nat, size: nat) { size > 0 && Range(base, base + size - 1) in rs }

  /** Each answer of Mem_SegCreate() has its own condition, the checks being made in this order. */
  lemma CreateErrors(rs: seq<Range>, base: nat, size: nat, paddingAlign: nat)
    requires Disjoint(rs) && base < MODULUS && size < MODULUS
    ensures var (sizeOk, c) := (0 < size && base + size <= MODULUS, CreateSeg(rs, base, size, paddingAlign).1);
      && (c.InvalidSegSize? <==> !sizeOk)
      && (c.InvalidMemAlign? <==> sizeOk && !IsPow2(paddingAlign))
      && (c.InvalidSegExists? <==> sizeOk && IsPow2(paddingAlign) && Listed(rs, base, size))
      && (c.InvalidSegOverlap? <==> sizeOk && IsPow2(paddingAlign) && !Listed(rs, base, size) && Meets(rs, base, size))
      && (c.Created? <==> sizeOk && IsPow2(paddingAlign) && !Meets(rs, base, size))
  {
    hide Shares, Disjoint, Scan, IsPow2;
    NoPadding();
    if 0 < size && base + size <= MODULUS {
      EndExact(base, size);
      ScanMeans(rs, base, size);
    } else if 0 < size {
      EndExact(base, size);
    }
  }

  lemma NoPadding()
    ensures IsPow2(PADDING_NONE)
  {
    assert Pow2(0) == 1;
  }

  /** The end passes the base exactly when the range does not wrap. */
  lemma EndExact(base: nat, size: nat)
    requires NewOk(base, size)
    ensures NewEnd(base, size) >= base <==> base + size <= MODULUS
    ensures base + size <= MODULUS ==> NewEnd(base, size) == base + size - 1
  {}

  /** On a disjoint list the verdict says whether the range is listed, merely met, or free. */
  lemma ScanMeans(rs: seq<Range>, base: nat, size: nat)
    requires Disjoint(rs) && NewOk(base, size) && base + size <= MODULUS
    ensures var v := Scan(rs, base, NewEnd(base, size));
      && (v.SegExists? <==> Listed(rs, base, size))
      && (v.SegOverlap? <==> !Listed(rs, base, size) && Meets(rs, base, size))
      && (v.NoOverlap? <==> !Meets(rs, base, size))
      && (v.SegExists? ==> v.ix < |rs| && rs[v.ix] == Range(base, base + size - 1))
  {
    hide Shares, Disjoint, Scan;
    ScanDecides(rs, base, size);
    SharesItself(base, size);
    var v := Scan(rs, base, NewEnd(base, size));
    if !v.NoOverlap? { assert rs[v.ix] in rs; }
  }

  datatype CreateReq = CreateReq(base: nat, size: nat, paddingAlign: nat)

  function CreateAll(rs: seq<Range>, reqs: seq<CreateReq>): seq<Range>
    decreases |reqs|
  {
    if reqs == [] then rs
    else CreateAll(CreateSeg(rs, reqs[0].base, reqs[0].size, reqs[0].paddingAlign).0, reqs[1..])
  }

  /** Over any run of creations, sound or not, the segments stay pairwise disjoint and none is lost. */
  lemma {:induction false} CreateAllDisjoint(rs: seq<Range>, reqs: seq<CreateReq>)
    requires Disjoint(rs)
    requires forall q | q in reqs :: q.base < MODULUS && q.size < MODULUS
    ensures Disjoint(CreateAll(rs, reqs))
    ensures forall r | r in rs :: r in CreateAll(rs, reqs)
    decreases |reqs|
  {
    if reqs != [] {
      var q := reqs[0];
      assert q in reqs;
      CreateExact(rs, q.base, q.size, q.paddingAlign);
      CreateAllDisjoint(CreateSeg(rs, q.base, q.size, q.paddingAlign).0, reqs[1..]);
    }
  }

  lemma DisjointMore(rs: seq<Range>, r: Range)
    requires Disjoint(rs)
    ensures Disjoint([r] + rs) <==> RangeOk(r) && forall q | q in rs :: Apart(q, r)
  {
    var more := [r] + rs;
    if Disjoint(more) {
      assert RangeOk(more[0]);
      forall q | q in rs ensures Apart(q, r) {
        var i :| 0 <= i < |rs| && rs[i] == q;
        assert Apart(more[0], more[i + 1]);
      }
    }
    if RangeOk(r) && forall q | q in rs :: Apart(q, r) {
      forall i | 0 <= i < |more| ensures RangeOk(more[i]) {
        if i > 0 { assert more[i] == rs[i - 1]; }
      }
      forall i, j | 0 <= i < j < |more| ensures Apart(more[i], more[j]) {
        assert more[j] == rs[j - 1] && more[j] in rs;
        if i > 0 { assert more[i] == rs[i - 1]; }
      }
    }
  }

  // ----- Mem_SegHeadPtr -----

  /** Following NextPtr from p visits segs and then ends. */
  ghost predicate Chain(p: MemSeg?, segs: seq<MemSeg>)
    reads segs`NextPtr
  {
    if segs == [] then p == null
    else p == segs[0] && Chain(segs[0].NextPtr, segs[1..])
  }

  ghost function RangesOf(segs: seq<MemSeg>): (rs: seq<Range>)
    reads segs`AddrBase, segs`AddrEnd
    ensures |rs| == |segs|
  {
    if segs == [] then [] else [Range(segs[0].AddrBase, segs[0].AddrEnd)] + RangesOf(segs[1..])
  }

  class SegMgr {
    var SegHeadPtr: MemSeg?
    ghost var Segs: seq<MemSeg>

    /** The list hanging off SegHeadPtr is Segs, null-terminated. */
    ghost predicate Linked()
      reads this, Segs
    {
      Chain(SegHeadPtr, Segs) && forall s | s in Segs :: s.Words()
    }

    /** Moreover its segments are sound and disjoint. */
    ghost predicate Valid()
      reads this, Segs
    {
      Linked() && Disjoint(RangesOf(Segs)) && forall s | s in Segs :: s.Valid()
    }

    /** The part of Mem_Init() that concerns the list. */
    constructor ()
      ensures Valid() && Segs == []
    {
      SegHeadPtr, Segs := null, [];
    }

    method SegOverlapChkCritical(base: nat, size: nat) returns (v: Verdict, seg: MemSeg?)
      requires Linked() && NewOk(base, size)
      ensures v == Scan(RangesOf(Segs), base, NewEnd(base, size))
      ensures if v.NoOverlap? then seg == null else v.ix < |Segs| && seg == Segs[v.ix]
    {
      var newEnd := NewEnd(base, size);
      seg := SegHeadPtr;
      ghost var rest := Segs;
      var n: nat := 0;
      while seg != null
        invariant Chain(seg, rest)
        invariant n <= |Segs| && rest == Segs[n..]
        invariant Scan(RangesOf(Segs), base, newEnd) == Later(n, Scan(RangesOf(rest), base, newEnd))
        decreases |rest|
      {
        assert RangesOf(rest)[1..] == RangesOf(rest[1..]);
        if base == seg.AddrBase && newEnd == seg.AddrEnd {
          return SegExists(n), seg;
        } else if || (base >= seg.AddrBase && base <= seg.AddrEnd)
                  || (base <= seg.AddrBase && newEnd >= seg.AddrBase) {
          return SegOverlap(n), seg;
        }
        seg := seg.NextPtr;
        rest, n := rest[1..], n + 1;
      }
      return NoOverlap, null;
    }

    /** A new node in front of the list. Its range is not checked: only if it does not wrap and meets no segment does
        the list stay sound. */
    method SegCreateCritical(base: nat, paddingAlign: nat, size: nat) returns (seg: MemSeg)
      requires Linked() && NewOk(base, size) && IsAlign(paddingAlign)
      modifies this
      ensures Linked() && fresh(seg) && Segs == [seg] + old(Segs)
      ensures RangesOf(Segs) == [Range(base, NewEnd(base, size))] + old(RangesOf(Segs))
      ensures seg.View() == Seg(base, NewEnd(base, size), base) && seg.PaddingAlign == paddingAlign
      ensures old(Valid()) ==> (Valid() <==> base + size <= MODULUS && forall r | r in old(RangesOf(Segs)) :: Apart(r, Range(base, base + size - 1)))
    {
      hide Disjoint, SegOk, IsPow2;
      ghost var segs := Segs;
      seg := new MemSeg(base, paddingAlign, size, SegHeadPtr);
      SegHeadPtr := seg;
      Segs := [seg] + segs;
      assert Segs[1..] == segs;
      if old(Valid()) {
        DisjointMore(old(RangesOf(Segs)), Range(base, NewEnd(base, size)));
        assert seg in Segs && forall s | s in segs :: s in Segs;
      }
    }

    method SegCreate(base: nat, size: nat, paddingAlign: nat) returns (r: CreateResult)
      requires Linked() && base < MODULUS && size < MODULUS && paddingAlign < MODULUS
      modifies this
      ensures Linked() && (old(Valid()) ==> Valid())
      ensures (RangesOf(Segs), r) == CreateSeg(old(RangesOf(Segs)), base, size, paddingAlign)
      ensures if r.Created? then |Segs| > 0 && fresh(Segs[0]) && Segs[1..] == old(Segs) else Segs == old(Segs)
      ensures r.Created? ==> Segs[0].View() == Seg(base, base + size - 1, base) && Segs[0].PaddingAlign == paddingAlign
    {
      if Valid() {
        CreateExact(RangesOf(Segs), base, size, paddingAlign);
        DisjointMore(RangesOf(Segs), Range(base, NewEnd(base, size)));
      }
      if size < 1 {
        return InvalidSegSize;
      }
      if NewEnd(base, size) < base {
        return InvalidSegSize;
      }
      if paddingAlign != PADDING_NONE && !IsPwr2(paddingAlign) {
        return CreateResult.InvalidMemAlign;
      }
      assert Pow2(0) == 1;
      var v, _ := SegOverlapChkCritical(base, size);
      match v
      case SegExists(_) => return InvalidSegExists;
      case SegOverlap(_) => return InvalidSegOverlap;
      case NoOverlap =>
        var _ := SegCreateCritical(base, paddingAlign, size);
        return Created;
    }
  }

  /** A verdict on the rest of the list, read as a verdict on the whole list. */
  ghost function Later(i: nat, v: Verdict): Verdict {
    match v
    case NoOverlap => NoOverlap
    case SegExists(k) => SegExists(i + k)
    case SegOverlap(k) => SegOverlap(i + k)
  }
}
