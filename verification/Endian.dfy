/** The octet-reversing copy of lib_mem.h on a little-endian processor, for values of any size. */
module Endian {
  import opened Rounding
  import opened ByteMemory

  // ----- the value of a buffer -----

  /** The value of octets stored least significant first. */
  function LittleValue(bs: seq<byte>): nat {
    if bs == [] then 0 else bs[0] as int + 256 * LittleValue(bs[1..])
  }

  /** The value of octets stored most significant first. */
  function BigValue(bs: seq<byte>): nat {
    if bs == [] then 0 else 256 * BigValue(bs[..|bs| - 1]) + bs[|bs| - 1] as int
  }

  function Reversed(bs: seq<byte>): seq<byte> {
    if bs == [] then [] else [bs[|bs| - 1]] + Reversed(bs[..|bs| - 1])
  }

  lemma {:induction false} ReversedAt(bs: seq<byte>)
    ensures |Reversed(bs)| == |bs|
    ensures forall k: nat | k < |bs| :: Reversed(bs)[k] == bs[|bs| - 1 - k]
  {
    if bs != [] {
      ReversedAt(bs[..|bs| - 1]);
    }
  }

  /** Reversing the octets turns a big-endian value into the little-endian one. */
  lemma {:induction false} ReversedValue(bs: seq<byte>)
    ensures LittleValue(Reversed(bs)) == BigValue(bs)
  {
    if bs != [] {
      var rest := bs[..|bs| - 1];
      ReversedValue(rest);
      assert Reversed(bs)[1..] == Reversed(rest);
    }
  }

  lemma ReversedTwice(bs: seq<byte>)
    ensures Reversed(Reversed(bs)) == bs
  {
    ReversedAt(bs);
    ReversedAt(Reversed(bs));
  }

  // ----- the copy -----

  /** Memory after the first i rounds of copying n octets of src backwards to dest. */
  function RevCopy(m: seq<byte>, dest: nat, src: nat, n: nat, i: nat): (r: seq<byte>)
    requires dest + n <= |m| && src + n <= |m| && i <= n
    ensures |r| == |m|
    decreases i
  {
    if i == 0 then m
    else
      var p := RevCopy(m, dest, src, n, i - 1);
      p[dest + (i - 1) := p[src + (n - i)]]
  }

  /** dest holds the octets of src in reverse and nothing else changed. */
  ghost predicate IsReversedCopy(m: seq<byte>, m': seq<byte>, dest: nat, src: nat, n: nat)
    requires dest + n <= |m| && src + n <= |m|
  {
    && |m'| == |m|
    && m'[dest..dest + n] == Reversed(m[src..src + n])
    && m'[..dest] == m[..dest] && m'[dest + n..] == m[dest + n..]
  }

  /** The buffers share at most one octet, or are that small. */
  ghost predicate BarelyOverlap(dest: nat, src: nat, n: nat) {
    dest + n <= src + 1 || src + n <= dest + 1
  }

  /** A loop round writes one octet of dest. */
  lemma {:induction false} RevCopyFrame(m: seq<byte>, dest: nat, src: nat, n: nat, i: nat, x: nat)
    requires dest + n <= |m| && src + n <= |m| && i <= n && x < |m|
    requires x < dest || dest + i <= x
    ensures RevCopy(m, dest, src, n, i)[x] == m[x]
  {
    if i != 0 {
      RevCopyFrame(m, dest, src, n, i - 1, x);
    }
  }

  lemma {:induction false} RevCopyKeeps(m: seq<byte>, dest: nat, src: nat, n: nat, i: nat, i': nat, x: nat)
    requires dest + n <= |m| && src + n <= |m| && i <= i' <= n
    requires dest <= x < dest + i
    ensures RevCopy(m, dest, src, n, i')[x] == RevCopy(m, dest, src, n, i)[x]
    decreases i'
  {
    if i < i' {
      RevCopyKeeps(m, dest, src, n, i, i' - 1, x);
    }
  }

  /** Every octet of dest ends as its mirror image in src. */
  lemma {:induction false} RevCopyAt(m: seq<byte>, dest: nat, src: nat, n: nat, i: nat)
    requires dest + n <= |m| && src + n <= |m| && i < n && BarelyOverlap(dest, src, n)
    ensures RevCopy(m, dest, src, n, n)[dest + i] == m[src + (n - 1 - i)]
  {
    hide RevCopy;
    RevCopyFrame(m, dest, src, n, i, src + (n - 1 - i));
    RoundWrites(m, dest, src, n, i);
    RevCopyKeeps(m, dest, src, n, i + 1, n, dest + i);
  }

  /** What one round writes. */
  lemma RoundWrites(m: seq<byte>, dest: nat, src: nat, n: nat, i: nat)
    requires dest + n <= |m| && src + n <= |m| && i < n
    ensures RevCopy(m, dest, src, n, i + 1)[dest + i] == RevCopy(m, dest, src, n, i)[src + (n - 1 - i)]
  {}

  lemma CopyReverses(m: seq<byte>, dest: nat, src: nat, n: nat)
    requires dest + n <= |m| && src + n <= |m| && BarelyOverlap(dest, src, n)
    ensures IsReversedCopy(m, RevCopy(m, dest, src, n, n), dest, src, n)
  {
    hide RevCopy, Reversed;
    var m', was := RevCopy(m, dest, src, n, n), m[src..src + n];
    ReversedAt(was);
    forall i: nat | i < n
      ensures m'[dest..dest + n][i] == Reversed(was)[i]
    {
      RevCopyAt(m, dest, src, n, i);
    }
    forall x: nat | x < |m| && (x < dest || dest + n <= x)
      ensures m'[x] == m[x]
    {
      RevCopyFrame(m, dest, src, n, n, x);
    }
  }

  /** Memory of size len that holds a single 1, at address x. */
  function OneAt(len: nat, x: nat): seq<byte>
    requires x < len
  {
    seq(len, k => if k == x then 1 else 0)
  }

  /** Buffers that share two octets or more: an octet is overwritten before it is read. */
  lemma OverlapLoses(len: nat, dest: nat, src: nat, n: nat)
    requires dest + n <= len && src + n <= len && !BarelyOverlap(dest, src, n)
    ensures exists m: seq<byte> | |m| == len :: !IsReversedCopy(m, RevCopy(m, dest, src, n, n), dest, src, n)
  {
    hide RevCopy, Reversed;
    // In round i the loop reads the octet it wrote in round j, which came from address x.
    var i: nat := if dest >= src then n - 1 - (dest - src) else n - 1;
    var j: nat := if dest >= src then 0 else src - dest;
    var x := src + (n - 1 - j);
    var m := OneAt(len, x);
    var m' := RevCopy(m, dest, src, n, n);
    assert m'[dest + i] == 1 by {
      RevCopyFrame(m, dest, src, n, j, x);
      RoundWrites(m, dest, src, n, j);
      RevCopyKeeps(m, dest, src, n, j + 1, i, dest + j);
      RoundWrites(m, dest, src, n, i);
      RevCopyKeeps(m, dest, src, n, i + 1, n, dest + i);
    }
    ReversedAt(m[src..src + n]);
    assert m'[dest..dest + n][i] == 1 && Reversed(m[src..src + n])[i] == 0;
    assert !IsReversedCopy(m, m', dest, src, n);
  }

  ghost predicate AlwaysReverses(len: nat, dest: nat, src: nat, n: nat)
    requires dest + n <= len && src + n <= len
  {
    forall m: seq<byte> | |m| == len :: IsReversedCopy(m, RevCopy(m, dest, src, n, n), dest, src, n)
  }

  /** The copy reverses whatever the memory holds if and only if the buffers share at most one octet. */
  lemma CopyReversesIff(len: nat, dest: nat, src: nat, n: nat)
    requires dest + n <= len && src + n <= len
    ensures AlwaysReverses(len, dest, src, n) <==> BarelyOverlap(dest, src, n)
  {
    if BarelyOverlap(dest, src, n) {
      forall m: seq<byte> | |m| == len
        ensures IsReversedCopy(m, RevCopy(m, dest, src, n, n), dest, src, n)
      {
        CopyReverses(m, dest, src, n);
      }
    } else {
      OverlapLoses(len, dest, src, n);
    }
  }

  /** For disjoint buffers of any size the little-endian value of dest is the big-endian value of src, and
      copying on to a third buffer restores the octets of src. */
  lemma CopyDecodes(m: seq<byte>, dest: nat, src: nat, third: nat, n: nat)
    requires dest + n <= |m| && src + n <= |m| && third + n <= |m|
    requires BarelyOverlap(dest, src, n) && BarelyOverlap(third, dest, n)
    ensures var m1 := RevCopy(m, dest, src, n, n); var m2 := RevCopy(m1, third, dest, n, n);
      && Decodes(m, m1, dest, src, n)
      && m2[third..third + n] == m[src..src + n]
  {
    CopyReverses(m, dest, src, n);
    CopyReverses(RevCopy(m, dest, src, n, n), third, dest, n);
    ReversedValue(m[src..src + n]);
    ReversedTwice(m[src..src + n]);
  }

  /** The little-endian value of dest is the big-endian value of src. */
  ghost predicate Decodes(m: seq<byte>, m': seq<byte>, dest: nat, src: nat, n: nat)
    requires dest + n <= |m| == |m'| && src + n <= |m|
  {
    LittleValue(m'[dest..dest + n]) == BigValue(m[src..src + n])
  }

  /** MEM_VAL_COPY_GET_INTU_BIG(). The index j wraps when it passes 0: at the start for a value of no octets,
      at the end for every other. */
  method CopyGetIntuBig(m: array<byte>, dest: nat, src: nat, valSize: nat)
    requires m.Length <= MODULUS && valSize < MODULUS
    requires dest + valSize <= m.Length && src + valSize <= m.Length
    modifies m
    ensures m[..] == RevCopy(old(m[..]), dest, src, valSize, valSize)
    ensures BarelyOverlap(dest, src, valSize) ==> Decodes(old(m[..]), m[..], dest, src, valSize)
  {
    hide Reversed, LittleValue, BigValue;
    var i: nat, j: nat := 0, Wrap(valSize - 1);
    while i < valSize
      invariant i <= valSize
      invariant j == Wrap(valSize - 1 - i)
      invariant m[..] == RevCopy(old(m[..]), dest, src, valSize, i)
    {
      m[dest + i] := m[src + j];
      i, j := i + 1, Wrap(j - 1);
    }
    if BarelyOverlap(dest, src, valSize) {
      CopyReverses(old(m[..]), dest, src, valSize);
      ReversedValue(old(m[..])[src..src + valSize]);
    }
  }
}
