/** Byte-addressed memory and the little-endian 32-bit words (pointers, CPU_ALIGN data) stored in it. */
module ByteMemory {
  import opened Rounding

  type byte = x: int | 0 <= x < 256

  /** The k-th byte of a word, least significant first. */
  function ByteOf(v: nat, k: nat): byte {
    if k == 0 then v % 256 else ByteOf(v / 256, k - 1)
  }

  /** The word made of four bytes, least significant first. */
  function Word4(b0: byte, b1: byte, b2: byte, b3: byte): (v: nat)
    ensures v < MODULUS
  {
    Push8(b0, Push8(b1, Push8(b2, b3)))
  }

  /** One more byte below the word v. */
  function Push8(b: byte, v: nat): nat { b as int + 256 * v }

  /** The word read at address a. */
  function WordAt(m: seq<byte>, a: nat): (v: nat)
    requires a + WORD <= |m|
    ensures v < MODULUS
  {
    Word4(m[a], m[a + 1], m[a + 2], m[a + 3])
  }

  /** Memory after storing the word v at address a. */
  function WordStored(m: seq<byte>, a: nat, v: nat): (m': seq<byte>)
    requires a + WORD <= |m|
    ensures |m'| == |m|
    ensures forall k: nat | k < |m| :: m'[k] == if a <= k < a + WORD then ByteOf(v, k - a) else m[k]
  {
    m[a := ByteOf(v, 0)][a + 1 := ByteOf(v, 1)][a + 2 := ByteOf(v, 2)][a + 3 := ByteOf(v, 3)]
  }

  /** A store at any 32-bit address of the whole address space; it goes on at 0 after the last byte. */
  function WordPut(m: seq<byte>, a: nat, v: nat): (m': seq<byte>)
    requires |m| == MODULUS
    ensures |m'| == MODULUS
  {
    m[Wrap(a) := ByteOf(v, 0)][Wrap(a + 1) := ByteOf(v, 1)][Wrap(a + 2) := ByteOf(v, 2)][Wrap(a + 3) := ByteOf(v, 3)]
  }

  lemma WordPutExact(m: seq<byte>, a: nat, v: nat)
    requires |m| == MODULUS && a + WORD <= MODULUS
    ensures WordPut(m, a, v) == WordStored(m, a, v)
  {
    hide ByteOf;
    WrapTurn(a); WrapTurn(a + 1); WrapTurn(a + 2); WrapTurn(a + 3);
  }

  lemma Push8Parts(b: byte, v: nat)
    ensures Push8(b, v) % 256 == b && Push8(b, v) / 256 == v
  {}

  lemma BytesOfWord4(b0: byte, b1: byte, b2: byte, b3: byte)
    ensures var v := Word4(b0, b1, b2, b3);
      ByteOf(v, 0) == b0 && ByteOf(v, 1) == b1 && ByteOf(v, 2) == b2 && ByteOf(v, 3) == b3
  {
    hide Push8;
    Push8Parts(b0, Push8(b1, Push8(b2, b3)));
    Push8Parts(b1, Push8(b2, b3));
    Push8Parts(b2, b3);
    var x: nat := b3;
    assert ByteOf(x, 0) == b3;
    assert ByteOf(Push8(b2, b3), 1) == b3 && ByteOf(Push8(b2, b3), 0) == b2;
    assert ByteOf(Push8(b1, Push8(b2, b3)), 2) == b3;
  }

  /** A word is made of its bytes. */
  lemma Word4OfBytes(v: nat)
    requires v < MODULUS
    ensures Word4(ByteOf(v, 0), ByteOf(v, 1), ByteOf(v, 2), ByteOf(v, 3)) == v
  {
    hide Push8, ByteOf;
    var v1 := v / 256;
    var v2 := v1 / 256;
    var v3 := v2 / 256;
    FirstByte(v); FirstByte(v1); FirstByte(v2); FirstByte(v3);
    NextByte(v, 0); NextByte(v, 1); NextByte(v, 2);
    NextByte(v1, 0); NextByte(v1, 1); NextByte(v2, 0);
  }

  lemma FirstByte(v: nat)
    ensures ByteOf(v, 0) == v % 256 && Push8(ByteOf(v, 0), v / 256) == v
  {}

  lemma NextByte(v: nat, k: nat)
    ensures ByteOf(v, k + 1) == ByteOf(v / 256, k)
  {}

  /** Storing a word and reading it back. */
  lemma StoreLoad(m: seq<byte>, a: nat, v: nat)
    requires a + WORD <= |m| && v < MODULUS
    ensures WordAt(WordStored(m, a, v), a) == v
  {
    hide Word4, ByteOf;
    Word4OfBytes(v);
  }

  /** A word determines its bytes, so comparing words compares bytes. */
  lemma WordDeterminesBytes(m: seq<byte>, a: nat, m': seq<byte>, a': nat)
    requires a + WORD <= |m| && a' + WORD <= |m'|
    ensures WordAt(m, a) == WordAt(m', a') <==>
      m[a] == m'[a'] && m[a + 1] == m'[a' + 1] && m[a + 2] == m'[a' + 2] && m[a + 3] == m'[a' + 3]
  {
    hide Word4, ByteOf;
    BytesOfWord4(m[a], m[a + 1], m[a + 2], m[a + 3]);
    BytesOfWord4(m'[a'], m'[a' + 1], m'[a' + 2], m'[a' + 3]);
  }

  /** Storing at a' the word read at a copies four bytes. */
  lemma CopyWord(m: seq<byte>, a: nat, a': nat)
    requires a + WORD <= |m| && a' + WORD <= |m|
    ensures WordStored(m, a', WordAt(m, a)) == m[a' := m[a]][a' + 1 := m[a + 1]][a' + 2 := m[a + 2]][a' + 3 := m[a + 3]]
  {
    hide Word4, ByteOf;
    BytesOfWord4(m[a], m[a + 1], m[a + 2], m[a + 3]);
  }

  // ----- memory as an array -----

  method LoadWord(m: array<byte>, a: nat) returns (v: nat)
    requires a + WORD <= m.Length
    ensures v == WordAt(m[..], a)
  {
    v := Word4(m[a], m[a + 1], m[a + 2], m[a + 3]);
  }

  method StoreWord(m: array<byte>, a: nat, v: nat)
    requires a + WORD <= m.Length
    modifies m
    ensures m[..] == WordStored(old(m[..]), a, v)
  {
    hide ByteOf;
    m[a], m[a + 1], m[a + 2], m[a + 3] := ByteOf(v, 0), ByteOf(v, 1), ByteOf(v, 2), ByteOf(v, 3);
  }

  method PutWord(m: array<byte>, a: nat, v: nat)
    requires m.Length == MODULUS
    modifies m
    ensures m[..] == WordPut(old(m[..]), a, v)
  {
    hide ByteOf;
    m[Wrap(a)] := ByteOf(v, 0);
    m[Wrap(a + 1)] := ByteOf(v, 1);
    m[Wrap(a + 2)] := ByteOf(v, 2);
    m[Wrap(a + 3)] := ByteOf(v, 3);
  }
}
