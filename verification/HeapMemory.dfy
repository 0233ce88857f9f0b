/** The byte-addressed memory the kernel heap lives in. Headers and footers are little-endian 32-bit words at
    byte addresses that need not be aligned, so a store is described by the bytes it touches. */
module HeapMemory {
  import opened Common

  const WORD_LIMIT := 0x1_0000_0000

  predicate InRange(m: seq<byte>, a: int) {
    0 <= a && a + 4 <= |m|
  }

  /** The word at `a`; reads outside memory, which no operation makes, are 0. */
  function Word(m: seq<byte>, a: int): (w: int)
    ensures 0 <= w < WORD_LIMIT
  {
    if InRange(m, a) then
      var b0: int, b1: int, b2: int, b3: int := m[a], m[a + 1], m[a + 2], m[a + 3];
      b0 + 256 * b1 + 65536 * b2 + 16777216 * b3
    else 0
  }

  /** Memory after the word at `a` is set to `v`. */
  function Put(m: seq<byte>, a: int, v: int): (r: seq<byte>)
    requires InRange(m, a) && 0 <= v < WORD_LIMIT
    ensures |r| == |m| && Word(r, a) == v
    ensures forall k :: 0 <= k < |m| && !(a <= k < a + 4) ==> r[k] == m[k]
  {
    var b0: byte, b1: byte, b2: byte, b3: byte := v % 256, v / 256 % 256, v / 65536 % 256, v / 16777216;
    WordOfBytes(v);
    m[a := b0][a + 1 := b1][a + 2 := b2][a + 3 := b3]
  }

  lemma WordOfBytes(v: int)
    requires 0 <= v < WORD_LIMIT
    ensures v == v % 256 + 256 * (v / 256 % 256) + 65536 * (v / 65536 % 256) + 16777216 * (v / 16777216)
  {
  }

  /** The two memories hold the same bytes in [lo, hi). */
  ghost predicate Agree(m: seq<byte>, m': seq<byte>, lo: int, hi: int) {
    |m'| == |m| && forall k :: 0 <= k < |m| && lo <= k < hi ==> m'[k] == m[k]
  }

  lemma AgreeWord(m: seq<byte>, m': seq<byte>, lo: int, hi: int, a: int)
    requires Agree(m, m', lo, hi) && lo <= a && a + 4 <= hi
    ensures Word(m', a) == Word(m, a)
  {
  }

  /** A store sets one word, and leaves every word and byte it does not touch alone. */
  ghost predicate Stored(m: seq<byte>, m': seq<byte>, a: int, v: int) {
    && |m'| == |m| && Word(m', a) == v
    && (forall b :: (b + 4 <= a || a + 4 <= b) ==> Word(m', b) == Word(m, b))
    && (forall k :: 0 <= k < |m| && !(a <= k < a + 4) ==> m'[k] == m[k])
  }

  /** Memory with the bytes from `dst` on replaced by `b`. */
  ghost function Replaced(m: seq<byte>, dst: int, b: seq<byte>): (r: seq<byte>)
    requires 0 <= dst && dst + |b| <= |m|
    ensures |r| == |m|
  {
    m[..dst] + b + m[dst + |b|..]
  }

  lemma ReplacedStep(m: seq<byte>, dst: int, b: seq<byte>, v: byte)
    requires 0 <= dst && dst + |b| < |m|
    ensures Replaced(m, dst, b)[dst + |b| := v] == Replaced(m, dst, b + [v])
  {
  }

  ghost function Zeros(n: int): seq<byte>
    requires 0 <= n
  {
    seq(n, _ => 0)
  }

  class Ram {
    var bytes: seq<byte>

    constructor (bytes: seq<byte>)
      ensures this.bytes == bytes
    {
      this.bytes := bytes;
    }

    method Load(a: int) returns (w: int)
      requires InRange(bytes, a)
      ensures w == Word(bytes, a)
    {
      w := Word(bytes, a);
    }

    method Store(a: int, v: int)
      requires InRange(bytes, a) && 0 <= v < WORD_LIMIT
      modifies this
      ensures Stored(old(bytes), bytes, a, v)
    {
      bytes := Put(bytes, a, v);
      hide Put;
      assert |old(bytes)| == |bytes|;
    }

    /** A client's store of one byte. */
    method Poke(a: int, v: byte)
      requires 0 <= a < |bytes|
      modifies this
      ensures bytes == old(bytes)[a := v]
    {
      bytes := bytes[a := v];
    }

    /** The kernel's `memcpy` (src/kernel/src/klibc/mem.c:3-8) between ranges that do not overlap. */
    method Copy(dst: int, src: int, n: int)
      requires 0 <= n && 0 <= src && src + n <= |bytes| && 0 <= dst && dst + n <= |bytes| && (src + n <= dst || dst + n <= src)
      modifies this
      ensures bytes == Replaced(old(bytes), dst, old(bytes)[src..src + n])
    {
      ghost var m := bytes;
      for i := 0 to n
        invariant |bytes| == |m|
        invariant forall k :: 0 <= k < |m| && !(dst <= k < dst + i) ==> bytes[k] == m[k]
        invariant forall k :: dst <= k < dst + i ==> bytes[k] == m[src - dst + k]
      {
        bytes := bytes[dst + i := bytes[src + i]];
      }
    }

    /** The kernel's `memset` (src/kernel/src/klibc/mem.c:10-14) with 0. */
    method Clear(dst: int, n: int)
      requires 0 <= n && 0 <= dst && dst + n <= |bytes|
      modifies this
      ensures bytes == Replaced(old(bytes), dst, Zeros(n))
    {
      ghost var m := bytes;
      var i := 0;
      while i < n
        invariant 0 <= i <= n && bytes == Replaced(m, dst, Zeros(i))
      {
        ReplacedStep(m, dst, Zeros(i), 0);
        assert Zeros(i) + [0] == Zeros(i + 1);
        bytes := bytes[dst + i := 0];
        i := i + 1;
      }
    }
  }
}
