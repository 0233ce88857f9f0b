/** `memset` of the user C library (src/user/libc/string/memset.c). The array is the n-byte range and nothing else, so every store is
    shown to stay inside it; `addr` is its address. */
module Memset {
  import opened Arith
  import opened Words

  /** ((u32)-1)/255 * (unsigned char)c */
  function Spread(c: bv8): bv32 {
    0x0101_0101 * (c as bv32)
  }

  lemma SpreadBytes(c: bv8)
    ensures ByteOf(Spread(c), 0) == c && ByteOf(Spread(c), 1) == c && ByteOf(Spread(c), 2) == c && ByteOf(Spread(c), 3) == c
  {
  }

  /** c32 | ((u64)c32 << 32) */
  function Doubled(c32: bv32): bv64 {
    (c32 as bv64) | ((c32 as bv64) << 32)
  }

  function LowHalf(c64: bv64): bv32 {
    (c64 & 0xffff_ffff) as bv32
  }

  function HighHalf(c64: bv64): bv32 {
    (c64 >> 32) as bv32
  }

  lemma DoubledHalves(c32: bv32)
    ensures LowHalf(Doubled(c32)) == c32 && HighHalf(Doubled(c32)) == c32
  {
  }

  /** The address is a multiple of k. */
  predicate Aligned(address: nat, k: nat)
    requires k > 0
  {
    address % k == 0
  }

  lemma AlignedPlus(address: nat, k: nat, i: nat)
    requires k > 0 && Aligned(address, k)
    ensures Aligned(address + k * i, k)
  {
    DivModUnique(address + k * i, k, address / k + i, 0);
  }

  ghost predicate Filled(d: seq<bv8>, c: bv8, lo: int, hi: int) {
    forall k :: 0 <= k < |d| && lo <= k < hi ==> d[k] == c
  }

  /** Nothing that already held c was changed. */
  ghost predicate Kept(d: seq<bv8>, d': seq<bv8>, c: bv8) {
    |d'| == |d| && forall k :: 0 <= k < |d| && d[k] == c ==> d'[k] == c
  }

  /** *(u32 *)(s + j) = c32 */
  method Store32(d: array<bv8>, addr: nat, j: nat, c32: bv32, ghost c: bv8)
    requires j + 4 <= d.Length && Aligned(addr + j, 4) && c32 == Spread(c)
    modifies d
    ensures Kept(old(d[..]), d[..], c) && Filled(d[..], c, j, j + 4)
  {
    hide Spread;
    SpreadBytes(c);
    d[j], d[j + 1], d[j + 2], d[j + 3] := ByteOf(c32, 0), ByteOf(c32, 1), ByteOf(c32, 2), ByteOf(c32, 3);
  }

  method Halves(c64: bv64, ghost c32: bv32) returns (low: bv32, high: bv32)
    requires c64 == Doubled(c32)
    ensures low == c32 && high == c32
  {
    hide Doubled, LowHalf, HighHalf;
    DoubledHalves(c32);
    low, high := LowHalf(c64), HighHalf(c64);
  }

  lemma WordAligned(address: nat)
    requires Aligned(address, 8)
    ensures Aligned(address, 4) && Aligned(address + 4, 4)
  {
  }

  method StorePair(d: array<bv8>, addr: nat, j: nat, low: bv32, high: bv32, ghost c: bv8)
    requires j + 8 <= d.Length && Aligned(addr + j, 4) && Aligned(addr + j + 4, 4) && low == Spread(c) && high == Spread(c)
    modifies d
    ensures Kept(old(d[..]), d[..], c) && Filled(d[..], c, j, j + 8)
  {
    hide Spread, Aligned;
    Store32(d, addr, j, low, c);
    Store32(d, addr, j + 4, high, c);
  }

  /** *(u64 *)(s + j) = c64, as its two halves. */
  method Store64(d: array<bv8>, addr: nat, j: nat, c64: bv64, ghost c: bv8)
    requires j + 8 <= d.Length && Aligned(addr + j, 8)
    requires c64 == Doubled(Spread(c))
    modifies d
    ensures Kept(old(d[..]), d[..], c) && Filled(d[..], c, j, j + 8)
  {
    hide *;
    var low, high := Halves(c64, Spread(c));
    WordAligned(addr + j);
    StorePair(d, addr, j, low, high, c);
  }

  /** The four stores of the 32-byte loop. */
  method StoreBlock(d: array<bv8>, addr: nat, j: nat, c64: bv64, ghost c: bv8)
    requires j + 32 <= d.Length && Aligned(addr + j, 8)
    requires c64 == Doubled(Spread(c))
    modifies d
    ensures Kept(old(d[..]), d[..], c) && Filled(d[..], c, j, j + 32)
  {
    hide Spread, Doubled, Aligned;
    AlignedPlus(addr + j, 8, 1);
    AlignedPlus(addr + j, 8, 2);
    AlignedPlus(addr + j, 8, 3);
    Store64(d, addr, j, c64, c);
    Store64(d, addr, j + 8, c64, c);
    Store64(d, addr, j + 16, c64, c);
    Store64(d, addr, j + 24, c64, c);
  }

  /** Consecutive words. */
  method StoreWords(d: array<bv8>, addr: nat, j: nat, k: nat, c32: bv32, ghost c: bv8)
    requires j + 4 * k <= d.Length && Aligned(addr + j, 4) && c32 == Spread(c)
    modifies d
    ensures Kept(old(d[..]), d[..], c) && Filled(d[..], c, j, j + 4 * k)
  {
    hide Spread, Aligned;
    for i := 0 to k
      invariant Kept(old(d[..]), d[..], c) && Filled(d[..], c, j, j + 4 * i)
    {
      AlignedPlus(addr + j, 4, i);
      Store32(d, addr, j + 4 * i, c32, c);
    }
  }

  /** `memset`: for every length and every alignment, every byte of the range, although head, tail and loop overlap. */
  method Memset(d: array<bv8>, addr: nat, c: bv8)
    modifies d
    ensures Filled(d[..], c, 0, d.Length)
  {
    var n := d.Length;
    if n == 0 { return; }
    d[n - 1] := c;
    d[0] := c;
    if n <= 2 { return; }
    d[n - 2] := c;
    d[1] := c;
    d[n - 3] := c;
    d[2] := c;
    if n <= 6 { return; }
    d[n - 4] := c;
    d[3] := c;
    if n <= 8 { return; }
    FillWords(d, addr, c);
  }

  /** From line 27 on: the first and last four bytes are done, and there are more than eight. */
  method FillWords(d: array<bv8>, addr: nat, c: bv8)
    requires d.Length > 8 && Filled(d[..], c, 0, 4) && Filled(d[..], c, d.Length - 4, d.Length)
    modifies d
    ensures Filled(d[..], c, 0, d.Length)
  {
    hide Spread;
    var k := Skip(addr);
    var s := k;
    var n := (d.Length - k) / 4 * 4;
    var c32 := Spread(c);
    FillFrom(d, addr, s, n / 4, c32, c);
  }

  /** -(uintptr_t)s & 3: the way to the next word boundary. */
  function Skip(addr: nat): (k: nat)
    ensures k < 4 && Aligned(addr + k, 4)
  {
    (4 - addr % 4) % 4
  }

  /** From line 44 on: the w words from the aligned s on; at most three bytes on either side are cut off. */
  method FillFrom(d: array<bv8>, addr: nat, s: nat, w: nat, c32: bv32, ghost c: bv8)
    requires c32 == Spread(c) && s < 4 && Aligned(addr + s, 4) && 1 <= w && s + 4 * w <= d.Length < s + 4 * w + 4
    requires Filled(d[..], c, 0, 4) && Filled(d[..], c, d.Length - 4, d.Length)
    modifies d
    ensures Filled(d[..], c, 0, d.Length)
  {
    hide Spread, Aligned;
    StoreEnds(d, addr, s, 0, 1, w, c32, c);
    if w <= 2 { return; }
    StoreEnds(d, addr, s, 1, 2, w, c32, c);
    if w <= 6 { return; }
    StoreEnds(d, addr, s, 3, 4, w, c32, c);
    var k := 24 + EightBoundary(addr + s);
    FillBlocks(d, addr, s + k, w - k / 4, c32, c);
  }

  /** Words k to k + m from the start, and as many from the end. */
  method StoreEnds(d: array<bv8>, addr: nat, s: nat, k: nat, m: nat, w: nat, c32: bv32, ghost c: bv8)
    requires c32 == Spread(c) && Aligned(addr + s, 4) && k + m <= w && s + 4 * w <= d.Length
    requires Filled(d[..], c, 0, s + 4 * k) && Filled(d[..], c, s + 4 * (w - k), d.Length)
    modifies d
    ensures Filled(d[..], c, 0, s + 4 * (k + m)) && Filled(d[..], c, s + 4 * (w - k - m), d.Length)
  {
    hide Spread, Aligned;
    AlignedPlus(addr + s, 4, k);
    AlignedPlus(addr + s, 4, w - k - m);
    StoreWords(d, addr, s + 4 * k, m, c32, c);
    StoreWords(d, addr, s + 4 * (w - k - m), m, c32, c);
  }

  /** (uintptr_t)s & 4, for an aligned s: with 24 bytes more, the way to a boundary of eight. */
  function EightBoundary(address: nat): (k: nat)
    requires Aligned(address, 4)
    ensures (k == 0 || k == 4) && Aligned(address + (24 + k), 8)
  {
    address / 4 % 2 * 4
  }

  /** The 32-byte loop: 28 bytes before the end are already done, so a remainder below 32 can be ignored. */
  method FillBlocks(d: array<bv8>, addr: nat, s0: nat, w0: nat, c32: bv32, ghost c: bv8)
    requires c32 == Spread(c) && Aligned(addr + s0, 8) && s0 + 4 * w0 <= d.Length
    requires Filled(d[..], c, 0, s0) && Filled(d[..], c, s0 + 4 * w0 - 28, d.Length)
    modifies d
    ensures Filled(d[..], c, 0, d.Length)
  {
    hide Spread, Doubled, Aligned;
    var s, n := s0, 4 * w0;
    var c64 := Doubled(c32);
    ghost var w := w0;
    while n >= 32
      invariant s + n == s0 + 4 * w0 && n == 4 * w && 0 <= w && s0 <= s && Aligned(addr + s, 8)
      invariant Filled(d[..], c, 0, s) && Filled(d[..], c, s0 + 4 * w0 - 28, d.Length)
      decreases n
    {
      StoreBlock(d, addr, s, c64, c);
      AlignedPlus(addr + s, 8, 4);
      n, s, w := n - 32, s + 32, w - 8;
    }
  }
}
