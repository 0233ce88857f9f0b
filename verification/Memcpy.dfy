/** `memcpy` of the user C library (src/user/libc/string/memcpy.c). The two arrays are the two n-byte ranges and nothing else, so
    that every access is shown to stay inside them; `dAddr` and `sAddr` are their addresses, which decide the path taken. */
module Memcpy {
  import opened Words

  /** Joins the high bytes of one word with the low bytes of the next: (w >> 8c) | (x << (32 - 8c)). */
  function Merge(w: bv32, x: bv32, c: nat): bv32
    requires 1 <= c <= 3
  {
    match c
    case 1 => (w >> 8) | (x << 24)
    case 2 => (w >> 16) | (x << 16)
    case 3 => (w >> 24) | (x << 8)
  }

  /** Two neighbouring words, joined, are the word c bytes further on. */
  lemma MergeShifts(s: seq<bv8>, i: nat, c: nat)
    requires i + 8 <= |s| && 1 <= c <= 3
    ensures Merge(WordAt(s, i), WordAt(s, i + 4), c) == WordAt(s, i + c)
  {
    hide OfBytes, Merge;
    var b0, b1, b2, b3, b4, b5, b6, b7 := s[i], s[i + 1], s[i + 2], s[i + 3], s[i + 4], s[i + 5], s[i + 6], s[i + 7];
    match c
    case 1 => Merge1(b0, b1, b2, b3, b4, b5, b6, b7);
    case 2 => Merge2(b0, b1, b2, b3, b4, b5, b6, b7);
    case 3 => Merge3(b0, b1, b2, b3, b4, b5, b6, b7);
  }

  lemma Merge1(b0: bv8, b1: bv8, b2: bv8, b3: bv8, b4: bv8, b5: bv8, b6: bv8, b7: bv8)
    ensures Merge(OfBytes(b0, b1, b2, b3), OfBytes(b4, b5, b6, b7), 1) == OfBytes(b1, b2, b3, b4)
  {
  }

  lemma Merge2(b0: bv8, b1: bv8, b2: bv8, b3: bv8, b4: bv8, b5: bv8, b6: bv8, b7: bv8)
    ensures Merge(OfBytes(b0, b1, b2, b3), OfBytes(b4, b5, b6, b7), 2) == OfBytes(b2, b3, b4, b5)
  {
  }

  lemma Merge3(b0: bv8, b1: bv8, b2: bv8, b3: bv8, b4: bv8, b5: bv8, b6: bv8, b7: bv8)
    ensures Merge(OfBytes(b0, b1, b2, b3), OfBytes(b4, b5, b6, b7), 3) == OfBytes(b3, b4, b5, b6)
  {
  }

  /** The first `i` bytes are copied, the rest are as they were. */
  ghost predicate Copied(d: seq<bv8>, was: seq<bv8>, s: seq<bv8>, i: int) {
    0 <= i <= |s| && |d| == |s| == |was| && d == s[..i] + was[i..]
  }

  lemma CopiedMore(d: seq<bv8>, d': seq<bv8>, was: seq<bv8>, s: seq<bv8>, i: int, k: int)
    requires Copied(d, was, s, i) && 0 <= k && i + k <= |s| && d' == d[..i] + s[i..i + k] + d[i + k..]
    ensures Copied(d', was, s, i + k)
  {
  }

  /** `*d++ = *s++`, k times. */
  method CopyBytes(d: array<bv8>, s: array<bv8>, i: nat, k: nat, ghost was: seq<bv8>)
    requires d != s && Copied(d[..], was, s[..], i) && i + k <= s.Length
    modifies d
    ensures Copied(d[..], was, s[..], i + k)
  {
    for j := i to i + k
      invariant Copied(d[..], was, s[..], j)
    {
      ghost var t := d[..];
      d[j] := s[j];
      CopiedMore(t, d[..], was, s[..], j, 1);
    }
  }

  /** `*(u32 *)d = *(u32 *)s`, k times. */
  method CopyWords(d: array<bv8>, dAddr: nat, s: array<bv8>, sAddr: nat, i: nat, k: nat, ghost was: seq<bv8>)
    requires d != s && Copied(d[..], was, s[..], i) && i + 4 * k <= s.Length && (dAddr + i) % 4 == 0 && (sAddr + i) % 4 == 0
    modifies d
    ensures Copied(d[..], was, s[..], i + 4 * k)
  {
    hide WordAt;
    for j := 0 to k
      invariant Copied(d[..], was, s[..], i + 4 * j)
    {
      ghost var t := d[..];
      var w := Load(s, sAddr, i + 4 * j);
      Store(d, dAddr, i + 4 * j, w, s[..], i + 4 * j);
      CopiedMore(t, d[..], was, s[..], i + 4 * j, 4);
    }
  }

  /** One store of the shifted loops: `w` is the last source word loaded, part of which is already copied. */
  method CopyMerged(d: array<bv8>, dAddr: nat, s: array<bv8>, sAddr: nat, i: nat, c: nat, w: bv32, ghost was: seq<bv8>) returns (x: bv32)
    requires d != s && Copied(d[..], was, s[..], i) && 1 <= c <= 3 && c <= i && i - c + 8 <= s.Length
    requires (dAddr + i) % 4 == 0 && (sAddr + i - c) % 4 == 0 && w == WordAt(s[..], i - c)
    modifies d
    ensures Copied(d[..], was, s[..], i + 4) && x == WordAt(s[..], i + 4 - c)
  {
    hide WordAt, Merge;
    x := Load(s, sAddr, i + 4 - c);
    MergeShifts(s[..], i - c, c);
    ghost var t := d[..];
    Store(d, dAddr, i, Merge(w, x, c), s[..], i);
    CopiedMore(t, d[..], was, s[..], i, 4);
  }

  method CopyFourMerged(d: array<bv8>, dAddr: nat, s: array<bv8>, sAddr: nat, i: nat, c: nat, w: bv32, ghost was: seq<bv8>)
    returns (x: bv32)
    requires d != s && Copied(d[..], was, s[..], i) && 1 <= c <= 3 && c <= i && i - c + 20 <= s.Length
    requires (dAddr + i) % 4 == 0 && (sAddr + i - c) % 4 == 0 && w == WordAt(s[..], i - c)
    modifies d
    ensures Copied(d[..], was, s[..], i + 16) && x == WordAt(s[..], i + 16 - c)
  {
    hide WordAt, Copied;
    x := CopyMerged(d, dAddr, s, sAddr, i, c, w, was);
    x := CopyMerged(d, dAddr, s, sAddr, i + 4, c, x, was);
    x := CopyMerged(d, dAddr, s, sAddr, i + 8, c, x, was);
    x := CopyMerged(d, dAddr, s, sAddr, i + 12, c, x, was);
  }

  /** The three cases of the switch, for destinations 1, 2 and 3 bytes past a word boundary: c = 3, 2 and 1 bytes are
      copied to reach the boundary, then four merged words a round. */
  method CopyShifted(d: array<bv8>, dAddr: nat, s: array<bv8>, sAddr: nat, i0: nat, ghost was: seq<bv8>) returns (i: nat)
    requires d != s && Copied(d[..], was, s[..], i0) && s.Length - i0 >= 32
    requires (sAddr + i0) % 4 == 0 && (dAddr + i0) % 4 != 0
    modifies d
    ensures i <= s.Length && s.Length - i < 32 && Copied(d[..], was, s[..], i)
  {
    hide WordAt;
    var c := 4 - (dAddr + i0) % 4;
    var w := Load(s, sAddr, i0);
    CopyBytes(d, s, i0, c, was);
    i := i0 + c;
    while s.Length - i >= 20 - c
      invariant i0 + c <= i && i - c + 4 <= s.Length && (dAddr + i) % 4 == 0 && (sAddr + i - c) % 4 == 0
      invariant Copied(d[..], was, s[..], i) && w == WordAt(s[..], i - c)
      decreases s.Length - i
    {
      w := CopyFourMerged(d, dAddr, s, sAddr, i, c, w, was);
      i := i + 16;
    }
  }

  /** `n & bit`, for a bit that is a power of two. */
  predicate Bit(n: nat, bit: nat)
    requires bit > 0
  {
    n / bit % 2 == 1
  }

  /** The low five bits of a number below 32 are all there is to it. */
  lemma Bits(n: nat)
    requires n < 32
    ensures n == (if Bit(n, 16) then 16 else 0) + (if Bit(n, 8) then 8 else 0) + (if Bit(n, 4) then 4 else 0)
                 + (if Bit(n, 2) then 2 else 0) + (if Bit(n, 1) then 1 else 0)
  {
  }

  /** What the low bits of n say is left, a byte at a time. */
  method CopyTail(d: array<bv8>, s: array<bv8>, i0: nat, ghost was: seq<bv8>)
    requires d != s && i0 <= s.Length && Copied(d[..], was, s[..], i0) && s.Length - i0 < 32
    modifies d
    ensures d[..] == s[..]
  {
    var n := s.Length - i0;
    hide Bit, Copied;
    Bits(n);
    var i := CopyBit(d, s, i0, n, 16, was);
    i := CopyBit(d, s, i, n, 8, was);
    i := CopyBit(d, s, i, n, 4, was);
    i := CopyBit(d, s, i, n, 2, was);
    i := CopyBit(d, s, i, n, 1, was);
    AllCopied(d[..], was, s[..]);
  }

  lemma AllCopied(d: seq<bv8>, was: seq<bv8>, s: seq<bv8>)
    requires Copied(d, was, s, |s|)
    ensures d == s
  {
  }

  /** if (n & bit): that many bytes. */
  method CopyBit(d: array<bv8>, s: array<bv8>, i: nat, n: nat, bit: nat, ghost was: seq<bv8>) returns (i': nat)
    requires d != s && Copied(d[..], was, s[..], i) && bit > 0 && i + (if Bit(n, bit) then bit else 0) <= s.Length
    modifies d
    ensures i' == i + (if Bit(n, bit) then bit else 0) && Copied(d[..], was, s[..], i')
  {
    hide Copied;
    i' := i;
    if Bit(n, bit) {
      CopyBytes(d, s, i, bit, was);
      i' := i + bit;
    }
  }

  /** Source and destination on the same boundary: sixteen bytes a round, then what the low bits of n say is left. */
  method CopyAligned(d: array<bv8>, dAddr: nat, s: array<bv8>, sAddr: nat, i0: nat, ghost was: seq<bv8>)
    requires d != s && Copied(d[..], was, s[..], i0)
    requires i0 < s.Length ==> (dAddr + i0) % 4 == 0 && (sAddr + i0) % 4 == 0
    modifies d
    ensures d[..] == s[..]
  {
    var i := i0;
    while s.Length - i >= 16
      invariant Copied(d[..], was, s[..], i) && i0 <= i
      invariant i < s.Length ==> (dAddr + i) % 4 == 0 && (sAddr + i) % 4 == 0
    {
      CopyWords(d, dAddr, s, sAddr, i, 4, was);
      i := i + 16;
    }
    CopyAlignedTail(d, dAddr, s, sAddr, i, was);
  }

  method CopyAlignedTail(d: array<bv8>, dAddr: nat, s: array<bv8>, sAddr: nat, i0: nat, ghost was: seq<bv8>)
    requires d != s && Copied(d[..], was, s[..], i0) && s.Length - i0 < 16
    requires i0 < s.Length ==> (dAddr + i0) % 4 == 0 && (sAddr + i0) % 4 == 0
    modifies d
    ensures d[..] == s[..]
  {
    hide Bit;
    var i, n := i0, s.Length - i0;
    Bits(n);
    if Bit(n, 8) {
      CopyWords(d, dAddr, s, sAddr, i, 2, was);
      i := i + 8;
    }
    if Bit(n, 4) {
      CopyWords(d, dAddr, s, sAddr, i, 1, was);
      i := i + 4;
    }
    if Bit(n, 2) {
      CopyBytes(d, s, i, 2, was);
      i := i + 2;
    }
    if Bit(n, 1) {
      CopyBytes(d, s, i, 1, was);
      i := i + 1;
    }
  }

  /** `memcpy`: for every length and every pair of alignments, the byte-by-byte copy. */
  method Memcpy(d: array<bv8>, dAddr: nat, s: array<bv8>, sAddr: nat)
    requires d != s && d.Length == s.Length
    modifies d
    ensures d[..] == s[..]
  {
    ghost var was := d[..];
    var i := 0;
    while (sAddr + i) % 4 != 0 && i < s.Length
      invariant Copied(d[..], was, s[..], i) && 0 <= i
      decreases s.Length - i
    {
      CopyBytes(d, s, i, 1, was);
      i := i + 1;
    }
    if (dAddr + i) % 4 == 0 {
      CopyAligned(d, dAddr, s, sAddr, i, was);
      return;
    }
    if s.Length - i >= 32 {
      i := CopyShifted(d, dAddr, s, sAddr, i, was);
    }
    CopyTail(d, s, i, was);
  }
}
